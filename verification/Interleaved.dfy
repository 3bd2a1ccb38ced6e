/**
 * Interleaved bitmaps: for each column of tiles a block with its length, one bit per tile and the tiles that are
 * not all zero.
 */
module Interleaved {
  import opened Arith
  import opened Words
  import opened Bits
  import opened Machine
  import opened TileProduct
  import opened Walks
  import opened Tiles
  import opened Compaction

  /** Words of bitmap per block. */
  function MetaWords(tileRows: nat): (n: nat)
    ensures 32 * n >= tileRows && (n > 0 ==> 32 * (n - 1) < tileRows)
  {
    (tileRows + 32 - 1) / 32
  }

  /** How many of the first `n` tiles are not all zero. */
  ghost function Count(vs: seq<Visit>, n: nat): (c: nat)
    requires n <= |vs|
  {
    |Picked(vs, n)|
  }

  /** Where block `j` starts. */
  ghost function Start(g: Geometry, vs: seq<Visit>, tileRows: nat, j: nat): nat
    requires Mul(j, tileRows) <= |vs|
  {
    Mul(j, 1 + MetaWords(tileRows)) + Mul(Count(vs, Mul(j, tileRows)), TileSize(g))
  }

  /** Where, in block `j`, the tile goes that has `c` tiles before it that are not all zero. */
  ghost function TilePos(g: Geometry, tileRows: nat, j: nat, c: nat): nat {
    Mul(j + 1, 1 + MetaWords(tileRows)) + Mul(c, TileSize(g))
  }

  /** Bit `i` of the bitmap of the block at `at`. */
  ghost predicate MetaBit(words: seq<Word>, at: nat, i: nat) {
    at + 1 + i / 32 < |words| && Bit(words[at + 1 + i / 32], i % 32)
  }

  /** Tile `i` of column `j` is not all zero. */
  ghost predicate Present(vs: seq<Visit>, tileRows: nat, j: nat, i: nat) {
    i < tileRows && Mul(j, tileRows) + i < |vs| && !ZeroTile(vs[Mul(j, tileRows) + i].tile)
  }

  /** The bitmap tells the tiles of column `j`, among the first `n`, that are not all zero; later bits are clear. */
  ghost predicate BitsRight(vs: seq<Visit>, tileRows: nat, j: nat, n: nat, words: seq<Word>, at: nat) {
    forall i :: 0 <= i < 32 * MetaWords(tileRows) ==> (MetaBit(words, at, i) <==> i < n && Present(vs, tileRows, j, i))
  }

  /** The tiles of column `j` picked before visit `n` are in place. */
  ghost predicate TilesRight(g: Geometry, vs: seq<Visit>, tileRows: nat, j: nat, n: nat, words: seq<Word>)
    requires Mul(j, tileRows) <= n <= |vs|
  {
    forall c {:trigger Picked(vs, n)[c]} :: Count(vs, Mul(j, tileRows)) <= c < Count(vs, n) ==>
      HoldsTile(g, words, TilePos(g, tileRows, j, c), Picked(vs, n)[c])
  }

  /** Block `j`: length, bitmap, tiles. */
  ghost predicate BlockRight(g: Geometry, vs: seq<Visit>, tileRows: nat, j: nat, words: seq<Word>) {
    && Mul(j, tileRows) + tileRows <= |vs|
    && var at := Start(g, vs, tileRows, j);
       var e := TilePos(g, tileRows, j, Count(vs, Mul(j, tileRows) + tileRows));
       && at < e <= |words| && words[at] == e - at
       && BitsRight(vs, tileRows, j, tileRows, words, at)
       && TilesRight(g, vs, tileRows, j, Mul(j, tileRows) + tileRows, words)
  }

  ghost predicate IsInterleaved(g: Geometry, tileRows: nat, tileCols: nat, kernel: seq<Word>, words: seq<Word>)
    requires IsTileGrid(g, tileRows, tileCols, kernel)
  {
    forall j :: 0 <= j < tileCols ==> BlockRight(g, TileVisits(g, tileRows, tileCols, kernel), tileRows, j, words)
  }

  // ----- decoding

  /** Where the decoder starts in the bitmap. */
  function FirstBit(tileRows: nat): nat {
    32 - if tileRows < 32 then tileRows else 32
  }

  /**
   * The visits made from one state of the decoding loop, and the read position after them. `meta` and `bit` are
   * the position in the bitmap, `vals` the read position, `next` the end of the block. No result if the decoder
   * would read outside the buffer.
   */
  ghost function DecodeBlock(g: Geometry, words: seq<Word>, meta: nat, bit: nat, vals: nat, next: nat, row: nat, col: nat):
    (r: Option<(seq<Visit>, nat)>)
    requires bit <= 32
    decreases 32 * |words| + 32 - (32 * meta + bit)
  {
    if vals >= next then Some(([], vals))
    else
      var m, b := if bit == 32 then meta + 1 else meta, if bit == 32 then 0 else bit;
      if m >= |words| then None
      else if !Bit(words[m], b) then DecodeBlock(g, words, m, b + 1, vals, next, row + 1, col)
      else if vals + TileSize(g) > |words| then None
      else
        var rest := DecodeBlock(g, words, m, b + 1, vals + TileSize(g), next, row + 1, col);
        if rest.None? then None
        else Some(([Visit(row, col, words[vals..vals + TileSize(g)])] + rest.value.0, rest.value.1))
  }

  /** The visits made from column `j` on when the read position is `pos`. */
  ghost function Decode(g: Geometry, tileRows: nat, tileCols: nat, words: seq<Word>, j: nat, pos: nat):
    (r: Option<seq<Visit>>)
    decreases tileCols - j
  {
    if j >= tileCols then Some([])
    else if pos >= |words| then None
    else
      var block := DecodeBlock(g, words, pos + 1, FirstBit(tileRows), pos + 1 + MetaWords(tileRows), pos + words[pos], 0, j);
      if block.None? then None
      else
        var rest := Decode(g, tileRows, tileCols, words, j + 1, block.value.1);
        if rest.None? then None else Some(block.value.0 + rest.value)
  }

  // ----- the decoder follows the encoding

  /** The tiles from visit `n` on, up to `e`, that are not all zero. */
  ghost function Between(vs: seq<Visit>, n: nat, e: nat): (r: seq<Visit>)
    requires n <= e <= |vs|
  {
    PickedPrefix(vs, n, e);
    Picked(vs, e)[Count(vs, n)..]
  }

  lemma BetweenNext(vs: seq<Visit>, n: nat, e: nat)
    requires n < e <= |vs|
    ensures ZeroTile(vs[n].tile) ==> Count(vs, n + 1) == Count(vs, n) && Between(vs, n, e) == Between(vs, n + 1, e)
    ensures !ZeroTile(vs[n].tile) ==>
              && Count(vs, n + 1) == Count(vs, n) + 1 <= Count(vs, e)
              && Picked(vs, e)[Count(vs, n)] == vs[n] && Between(vs, n, e) == [vs[n]] + Between(vs, n + 1, e)
  {
    hide Picked, ZeroTile;
    PickedNext(vs, n);
    PickedPrefix(vs, n + 1, e);
  }

  lemma CountMono(vs: seq<Visit>, n: nat, e: nat)
    requires n <= e <= |vs|
    ensures Count(vs, n) <= Count(vs, e) <= Count(vs, n) + e - n
  {
    hide Picked;
    PickedPrefix(vs, n, e);
  }

  lemma TilePosMono(g: Geometry, tileRows: nat, j: nat, c: nat, d: nat)
    requires c <= d && TileSize(g) >= 1
    ensures TilePos(g, tileRows, j, c) <= TilePos(g, tileRows, j, d)
    ensures c < d ==> TilePos(g, tileRows, j, c) + TileSize(g) <= TilePos(g, tileRows, j, d)
    ensures TilePos(g, tileRows, j, c + 1) == TilePos(g, tileRows, j, c) + TileSize(g)
  {
    hide MetaWords;
    MulLe(c, d, TileSize(g));
    MulNext(c, TileSize(g));
    if c < d {
      MulLe(c + 1, d, TileSize(g));
    }
  }

  /** The first tile of a block follows its bitmap, and the next block follows its last tile. */
  lemma BlockEnds(g: Geometry, vs: seq<Visit>, tileRows: nat, j: nat)
    requires Mul(j, tileRows) + tileRows <= |vs|
    ensures Start(g, vs, tileRows, j) + 1 + MetaWords(tileRows) == TilePos(g, tileRows, j, Count(vs, Mul(j, tileRows)))
    ensures Mul(j + 1, tileRows) == Mul(j, tileRows) + tileRows
    ensures Start(g, vs, tileRows, j + 1) == TilePos(g, tileRows, j, Count(vs, Mul(j, tileRows) + tileRows))
  {
    hide MetaWords, Count, Mul;
    MulNext(j, tileRows);
    MulNext(j, 1 + MetaWords(tileRows));
  }

  /** The bit the decoder tests at row `i` is the bit of tile `i`. */
  lemma BitInStep(g: Geometry, vs: seq<Visit>, tileRows: nat, j: nat, words: seq<Word>, i: nat, meta: nat, bit: nat)
    requires TileSize(g) >= 1 && BlockRight(g, vs, tileRows, j, words) && i < tileRows && bit <= 32
    requires meta >= Start(g, vs, tileRows, j) + 1 && 32 * (meta - (Start(g, vs, tileRows, j) + 1)) + bit == i
    ensures var m, b := if bit == 32 then meta + 1 else meta, if bit == 32 then 0 else bit;
            && m < |words| && m >= Start(g, vs, tileRows, j) + 1
            && 32 * (m - (Start(g, vs, tileRows, j) + 1)) + b == i
            && (Bit(words[m], b) <==> !ZeroTile(vs[Mul(j, tileRows) + i].tile))
  {
    hide Start, TilePos, TilesRight, Mul, Count, ZeroTile, Bit;
    var at := Start(g, vs, tileRows, j);
    BlockEnds(g, vs, tileRows, j);
    CountMono(vs, Mul(j, tileRows), Mul(j, tileRows) + tileRows);
    TilePosMono(g, tileRows, j, Count(vs, Mul(j, tileRows)), Count(vs, Mul(j, tileRows) + tileRows));
    assert i < 32 * MetaWords(tileRows) && i / 32 < MetaWords(tileRows);
    assert MetaBit(words, at, i) <==> Present(vs, tileRows, j, i);
    assert at + 1 + i / 32 == if bit == 32 then meta + 1 else meta;
  }

  /** From row `i` of block `j` on, the decoder visits the remaining tiles that are not all zero. */
  lemma {:induction false} BlockInStep(g: Geometry, tileRows: nat, tileCols: nat, kernel: seq<Word>, j: nat,
                                       words: seq<Word>, i: nat, meta: nat, bit: nat)
    requires TileSize(g) >= 1 && IsTileGrid(g, tileRows, tileCols, kernel) && j < tileCols && i <= tileRows && bit <= 32
    requires var vs := TileVisits(g, tileRows, tileCols, kernel);
             && BlockRight(g, vs, tileRows, j, words)
             && meta >= Start(g, vs, tileRows, j) + 1 && 32 * (meta - (Start(g, vs, tileRows, j) + 1)) + bit == i
    ensures var vs, n, e := TileVisits(g, tileRows, tileCols, kernel), Mul(j, tileRows) + i, Mul(j, tileRows) + tileRows;
            DecodeBlock(g, words, meta, bit, TilePos(g, tileRows, j, Count(vs, n)), TilePos(g, tileRows, j, Count(vs, e)), i, j)
            == Some((Between(vs, n, e), TilePos(g, tileRows, j, Count(vs, e))))
    decreases tileRows - i
  {
    hide Start, TilePos, BlockRight, Mul, Count, ZeroTile, Bit, TileVisit, Between;
    var vs, n, e := TileVisits(g, tileRows, tileCols, kernel), Mul(j, tileRows) + i, Mul(j, tileRows) + tileRows;
    BlockFits(g, vs, tileRows, j, words);
    CountMono(vs, n, e);
    TilePosMono(g, tileRows, j, Count(vs, n), Count(vs, e));
    if Count(vs, n) == Count(vs, e) {
      BetweenNone(vs, n, e);
    } else {
      assert i < tileRows;
      BitInStep(g, vs, tileRows, j, words, i, meta, bit);
      BetweenNext(vs, n, e);
      var m, b := if bit == 32 then meta + 1 else meta, if bit == 32 then 0 else bit;
      BlockInStep(g, tileRows, tileCols, kernel, j, words, i + 1, m, b + 1);
      if !ZeroTile(vs[n].tile) {
        TileInStep(g, tileRows, tileCols, kernel, j, words, i);
      }
    }
  }

  lemma BetweenNone(vs: seq<Visit>, n: nat, e: nat)
    requires n <= e <= |vs| && Count(vs, n) == Count(vs, e)
    ensures Between(vs, n, e) == []
  {
    hide Picked;
    PickedPrefix(vs, n, e);
  }

  lemma BlockFits(g: Geometry, vs: seq<Visit>, tileRows: nat, j: nat, words: seq<Word>)
    requires BlockRight(g, vs, tileRows, j, words)
    ensures Mul(j, tileRows) + tileRows <= |vs|
    ensures TilePos(g, tileRows, j, Count(vs, Mul(j, tileRows) + tileRows)) <= |words|
    ensures Start(g, vs, tileRows, j) < |words|
    ensures Start(g, vs, tileRows, j) + words[Start(g, vs, tileRows, j)]
         == TilePos(g, tileRows, j, Count(vs, Mul(j, tileRows) + tileRows))
  {
    hide Start, TilePos, Count, Mul, BitsRight, TilesRight;
  }

  /** The words at the read position are the next tile that is not all zero. */
  lemma TileInStep(g: Geometry, tileRows: nat, tileCols: nat, kernel: seq<Word>, j: nat, words: seq<Word>, i: nat)
    requires TileSize(g) >= 1 && IsTileGrid(g, tileRows, tileCols, kernel) && j < tileCols && i < tileRows
    requires var vs := TileVisits(g, tileRows, tileCols, kernel);
             && BlockRight(g, vs, tileRows, j, words) && Mul(j, tileRows) + tileRows <= |vs|
             && !ZeroTile(vs[Mul(j, tileRows) + i].tile)
    ensures var vs, n := TileVisits(g, tileRows, tileCols, kernel), Mul(j, tileRows) + i;
            var pos := TilePos(g, tileRows, j, Count(vs, n));
            pos + TileSize(g) <= |words| && Visit(i, j, words[pos..pos + TileSize(g)]) == vs[n]
  {
    hide Start, TilePos, Mul, ZeroTile, BitsRight, TileVisit, Picked, Tile;
    var vs, n, e := TileVisits(g, tileRows, tileCols, kernel), Mul(j, tileRows) + i, Mul(j, tileRows) + tileRows;
    BetweenNext(vs, n, e);
    CountMono(vs, Mul(j, tileRows), n);
    assert HoldsTile(g, words, TilePos(g, tileRows, j, Count(vs, n)), Picked(vs, e)[Count(vs, n)]);
    TileVisitAt(g, tileRows, tileCols, kernel, j, i);
  }

  /** The decoder's bitmap position agrees with the encoder's: at least one full word, or no tiles at all. */
  ghost predicate BitmapAligned(tileRows: nat) {
    tileRows >= 32 || tileRows == 0
  }

  /** From block `j` on. */
  lemma {:induction false} DecodeInStep(g: Geometry, tileRows: nat, tileCols: nat, kernel: seq<Word>, words: seq<Word>, j: nat)
    requires TileSize(g) >= 1 && IsTileGrid(g, tileRows, tileCols, kernel) && j <= tileCols
    requires BitmapAligned(tileRows) && IsInterleaved(g, tileRows, tileCols, kernel, words)
    ensures var vs := TileVisits(g, tileRows, tileCols, kernel);
            Mul(j, tileRows) <= |vs|
            && Decode(g, tileRows, tileCols, words, j, Start(g, vs, tileRows, j)) == Some(Between(vs, Mul(j, tileRows), |vs|))
    decreases tileCols - j
  {
    hide Start, TilePos, BlockRight, Mul, Count, TileVisit, Between, DecodeBlock, MetaWords;
    var vs := TileVisits(g, tileRows, tileCols, kernel);
    if j == tileCols {
      BetweenNone(vs, |vs|, |vs|);
    } else {
      var n, e := Mul(j, tileRows), Mul(j, tileRows) + tileRows;
      assert BlockRight(g, vs, tileRows, j, words);
      BlockFits(g, vs, tileRows, j, words);
      BlockEnds(g, vs, tileRows, j);
      DecodeInStep(g, tileRows, tileCols, kernel, words, j + 1);
      FirstInStep(g, tileRows, tileCols, kernel, j, words);
      BetweenJoin(vs, n, e, |vs|);
    }
  }

  lemma FirstInStep(g: Geometry, tileRows: nat, tileCols: nat, kernel: seq<Word>, j: nat, words: seq<Word>)
    requires TileSize(g) >= 1 && IsTileGrid(g, tileRows, tileCols, kernel) && j < tileCols && BitmapAligned(tileRows)
    requires BlockRight(g, TileVisits(g, tileRows, tileCols, kernel), tileRows, j, words)
    ensures var vs, n, e := TileVisits(g, tileRows, tileCols, kernel), Mul(j, tileRows), Mul(j, tileRows) + tileRows;
            var at := Start(g, vs, tileRows, j);
            e <= |vs|
            && DecodeBlock(g, words, at + 1, FirstBit(tileRows), TilePos(g, tileRows, j, Count(vs, n)),
                           TilePos(g, tileRows, j, Count(vs, e)), 0, j)
               == Some((Between(vs, n, e), TilePos(g, tileRows, j, Count(vs, e))))
  {
    hide Start, TilePos, BlockRight, Mul, Count, TileVisit, Between;
    var vs := TileVisits(g, tileRows, tileCols, kernel);
    BlockFits(g, vs, tileRows, j, words);
    if tileRows == 0 {
      BetweenNone(vs, Mul(j, tileRows), Mul(j, tileRows));
    } else {
      BlockInStep(g, tileRows, tileCols, kernel, j, words, 0, Start(g, vs, tileRows, j) + 1, 0);
    }
  }

  lemma BetweenJoin(vs: seq<Visit>, n: nat, e: nat, f: nat)
    requires n <= e <= f <= |vs|
    ensures Between(vs, n, e) + Between(vs, e, f) == Between(vs, n, f)
  {
    hide Picked;
    PickedPrefix(vs, n, e);
    PickedPrefix(vs, e, f);
    PickedPrefix(vs, n, f);
  }

  /** With an aligned bitmap the decoder visits exactly the tiles that are not all zero, in order. */
  lemma DecodeEncoded(g: Geometry, tileRows: nat, tileCols: nat, kernel: seq<Word>, words: seq<Word>)
    requires TileSize(g) >= 1 && IsTileGrid(g, tileRows, tileCols, kernel)
    requires BitmapAligned(tileRows) && IsInterleaved(g, tileRows, tileCols, kernel, words)
    ensures Decode(g, tileRows, tileCols, words, 0, 0) == Some(NonZero(TileVisits(g, tileRows, tileCols, kernel)))
  {
    hide Decode, IsInterleaved, TileVisit, Picked, MetaWords;
    var vs := TileVisits(g, tileRows, tileCols, kernel);
    DecodeInStep(g, tileRows, tileCols, kernel, words, 0);
    PickedAll(vs);
  }
}
