/** Exactly when the interleaved format works: the bitmap position of the decoder, and the room in the buffer. */
module InterleavedLimits {
  import opened Arith
  import opened Words
  import opened Bits
  import opened Machine
  import opened TileProduct
  import opened Walks
  import opened Tiles
  import opened Compaction
  import opened Interleaved
  import opened InterleavedEncoder

  // ----- what the decoder reads, whether or not it is in step with the encoder

  /** Every visit comes from a set bit: the decoder's row counter runs with its bit position. */
  lemma {:induction false} VisitHasBit(g: Geometry, words: seq<Word>, meta: nat, bit: nat, vals: nat, next: nat,
                                       row: nat, col: nat, v: Visit)
    requires bit <= 32
    requires var r := DecodeBlock(g, words, meta, bit, vals, next, row, col); r.Some? && v in r.value.0
    ensures v.col == col && v.row >= row
    ensures var q := bit + (v.row - row); meta + q / 32 < |words| && Bit(words[meta + q / 32], q % 32)
    decreases 32 * |words| + 32 - (32 * meta + bit)
  {
    hide Bit, TileSize;
    var m, b := if bit == 32 then meta + 1 else meta, if bit == 32 then 0 else bit;
    if Bit(words[m], b) && v == Visit(row, col, words[vals..vals + TileSize(g)]) {
    } else if Bit(words[m], b) {
      VisitHasBit(g, words, m, b + 1, vals + TileSize(g), next, row + 1, col, v);
    } else {
      VisitHasBit(g, words, m, b + 1, vals, next, row + 1, col, v);
    }
  }

  /** A block is left exactly at its end if whole tiles are between here and there. */
  lemma {:induction false} LandsOnNext(g: Geometry, words: seq<Word>, meta: nat, bit: nat, vals: nat, next: nat,
                                       row: nat, col: nat, n: nat)
    requires TileSize(g) >= 1 && bit <= 32 && next == vals + Mul(n, TileSize(g))
    requires DecodeBlock(g, words, meta, bit, vals, next, row, col).Some?
    ensures DecodeBlock(g, words, meta, bit, vals, next, row, col).value.1 == next
    decreases 32 * |words| + 32 - (32 * meta + bit)
  {
    hide Bit, TileSize;
    if n > 0 {
      MulFits(n, TileSize(g), n - 1);
      var m, b := if bit == 32 then meta + 1 else meta, if bit == 32 then 0 else bit;
      if Bit(words[m], b) {
        LandsOnNext(g, words, m, b + 1, vals + TileSize(g), next, row + 1, col, n - 1);
      } else {
        LandsOnNext(g, words, m, b + 1, vals, next, row + 1, col, n);
      }
    }
  }

  /** The decoder finds the start of every block, whatever bits it looks at. */
  lemma BlockLands(g: Geometry, tileRows: nat, vs: seq<Visit>, words: seq<Word>, j: nat)
    requires TileSize(g) >= 1 && BlockRight(g, vs, tileRows, j, words)
    ensures Mul(j + 1, tileRows) <= |vs| && Start(g, vs, tileRows, j) < |words|
    ensures var at := Start(g, vs, tileRows, j);
            var r := DecodeBlock(g, words, at + 1, FirstBit(tileRows), at + 1 + MetaWords(tileRows), at + words[at], 0, j);
            r.Some? ==> r.value.1 == Start(g, vs, tileRows, j + 1)
  {
    hide Start, TilePos, BlockRight, Mul, Count, DecodeBlock, MetaWords;
    BlockFits(g, vs, tileRows, j, words);
    BlockEnds(g, vs, tileRows, j);
    var c, d := Count(vs, Mul(j, tileRows)), Count(vs, Mul(j, tileRows) + tileRows);
    CountMono(vs, Mul(j, tileRows), Mul(j, tileRows) + tileRows);
    TilesBetween(g, tileRows, j, c, d);
    var at := Start(g, vs, tileRows, j);
    var r := DecodeBlock(g, words, at + 1, FirstBit(tileRows), at + 1 + MetaWords(tileRows), at + words[at], 0, j);
    if r.Some? {
      LandsOnNext(g, words, at + 1, FirstBit(tileRows), at + 1 + MetaWords(tileRows), at + words[at], 0, j, d - c);
    }
  }

  lemma TilesBetween(g: Geometry, tileRows: nat, j: nat, c: nat, d: nat)
    requires c <= d
    ensures TilePos(g, tileRows, j, d) == TilePos(g, tileRows, j, c) + Mul(d - c, TileSize(g))
  {
    hide MetaWords;
    MulAdd(c, d - c, TileSize(g));
  }

  /** Every visit of the whole decoding comes from a set bit of the block of its column. */
  lemma {:induction false} DecodedHasBit(g: Geometry, tileRows: nat, tileCols: nat, kernel: seq<Word>, words: seq<Word>,
                                         j: nat, v: Visit)
    requires TileSize(g) >= 1 && IsTileGrid(g, tileRows, tileCols, kernel) && j <= tileCols
    requires IsInterleaved(g, tileRows, tileCols, kernel, words)
    requires var vs := TileVisits(g, tileRows, tileCols, kernel);
             && Mul(j, tileRows) <= |vs|
             && var r := Decode(g, tileRows, tileCols, words, j, Start(g, vs, tileRows, j)); r.Some? && v in r.value
    ensures var vs := TileVisits(g, tileRows, tileCols, kernel);
            && v.col < tileCols && Mul(v.col, tileRows) <= |vs|
            && MetaBit(words, Start(g, vs, tileRows, v.col), FirstBit(tileRows) + v.row)
    decreases tileCols - j
  {
    hide Start, BlockRight, Mul, DecodeBlock, MetaWords, Bit, FirstBit, TileVisit;
    var vs := TileVisits(g, tileRows, tileCols, kernel);
    var at := Start(g, vs, tileRows, j);
    assert BlockRight(g, vs, tileRows, j, words);
    BlockLands(g, tileRows, vs, words, j);
    FirstBitRange(tileRows);
    var block := DecodeBlock(g, words, at + 1, FirstBit(tileRows), at + 1 + MetaWords(tileRows), at + words[at], 0, j);
    if v in block.value.0 {
      VisitHasBit(g, words, at + 1, FirstBit(tileRows), at + 1 + MetaWords(tileRows), at + words[at], 0, j, v);
    } else {
      DecodedHasBit(g, tileRows, tileCols, kernel, words, j + 1, v);
    }
  }

  lemma FirstBitRange(tileRows: nat)
    ensures FirstBit(tileRows) <= 32
  {
  }

  // ----- below 32 rows of tiles

  lemma {:induction false} NonZeroHas(vs: seq<Visit>, n: nat)
    requires n < |vs| && !ZeroTile(vs[n].tile)
    ensures vs[n] in NonZero(vs)
  {
    hide ZeroTile;
    if n < |vs| - 1 {
      NonZeroHas(vs[..|vs| - 1], n);
    }
  }

  /** A right decoding of tile `i` needs a tile further down, which needs another one further down, and so on. */
  lemma {:induction false} NoTileDecodes(g: Geometry, tileRows: nat, tileCols: nat, kernel: seq<Word>, words: seq<Word>,
                                         i: nat, j: nat)
    requires TileSize(g) >= 1 && IsTileGrid(g, tileRows, tileCols, kernel) && i < tileRows && j < tileCols
    requires 1 <= tileRows < 32 && IsInterleaved(g, tileRows, tileCols, kernel, words)
    requires Decode(g, tileRows, tileCols, words, 0, 0) == Some(NonZero(TileVisits(g, tileRows, tileCols, kernel)))
    ensures !Present(TileVisits(g, tileRows, tileCols, kernel), tileRows, j, i)
    decreases tileRows - i
  {
    hide Start, Mul, Decode, ZeroTile, NonZero, TileVisit, Bit;
    var vs := TileVisits(g, tileRows, tileCols, kernel);
    if Present(vs, tileRows, j, i) {
      StartFirst(g, vs, tileRows);
      TileVisitAt(g, tileRows, tileCols, kernel, j, i);
      NonZeroHas(vs, Mul(j, tileRows) + i);
      DecodedHasBit(g, tileRows, tileCols, kernel, words, 0, vs[Mul(j, tileRows) + i]);
      var i' := 32 - tileRows + i;
      BlockBits(g, vs, tileRows, j, words, i');
      NoTileDecodes(g, tileRows, tileCols, kernel, words, i', j);
    }
  }

  lemma BlockBits(g: Geometry, vs: seq<Visit>, tileRows: nat, j: nat, words: seq<Word>, b: nat)
    requires BlockRight(g, vs, tileRows, j, words) && b < 32 * MetaWords(tileRows)
    ensures Mul(j, tileRows) <= |vs|
    ensures MetaBit(words, Start(g, vs, tileRows, j), b) <==> Present(vs, tileRows, j, b)
  {
    hide Start, TilePos, TilesRight, Mul, Count, MetaBit, MetaWords;
  }

  /** An empty kernel decodes to nothing, whatever the bitmap position. */
  lemma {:induction false} DecodeNothing(g: Geometry, tileRows: nat, tileCols: nat, kernel: seq<Word>, words: seq<Word>, j: nat)
    requires IsTileGrid(g, tileRows, tileCols, kernel) && j <= tileCols
    requires IsInterleaved(g, tileRows, tileCols, kernel, words)
    requires NonZero(TileVisits(g, tileRows, tileCols, kernel)) == []
    ensures var vs := TileVisits(g, tileRows, tileCols, kernel);
            Mul(j, tileRows) <= |vs| && Decode(g, tileRows, tileCols, words, j, Start(g, vs, tileRows, j)) == Some([])
    decreases tileCols - j
  {
    hide Start, TilePos, BlockRight, Mul, TileVisit, MetaWords, Picked;
    var vs := TileVisits(g, tileRows, tileCols, kernel);
    PickedAll(vs);
    if j < tileCols {
      assert BlockRight(g, vs, tileRows, j, words);
      BlockFits(g, vs, tileRows, j, words);
      BlockEnds(g, vs, tileRows, j);
      CountMono(vs, Mul(j, tileRows), |vs|);
      CountMono(vs, Mul(j, tileRows) + tileRows, |vs|);
      DecodeNothing(g, tileRows, tileCols, kernel, words, j + 1);
      var at := Start(g, vs, tileRows, j);
      assert at + words[at] == at + 1 + MetaWords(tileRows) == Start(g, vs, tileRows, j + 1);
      var block := DecodeBlock(g, words, at + 1, FirstBit(tileRows), at + 1 + MetaWords(tileRows), at + words[at], 0, j);
      assert block.Some? && block.value.0 == [] && block.value.1 == at + words[at];
      assert block.value.0 + Decode(g, tileRows, tileCols, words, j + 1, at + words[at]).value == [];
    }
  }

  /**
   * The decoder starts reading the bitmap 32 - min(32, rows of tiles) bits in, the encoder writes it from bit 0.
   * So decoding gives back the tiles of the kernel if there are at least 32 rows of tiles, or nothing to give
   * back; in every other case it does not.
   */
  lemma InterleavedExact(g: Geometry, tileRows: nat, tileCols: nat, kernel: seq<Word>, words: seq<Word>)
    requires TileSize(g) >= 1 && IsTileGrid(g, tileRows, tileCols, kernel)
    requires IsInterleaved(g, tileRows, tileCols, kernel, words)
    ensures Decode(g, tileRows, tileCols, words, 0, 0) == Some(NonZero(TileVisits(g, tileRows, tileCols, kernel)))
       <==> BitmapAligned(tileRows) || ZeroTile(kernel)
  {
    hide Start, Mul, Decode, IsInterleaved, ZeroTile, NonZero, TileVisit, Present, Picked;
    var vs := TileVisits(g, tileRows, tileCols, kernel);
    if BitmapAligned(tileRows) {
      DecodeEncoded(g, tileRows, tileCols, kernel, words);
    } else if ZeroTile(kernel) {
      ZeroKernel(g, tileRows, tileCols, kernel);
      StartFirst(g, vs, tileRows);
      DecodeNothing(g, tileRows, tileCols, kernel, words, 0);
    } else if Decode(g, tileRows, tileCols, words, 0, 0) == Some(NonZero(vs)) {
      var i, j := NonZeroTile(g, tileRows, tileCols, kernel);
      NoTileDecodes(g, tileRows, tileCols, kernel, words, i, j);
    }
  }

  lemma ZeroKernel(g: Geometry, tileRows: nat, tileCols: nat, kernel: seq<Word>)
    requires IsTileGrid(g, tileRows, tileCols, kernel) && ZeroTile(kernel)
    ensures NonZero(TileVisits(g, tileRows, tileCols, kernel)) == []
  {
    hide Mul, TileVisit, Picked;
    var vs := TileVisits(g, tileRows, tileCols, kernel);
    PickedAll(vs);
    if NonZero(vs) != [] {
      var n := PickedFrom(vs, 0, |vs|, 0);
      VisitTileIs(g, tileRows, tileCols, kernel, n);
    }
  }

  lemma NonZeroTile(g: Geometry, tileRows: nat, tileCols: nat, kernel: seq<Word>) returns (i: nat, j: nat)
    requires IsTileGrid(g, tileRows, tileCols, kernel) && !ZeroTile(kernel)
    ensures i < tileRows && j < tileCols && Present(TileVisits(g, tileRows, tileCols, kernel), tileRows, j, i)
  {
    hide Mul, TileVisit;
    var p :| 0 <= p < |kernel| && kernel[p] != 0;
    var n, q := MulSplit(Mul(tileCols, tileRows), TileSize(g), p);
    j, i := MulSplit(tileCols, tileRows, n);
    VisitTileIs(g, tileRows, tileCols, kernel, n);
    assert TileVisit(g, tileRows, tileCols, kernel, n).tile[q] == kernel[p];
  }

  // ----- room in the buffer

  /** Words the encoder allocates beyond those of the kernel. */
  function Slack(g: Geometry, tileRows: nat, tileCols: nat): nat {
    var rows, cols := Mul(tileRows, g.k), Mul(tileCols, g.wgtCols);
    100 + Quotient(Mul(Mul(rows, cols), g.wgtCols), Mul(32, Mul(g.k, g.k))) + Quotient(Mul(cols, g.wgtCols), g.k)
  }

  lemma SizeIsKernelAndSlack(g: Geometry, tileRows: nat, tileCols: nat)
    ensures NewKernelSize(g, tileRows, tileCols) == Mul(Mul(tileCols, tileRows), TileSize(g)) + Slack(g, tileRows, tileCols)
  {
    hide Quotient;
    var r, c, k, w := tileRows, tileCols, g.k, g.wgtCols;
    MulMul(r, k, Mul(c, w));
    MulSwap(k, Mul(c, w));
    MulMul(c, w, k);
    MulSwap(w, k);
    MulSwap(r, Mul(c, Mul(k, w)));
    MulMul(c, Mul(k, w), r);
    MulSwap(Mul(k, w), r);
    MulMul(c, r, Mul(k, w));
  }

  ghost predicate RoomFor(g: Geometry, tileRows: nat, tileCols: nat, kernel: seq<Word>) {
    IsTileGrid(g, tileRows, tileCols, kernel) ==>
      Start(g, TileVisits(g, tileRows, tileCols, kernel), tileRows, tileCols) <= NewKernelSize(g, tileRows, tileCols)
  }

  lemma {:induction false} AllPicked(vs: seq<Visit>, n: nat)
    requires n <= |vs| && forall i :: 0 <= i < |vs| ==> !ZeroTile(vs[i].tile)
    ensures Count(vs, n) == n
  {
    hide Picked, ZeroTile;
    if n == 0 {
      PickedAll(vs);
    } else {
      AllPicked(vs, n - 1);
      PickedNext(vs, n - 1);
    }
  }

  lemma FullKernel(g: Geometry, tileRows: nat, tileCols: nat, kernel: seq<Word>)
    requires TileSize(g) >= 1 && IsTileGrid(g, tileRows, tileCols, kernel) && forall p :: 0 <= p < |kernel| ==> kernel[p] == 1
    ensures Count(TileVisits(g, tileRows, tileCols, kernel), Mul(tileCols, tileRows)) == Mul(tileCols, tileRows)
  {
    hide Mul, Count, TileVisit;
    var vs := TileVisits(g, tileRows, tileCols, kernel);
    forall n | 0 <= n < |vs|
      ensures !ZeroTile(vs[n].tile)
    {
      VisitTileIs(g, tileRows, tileCols, kernel, n);
      assert vs[n].tile[0] == 1;
    }
    AllPicked(vs, |vs|);
  }

  /** The buffer holds the encoding of every kernel of this shape exactly if it has room for the block headers. */
  lemma CapacityExact(g: Geometry, tileRows: nat, tileCols: nat)
    requires TileSize(g) >= 1
    ensures (forall kernel :: RoomFor(g, tileRows, tileCols, kernel))
       <==> Mul(tileCols, 1 + MetaWords(tileRows)) <= Slack(g, tileRows, tileCols)
  {
    hide Mul, Slack, NewKernelSize, TileVisits, Picked, MetaWords;
    SizeIsKernelAndSlack(g, tileRows, tileCols);
    var n := Mul(tileCols, tileRows);
    forall kernel | IsTileGrid(g, tileRows, tileCols, kernel)
      ensures Mul(Count(TileVisits(g, tileRows, tileCols, kernel), n), TileSize(g)) <= Mul(n, TileSize(g))
    {
      PickedRoom(TileVisits(g, tileRows, tileCols, kernel), n);
      MulLe(Count(TileVisits(g, tileRows, tileCols, kernel), n), n, TileSize(g));
    }
    var ones := seq<Word>(Mul(n, TileSize(g)), _ => 1);
    FullKernel(g, tileRows, tileCols, ones);
    assert RoomFor(g, tileRows, tileCols, ones) ==> Mul(tileCols, 1 + MetaWords(tileRows)) <= Slack(g, tileRows, tileCols);
  }

  /** With one weight per word the buffer always suffices. */
  lemma WideWeightsFit(g: Geometry, tileRows: nat, tileCols: nat)
    requires g.k == g.wgtCols >= 2
    ensures Mul(tileCols, 1 + MetaWords(tileRows)) <= Slack(g, tileRows, tileCols)
  {
    var r, c, k := tileRows, tileCols, g.k;
    MulIs(c, 1 + MetaWords(r));
    MulIs(c, k);
    WideSlack(r, c, k);
    WideHeaders(r, c, k);
  }

  lemma WideSlack(r: nat, c: nat, k: nat)
    requires k >= 1
    ensures Mul(k, k) >= 1
    ensures Quotient(Mul(Mul(Mul(r, k), Mul(c, k)), k), Mul(32, Mul(k, k))) == Mul(Mul(r, c), k) / 32
    ensures Quotient(Mul(Mul(c, k), k), k) == Mul(c, k)
  {
    hide Mul;
    var t := Mul(k, k);
    MulIs(k, k);
    MulAtLeast(k, k);
    MulMul(r, k, Mul(c, k));
    MulSwap(k, Mul(c, k));
    MulMul(c, k, k);
    MulMul(r, c, t);
    MulMul(Mul(r, c), t, k);
    MulSwap(t, k);
    MulMul(Mul(r, c), k, t);
    CancelFactor(Mul(Mul(r, c), k), t);
    MulDiv(k, Mul(c, k), 0);
  }

  lemma CancelFactor(x: nat, t: nat)
    requires t >= 1
    ensures Quotient(Mul(x, t), Mul(32, t)) == x / 32
  {
    hide Mul;
    MulIs(x, t);
    MulIs(32, t);
    MulDiv(t, x, 0);
    DivDiv(x * t, t, 32);
  }

  lemma WideHeaders(r: nat, c: nat, k: nat)
    requires k >= 2
    ensures c * (1 + MetaWords(r)) <= 100 + Mul(Mul(r, c), k) / 32 + c * k
  {
    hide MetaWords, Mul;
    var m := MetaWords(r);
    MulIs(r, c);
    MulIs(r * c, k);
    MulMono(2, k, r * c);
    MulMono(2, k, c);
    MulMono(32 * m, r + 31, c);
    HeadersFit(c, m * c, r * c, r * c * k, c * k);
  }

  lemma HeadersFit(c: nat, mc: nat, rc: nat, rck: nat, ck: nat)
    requires 32 * mc <= rc + 31 * c && 2 * rc <= rck && 2 * c <= ck
    ensures c + mc <= 100 + rck / 32 + ck
  {
  }

  /** With four weights per word it does not: 100 columns of one tile each. */
  lemma NarrowWeightsOverflow()
    ensures var g := Geometry(4, Lanes(8, 4), Lanes(8, 4), 1, 1);
            g.Valid() && !(Mul(100, 1 + MetaWords(1)) <= Slack(g, 1, 100))
  {
    BuildWidths();
    MulIs(100, 2);
    MulIs(1, 4);
    MulIs(100, 1);
    MulIs(4, 100);
    MulIs(400, 1);
    MulIs(4, 4);
    MulIs(32, 16);
    MulIs(4, 1);
  }
}
