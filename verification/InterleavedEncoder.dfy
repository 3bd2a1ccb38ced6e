/** The encoder of the interleaved format, which sets bits and copies tiles while it walks the dense kernel. */
module InterleavedEncoder {
  import opened Arith
  import opened Words
  import opened Bits
  import opened Machine
  import opened TileProduct
  import opened Walks
  import opened Tiles
  import opened Compaction
  import opened Interleaved

  /** The two buffers agree before position `n`. */
  ghost predicate Agree(s: seq<Word>, t: seq<Word>, n: nat) {
    |s| == |t| && forall p :: 0 <= p < n && p < |s| ==> s[p] == t[p]
  }

  /** Nothing has been written from `n` on. */
  ghost predicate ClearFrom(s: seq<Word>, n: nat) {
    forall p :: n <= p < |s| ==> s[p] == 0
  }

  ghost predicate BlocksRight(g: Geometry, vs: seq<Visit>, tileRows: nat, j: nat, words: seq<Word>) {
    forall d :: 0 <= d < j ==> BlockRight(g, vs, tileRows, d, words)
  }

  /** The first `i` tiles of block `j` are encoded; its length is not written yet. */
  ghost predicate Building(g: Geometry, vs: seq<Visit>, tileRows: nat, j: nat, i: nat, words: seq<Word>) {
    && i <= tileRows && Mul(j, tileRows) + tileRows <= |vs|
    && BlocksRight(g, vs, tileRows, j, words)
    && Start(g, vs, tileRows, j) + 1 + MetaWords(tileRows) <= |words|
    && BitsRight(vs, tileRows, j, i, words, Start(g, vs, tileRows, j))
    && TilesRight(g, vs, tileRows, j, Mul(j, tileRows) + i, words)
    && ClearFrom(words, TilePos(g, tileRows, j, Count(vs, Mul(j, tileRows) + i)))
  }

  /** A finished block only depends on the words up to its end. */
  lemma BlockKeep(g: Geometry, vs: seq<Visit>, tileRows: nat, j: nat, s: seq<Word>, t: seq<Word>, n: nat)
    requires TileSize(g) >= 1 && BlockRight(g, vs, tileRows, j, s) && Agree(s, t, n)
    requires TilePos(g, tileRows, j, Count(vs, Mul(j, tileRows) + tileRows)) <= n
    ensures BlockRight(g, vs, tileRows, j, t)
  {
    hide Mul, Count, Bit, TilePos, Start, MetaWords, BitsRight, TilesRight;
    BlockEnds(g, vs, tileRows, j);
    CountMono(vs, Mul(j, tileRows), Mul(j, tileRows) + tileRows);
    TilePosMono(g, tileRows, j, Count(vs, Mul(j, tileRows)), Count(vs, Mul(j, tileRows) + tileRows));
    BitsKeep(vs, tileRows, j, tileRows, s, t, Start(g, vs, tileRows, j), n);
    TilesKeep(g, vs, tileRows, j, Mul(j, tileRows) + tileRows, s, t, n);
  }

  lemma BitsKeep(vs: seq<Visit>, tileRows: nat, j: nat, i: nat, s: seq<Word>, t: seq<Word>, at: nat, n: nat)
    requires BitsRight(vs, tileRows, j, i, s, at) && Agree(s, t, n) && at + 1 + MetaWords(tileRows) <= n
    ensures BitsRight(vs, tileRows, j, i, t, at)
  {
    hide Mul, Bit, MetaWords, Present;
    forall b | 0 <= b < 32 * MetaWords(tileRows)
      ensures MetaBit(t, at, b) <==> MetaBit(s, at, b)
    {
      assert b / 32 < MetaWords(tileRows);
    }
  }

  lemma TilesKeep(g: Geometry, vs: seq<Visit>, tileRows: nat, j: nat, e: nat, s: seq<Word>, t: seq<Word>, n: nat)
    requires TileSize(g) >= 1 && Mul(j, tileRows) <= e <= |vs| && TilesRight(g, vs, tileRows, j, e, s) && Agree(s, t, n)
    requires TilePos(g, tileRows, j, Count(vs, e)) <= n
    ensures TilesRight(g, vs, tileRows, j, e, t)
  {
    hide Mul, TilePos, Picked;
    forall c | Count(vs, Mul(j, tileRows)) <= c < Count(vs, e)
      ensures HoldsTile(g, t, TilePos(g, tileRows, j, c), Picked(vs, e)[c])
    {
      assert HoldsTile(g, s, TilePos(g, tileRows, j, c), Picked(vs, e)[c]);
      TilePosMono(g, tileRows, j, c, Count(vs, e));
      var at := TilePos(g, tileRows, j, c);
      assert t[at..at + TileSize(g)] == s[at..at + TileSize(g)];
    }
  }

  lemma BlocksKeep(g: Geometry, vs: seq<Visit>, tileRows: nat, j: nat, s: seq<Word>, t: seq<Word>)
    requires TileSize(g) >= 1 && Mul(j, tileRows) <= |vs| && BlocksRight(g, vs, tileRows, j, s)
    requires Agree(s, t, Start(g, vs, tileRows, j))
    ensures BlocksRight(g, vs, tileRows, j, t)
  {
    hide Mul, Count, TilePos, Start, MetaWords, BlockRight;
    forall d | 0 <= d < j
      ensures BlockRight(g, vs, tileRows, d, t)
    {
      assert BlockRight(g, vs, tileRows, d, s);
      BlockBefore(g, vs, tileRows, d, j);
      BlockKeep(g, vs, tileRows, d, s, t, Start(g, vs, tileRows, j));
    }
  }

  lemma BlockBefore(g: Geometry, vs: seq<Visit>, tileRows: nat, d: nat, j: nat)
    requires d < j && Mul(j, tileRows) <= |vs|
    ensures Mul(d, tileRows) + tileRows <= |vs|
    ensures TilePos(g, tileRows, d, Count(vs, Mul(d, tileRows) + tileRows)) <= Start(g, vs, tileRows, j)
  {
    hide Mul, Count, MetaWords;
    MulFits(j, tileRows, d);
    CountMono(vs, Mul(d, tileRows) + tileRows, Mul(j, tileRows));
    MulLe(d + 1, j, 1 + MetaWords(tileRows));
    MulLe(Count(vs, Mul(d, tileRows) + tileRows), Count(vs, Mul(j, tileRows)), TileSize(g));
  }

  /** A block starts with a clear bitmap. */
  lemma BuildStart(g: Geometry, vs: seq<Visit>, tileRows: nat, j: nat, words: seq<Word>)
    requires TileSize(g) >= 1 && Mul(j, tileRows) + tileRows <= |vs| && BlocksRight(g, vs, tileRows, j, words)
    requires ClearFrom(words, Start(g, vs, tileRows, j))
    requires TilePos(g, tileRows, j, Count(vs, Mul(j, tileRows) + tileRows)) <= |words|
    ensures Building(g, vs, tileRows, j, 0, words)
  {
    hide Mul, Count, TilePos, Start, MetaWords, BlocksRight, Bit, Present;
    BlockEnds(g, vs, tileRows, j);
    CountMono(vs, Mul(j, tileRows), Mul(j, tileRows) + tileRows);
    TilePosMono(g, tileRows, j, Count(vs, Mul(j, tileRows)), Count(vs, Mul(j, tileRows) + tileRows));
    var at := Start(g, vs, tileRows, j);
    forall b | 0 <= b < 32 * MetaWords(tileRows)
      ensures !MetaBit(words, at, b)
    {
      NoBit(b % 32);
    }
  }

  /** A zero tile leaves the buffer as it is. */
  lemma BuildSkip(g: Geometry, vs: seq<Visit>, tileRows: nat, j: nat, i: nat, words: seq<Word>)
    requires Building(g, vs, tileRows, j, i, words) && i < tileRows && ZeroTile(vs[Mul(j, tileRows) + i].tile)
    ensures Building(g, vs, tileRows, j, i + 1, words)
  {
    hide Mul, Picked, TilePos, Start, MetaWords, BlocksRight, MetaBit, ZeroTile, ClearFrom;
    var n := Mul(j, tileRows) + i;
    PickedNext(vs, n);
    assert Picked(vs, n + 1) == Picked(vs, n);
  }

  /** A tile that is not all zero is copied to the read position and its bit is set. */
  lemma BuildTile(g: Geometry, vs: seq<Visit>, tileRows: nat, j: nat, i: nat, s: seq<Word>)
    requires TileSize(g) >= 1 && Building(g, vs, tileRows, j, i, s) && i < tileRows
    requires var v := vs[Mul(j, tileRows) + i]; !ZeroTile(v.tile) && |v.tile| == TileSize(g)
    requires TilePos(g, tileRows, j, Count(vs, Mul(j, tileRows) + tileRows)) <= |s|
    ensures var n := Mul(j, tileRows) + i;
            var pos, meta := TilePos(g, tileRows, j, Count(vs, n)), Start(g, vs, tileRows, j) + 1 + i / 32;
            && pos + TileSize(g) == TilePos(g, tileRows, j, Count(vs, n + 1)) <= |s| && meta < pos
            && var t := Splice(s, pos, vs[n].tile);
               Building(g, vs, tileRows, j, i + 1, t[meta := SetBit(t[meta], i % 32)])
  {
    hide Mul, Count, TilePos, Start, MetaWords, BlocksRight, BitsRight, TilesRight, ZeroTile, ClearFrom, Splice, SetBit;
    var n := Mul(j, tileRows) + i;
    var at, pos := Start(g, vs, tileRows, j), TilePos(g, tileRows, j, Count(vs, n));
    BetweenNext(vs, n, Mul(j, tileRows) + tileRows);
    TilePosMono(g, tileRows, j, Count(vs, n), Count(vs, n + 1));
    TilePosMono(g, tileRows, j, Count(vs, n + 1), Count(vs, Mul(j, tileRows) + tileRows));
    BlockEnds(g, vs, tileRows, j);
    CountMono(vs, Mul(j, tileRows), n);
    TilePosMono(g, tileRows, j, Count(vs, Mul(j, tileRows)), Count(vs, n));
    assert i / 32 < MetaWords(tileRows);
    var t := Splice(s, pos, vs[n].tile);
    var u := t[at + 1 + i / 32 := SetBit(t[at + 1 + i / 32], i % 32)];
    SpliceAgrees(s, pos, vs[n].tile);
    assert Agree(s, u, at + 1);
    BlocksKeep(g, vs, tileRows, j, s, u);
    BitsNext(vs, tileRows, j, i, s, t, at);
    TilesNext(g, vs, tileRows, j, n, s, u);
    ClearAfter(s, pos, vs[n].tile, at + 1 + i / 32, SetBit(t[at + 1 + i / 32], i % 32));
  }

  lemma SpliceAgrees(s: seq<Word>, at: nat, t: seq<Word>)
    requires at + |t| <= |s|
    ensures Agree(s, Splice(s, at, t), at)
    ensures Splice(s, at, t)[at..at + |t|] == t
  {
  }

  lemma ClearAfter(s: seq<Word>, at: nat, t: seq<Word>, m: nat, w: Word)
    requires at + |t| <= |s| && m < at && ClearFrom(s, at)
    ensures ClearFrom(Splice(s, at, t)[m := w], at + |t|)
  {
  }

  lemma BitsNext(vs: seq<Visit>, tileRows: nat, j: nat, i: nat, s: seq<Word>, t: seq<Word>, at: nat)
    requires BitsRight(vs, tileRows, j, i, s, at) && i < tileRows && Present(vs, tileRows, j, i)
    requires Agree(s, t, at + 1 + MetaWords(tileRows)) && at + 1 + MetaWords(tileRows) <= |s|
    ensures at + 1 + i / 32 < |t|
    ensures BitsRight(vs, tileRows, j, i + 1, t[at + 1 + i / 32 := SetBit(t[at + 1 + i / 32], i % 32)], at)
  {
    hide Mul, Bit, Present, SetBit, MetaWords;
    var m := at + 1 + i / 32;
    assert i / 32 < MetaWords(tileRows);
    var u := t[m := SetBit(t[m], i % 32)];
    forall b | 0 <= b < 32 * MetaWords(tileRows)
      ensures MetaBit(u, at, b) <==> b < i + 1 && Present(vs, tileRows, j, b)
    {
      assert b / 32 < MetaWords(tileRows);
      assert MetaBit(s, at, b) <==> b < i && Present(vs, tileRows, j, b);
      BitOfSet(t[m], i % 32, b % 32);
      assert b / 32 == i / 32 && b % 32 == i % 32 <==> b == i;
    }
  }

  lemma TilesNext(g: Geometry, vs: seq<Visit>, tileRows: nat, j: nat, n: nat, s: seq<Word>, u: seq<Word>)
    requires TileSize(g) >= 1 && Mul(j, tileRows) <= n < |vs| && TilesRight(g, vs, tileRows, j, n, s)
    requires !ZeroTile(vs[n].tile) && |u| == |s|
    requires var first, pos := TilePos(g, tileRows, j, Count(vs, Mul(j, tileRows))), TilePos(g, tileRows, j, Count(vs, n));
             && (forall p :: first <= p < pos && p < |s| ==> u[p] == s[p])
             && pos + TileSize(g) <= |u| && u[pos..pos + TileSize(g)] == vs[n].tile
    ensures TilesRight(g, vs, tileRows, j, n + 1, u)
  {
    hide Mul, TilePos, Picked, ZeroTile;
    PickedNext(vs, n);
    var c0, c1 := Count(vs, Mul(j, tileRows)), Count(vs, n);
    forall c | c0 <= c < c1 + 1
      ensures HoldsTile(g, u, TilePos(g, tileRows, j, c), Picked(vs, n + 1)[c])
    {
      if c < c1 {
        assert HoldsTile(g, s, TilePos(g, tileRows, j, c), Picked(vs, n)[c]);
        TilePosMono(g, tileRows, j, c0, c);
        TilePosMono(g, tileRows, j, c, c1);
        var at := TilePos(g, tileRows, j, c);
        assert u[at..at + TileSize(g)] == s[at..at + TileSize(g)];
      }
    }
  }

  /** Writing the length finishes the block. */
  lemma BuildEnd(g: Geometry, vs: seq<Visit>, tileRows: nat, j: nat, s: seq<Word>)
    requires TileSize(g) >= 1 && Building(g, vs, tileRows, j, tileRows, s) && |s| < 0x1_0000_0000
    requires TilePos(g, tileRows, j, Count(vs, Mul(j, tileRows) + tileRows)) <= |s|
    ensures var at, e := Start(g, vs, tileRows, j), TilePos(g, tileRows, j, Count(vs, Mul(j, tileRows) + tileRows));
            && at < e
            && BlocksRight(g, vs, tileRows, j + 1, s[at := e - at])
            && ClearFrom(s[at := e - at], Start(g, vs, tileRows, j + 1))
            && Mul(j + 1, tileRows) <= |vs|
  {
    hide Mul, Count, TilePos, Start, MetaWords, BlockRight, BitsRight, TilesRight;
    var at, e := Start(g, vs, tileRows, j), TilePos(g, tileRows, j, Count(vs, Mul(j, tileRows) + tileRows));
    BlockEnds(g, vs, tileRows, j);
    CountMono(vs, Mul(j, tileRows), Mul(j, tileRows) + tileRows);
    TilePosMono(g, tileRows, j, Count(vs, Mul(j, tileRows)), Count(vs, Mul(j, tileRows) + tileRows));
    var t := s[at := e - at];
    BlocksKeep(g, vs, tileRows, j, s, t);
    BlockDone(g, vs, tileRows, j, s);
  }

  lemma BlockDone(g: Geometry, vs: seq<Visit>, tileRows: nat, j: nat, s: seq<Word>)
    requires TileSize(g) >= 1 && Building(g, vs, tileRows, j, tileRows, s) && |s| < 0x1_0000_0000
    requires var at, e := Start(g, vs, tileRows, j), TilePos(g, tileRows, j, Count(vs, Mul(j, tileRows) + tileRows));
             at + 1 + MetaWords(tileRows) <= e <= |s| && at + 1 + MetaWords(tileRows) == TilePos(g, tileRows, j, Count(vs, Mul(j, tileRows)))
    ensures var at, e := Start(g, vs, tileRows, j), TilePos(g, tileRows, j, Count(vs, Mul(j, tileRows) + tileRows));
            BlockRight(g, vs, tileRows, j, s[at := e - at])
  {
    hide Mul, TilePos, Start, MetaWords, BlocksRight, ClearFrom, Picked, Present, Bit;
    var at, e := Start(g, vs, tileRows, j), TilePos(g, tileRows, j, Count(vs, Mul(j, tileRows) + tileRows));
    var t := s[at := e - at];
    forall b | 0 <= b < 32 * MetaWords(tileRows)
      ensures MetaBit(t, at, b) <==> MetaBit(s, at, b)
    {
    }
    var n := Mul(j, tileRows) + tileRows;
    forall c | Count(vs, Mul(j, tileRows)) <= c < Count(vs, n)
      ensures HoldsTile(g, t, TilePos(g, tileRows, j, c), Picked(vs, n)[c])
    {
      assert HoldsTile(g, s, TilePos(g, tileRows, j, c), Picked(vs, n)[c]);
      TilePosMono(g, tileRows, j, Count(vs, Mul(j, tileRows)), c);
      var p := TilePos(g, tileRows, j, c);
      assert t[p..p + TileSize(g)] == s[p..p + TileSize(g)];
    }
  }

  // ----- the encoder

  /** Bitmap words that no tile has reached yet are zero. */
  ghost predicate MetaClear(s: seq<Word>, at: nat, i: nat, end: nat) {
    forall p :: at + 1 + (i + 31) / 32 <= p < end && p < |s| ==> s[p] == 0
  }

  lemma MetaClearTile(s: seq<Word>, at: nat, i: nat, end: nat, pos: nat, tile: seq<Word>)
    requires MetaClear(s, at, i, end) && end <= pos && pos + |tile| <= |s| && at + 1 + i / 32 < pos
    ensures var t := Splice(s, pos, tile); MetaClear(t[at + 1 + i / 32 := SetBit(t[at + 1 + i / 32], i % 32)], at, i + 1, end)
  {
    hide SetBit;
  }

  /** One tile: copied and marked unless it is all zero. */
  method EncodeTile(g: Geometry, kernel: array<Word>, tileIndex: nat, ghost vs: seq<Visit>, tileRows: nat, ghost j: nat,
                    i: nat, newKernel: array<Word>, metadata: nat, counter32: nat, cursor: nat, ghost at: nat) returns (next: nat)
    requires TileSize(g) >= 1 && i < tileRows && kernel != newKernel
    requires Building(g, vs, tileRows, j, i, newKernel[..]) && at == Start(g, vs, tileRows, j)
    requires MetaClear(newKernel[..], at, i, at + 1 + MetaWords(tileRows))
    requires metadata == at + 1 + i / 32 && counter32 == i % 32
    requires cursor == TilePos(g, tileRows, j, Count(vs, Mul(j, tileRows) + i))
    requires TilePos(g, tileRows, j, Count(vs, Mul(j, tileRows) + tileRows)) <= newKernel.Length
    requires tileIndex + TileSize(g) <= kernel.Length
    requires vs[Mul(j, tileRows) + i].tile == kernel[tileIndex..tileIndex + TileSize(g)]
    modifies newKernel
    ensures Building(g, vs, tileRows, j, i + 1, newKernel[..])
    ensures MetaClear(newKernel[..], at, i + 1, at + 1 + MetaWords(tileRows))
    ensures next == TilePos(g, tileRows, j, Count(vs, Mul(j, tileRows) + (i + 1)))
  {
    hide Mul, Count, TilePos, Start, MetaWords, Building, ZeroTile, Splice, SetBit;
    next := cursor;
    ghost var s, n := newKernel[..], Mul(j, tileRows) + i;
    BuildingRoom(g, vs, tileRows, j, i, s);
    BetweenNext(vs, n, n + 1);
    var tileAllZeros := TileAllZeros(g, kernel, tileIndex);
    if tileAllZeros {
      BuildSkip(g, vs, tileRows, j, i, s);
    } else {
      BuildTile(g, vs, tileRows, j, i, s);
      MetaClearTile(s, at, i, at + 1 + MetaWords(tileRows), cursor, vs[n].tile);
      next := CopyTile(g, kernel, tileIndex, newKernel, cursor);
      newKernel[metadata] := SetBit(newKernel[metadata], counter32);
    }
  }

  lemma BuildingRoom(g: Geometry, vs: seq<Visit>, tileRows: nat, j: nat, i: nat, s: seq<Word>)
    requires TileSize(g) >= 1 && Building(g, vs, tileRows, j, i, s)
    ensures i <= tileRows && Mul(j, tileRows) + tileRows <= |vs|
    ensures Start(g, vs, tileRows, j) + 1 + MetaWords(tileRows) <= TilePos(g, tileRows, j, Count(vs, Mul(j, tileRows) + i))
    ensures Start(g, vs, tileRows, j) + 1 + MetaWords(tileRows) <= |s|
  {
    hide Mul, Count, TilePos, Start, MetaWords, BitsRight, TilesRight;
    BlockEnds(g, vs, tileRows, j);
    CountMono(vs, Mul(j, tileRows), Mul(j, tileRows) + i);
    TilePosMono(g, tileRows, j, Count(vs, Mul(j, tileRows)), Count(vs, Mul(j, tileRows) + i));
  }

  /** One column of tiles: bitmap and tiles, then the length in front of them. */
  method EncodeBlock(g: Geometry, kernel: array<Word>, tileRows: nat, tileCols: nat, j: nat, newKernel: array<Word>,
                     cursor: nat) returns (next: nat)
    requires TileSize(g) >= 1 && kernel != newKernel && IsTileGrid(g, tileRows, tileCols, kernel[..]) && j < tileCols
    requires var vs := TileVisits(g, tileRows, tileCols, kernel[..]);
             && Mul(j, tileRows) + tileRows <= |vs| && cursor == Start(g, vs, tileRows, j)
             && BlocksRight(g, vs, tileRows, j, newKernel[..]) && ClearFrom(newKernel[..], cursor)
             && TilePos(g, tileRows, j, Count(vs, Mul(j, tileRows) + tileRows)) <= newKernel.Length < 0x1_0000_0000
    modifies newKernel
    ensures var vs := TileVisits(g, tileRows, tileCols, kernel[..]);
            && Mul(j + 1, tileRows) <= |vs| && next == Start(g, vs, tileRows, j + 1)
            && BlocksRight(g, vs, tileRows, j + 1, newKernel[..]) && ClearFrom(newKernel[..], next)
  {
    hide Mul, Count, TilePos, Start, MetaWords, Building, BlocksRight, TileVisit, ZeroTile;
    ghost var k0, vs := kernel[..], TileVisits(g, tileRows, tileCols, kernel[..]);
    BuildStart(g, vs, tileRows, j, newKernel[..]);
    BlockEnds(g, vs, tileRows, j);
    var metadata, valuesStart, counter32 := cursor + 1, cursor + 1 + MetaWords(tileRows), 0;
    next := valuesStart;
    var i := 0;
    while i < tileRows
      invariant 0 <= i <= tileRows && kernel[..] == k0
      invariant metadata == cursor + 1 + i / 32 && counter32 == i % 32
      invariant next == TilePos(g, tileRows, j, Count(vs, Mul(j, tileRows) + i))
      invariant Building(g, vs, tileRows, j, i, newKernel[..])
      invariant MetaClear(newKernel[..], cursor, i, valuesStart)
    {
      VisitTileIs(g, tileRows, tileCols, k0, Mul(j, tileRows) + i);
      var tileIndex := Mul(Mul(j, tileRows) + i, TileSize(g));
      next := EncodeTile(g, kernel, tileIndex, vs, tileRows, j, i, newKernel, metadata, counter32, next, cursor);
      counter32 := counter32 + 1;
      if counter32 == 32 {
        metadata := metadata + 1;
        if metadata < valuesStart {
          BuildingRoom(g, vs, tileRows, j, i + 1, newKernel[..]);
          ghost var s := newKernel[..];
          assert s[metadata] == 0;
          newKernel[metadata] := 0;
          assert newKernel[..] == s;
        }
        counter32 := 0;
      }
      i := i + 1;
    }
    BuildEnd(g, vs, tileRows, j, newKernel[..]);
    newKernel[cursor] := next - cursor;
  }

  /** The length of the buffer the encoder allocates. */
  function NewKernelSize(g: Geometry, tileRows: nat, tileCols: nat): nat {
    var rows, cols := Mul(tileRows, g.k), Mul(tileCols, g.wgtCols);
    100 + Mul(rows, cols) + Quotient(Mul(Mul(rows, cols), g.wgtCols), Mul(32, Mul(g.k, g.k)))
    + Quotient(Mul(cols, g.wgtCols), g.k)
  }

  function Quotient(a: nat, b: nat): nat {
    if b == 0 then 0 else a / b
  }

  /**
   * The encoder. The allocated buffer must hold the result, which is not implied for every kernel; see
   * `WideWeightsFit` for a case in which it is.
   */
  method Dense2InterleavedMetaData(g: Geometry, kernel: array<Word>, tileRows: nat, tileCols: nat)
    returns (newKernel: array<Word>)
    requires TileSize(g) >= 1 && IsTileGrid(g, tileRows, tileCols, kernel[..])
    requires Start(g, TileVisits(g, tileRows, tileCols, kernel[..]), tileRows, tileCols)
          <= NewKernelSize(g, tileRows, tileCols) < 0x1_0000_0000
    ensures fresh(newKernel) && newKernel.Length == NewKernelSize(g, tileRows, tileCols)
    ensures IsInterleaved(g, tileRows, tileCols, kernel[..], newKernel[..])
  {
    hide Mul, Count, TilePos, Start, MetaWords, BlockRight, TileVisit, NewKernelSize;
    newKernel := new Word[NewKernelSize(g, tileRows, tileCols)](_ => 0);
    ghost var k0, vs := kernel[..], TileVisits(g, tileRows, tileCols, kernel[..]);
    StartFirst(g, vs, tileRows);
    var cursor, j := 0, 0;
    while j < tileCols
      invariant 0 <= j <= tileCols && kernel[..] == k0
      invariant Mul(j, tileRows) <= |vs| && cursor == Start(g, vs, tileRows, j)
      invariant BlocksRight(g, vs, tileRows, j, newKernel[..]) && ClearFrom(newKernel[..], cursor)
    {
      MulFits(tileCols, tileRows, j);
      BlockBefore(g, vs, tileRows, j, tileCols);
      cursor := EncodeBlock(g, kernel, tileRows, tileCols, j, newKernel, cursor);
      j := j + 1;
    }
  }

  lemma StartFirst(g: Geometry, vs: seq<Visit>, tileRows: nat)
    ensures Mul(0, tileRows) == 0 && Start(g, vs, tileRows, 0) == 0
  {
    hide Picked, MetaWords;
    PickedAll(vs);
  }
}
