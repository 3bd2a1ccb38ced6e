/** Encoders that drop zero tiles: what remains is the picked tiles one after the other. */
module Compaction {
  import opened Arith
  import opened Words
  import opened Machine
  import opened TileProduct
  import opened Walks
  import opened Tiles

  /** The buffer starts with the words of the picked tiles, in order. */
  ghost predicate Compact(g: Geometry, words: seq<Word>, picked: seq<Visit>) {
    && Mul(|picked|, TileSize(g)) <= |words|
    && forall q {:trigger picked[q]} :: 0 <= q < |picked| ==> HoldsTile(g, words, Mul(q, TileSize(g)), picked[q])
  }

  /** The words of a tile are at position `at`. */
  ghost predicate HoldsTile(g: Geometry, words: seq<Word>, at: nat, v: Visit) {
    at + TileSize(g) <= |words| && words[at..at + TileSize(g)] == v.tile
  }

  lemma CompactNone(g: Geometry, words: seq<Word>)
    ensures Mul(0, TileSize(g)) == 0 && Compact(g, words, [])
  {
  }

  /** `s` with `t` written over it from `at` on. */
  ghost function Splice(s: seq<Word>, at: nat, t: seq<Word>): (r: seq<Word>)
    requires at + |t| <= |s|
    ensures |r| == |s|
  {
    s[..at] + t + s[at + |t|..]
  }

  lemma SpliceNext(s: seq<Word>, at: nat, t: seq<Word>, w: Word)
    requires at + |t| < |s|
    ensures Splice(s, at, t)[at + |t| := w] == Splice(s, at, t + [w])
  {
  }

  lemma SpliceCopy(s: seq<Word>, at: nat, k: seq<Word>, from: nat, n: nat)
    requires from + n < |k| && at + n < |s|
    ensures Splice(s, at, k[from..from + n])[at + n := k[from + n]] == Splice(s, at, k[from..from + n + 1])
  {
    hide Splice;
    SpliceNext(s, at, k[from..from + n], k[from + n]);
    assert k[from..from + n + 1] == k[from..from + n] + [k[from + n]];
  }

  lemma SpliceBefore(s: seq<Word>, at: nat, t: seq<Word>, lo: nat, hi: nat)
    requires lo <= hi <= at && at + |t| <= |s|
    ensures Splice(s, at, t)[lo..hi] == s[lo..hi]
  {
  }

  lemma SpliceAt(s: seq<Word>, at: nat, t: seq<Word>)
    requires at + |t| <= |s|
    ensures Splice(s, at, t)[at..at + |t|] == t
  {
  }

  /** Writing one more tile at the end keeps what is there. */
  lemma {:induction false} CompactNext(g: Geometry, words: seq<Word>, picked: seq<Visit>, v: Visit)
    requires Compact(g, words, picked) && |v.tile| == TileSize(g)
    requires Mul(|picked|, TileSize(g)) + TileSize(g) <= |words|
    ensures Compact(g, Splice(words, Mul(|picked|, TileSize(g)), v.tile), picked + [v])
  {
    hide Mul, Splice;
    var at := Mul(|picked|, TileSize(g));
    var words' := Splice(words, at, v.tile);
    MulNext(|picked|, TileSize(g));
    SpliceAt(words, at, v.tile);
    forall q | 0 <= q < |picked|
      ensures HoldsTile(g, words', Mul(q, TileSize(g)), picked[q])
    {
      assert HoldsTile(g, words, Mul(q, TileSize(g)), picked[q]);
      MulFits(|picked|, TileSize(g), q);
      SpliceBefore(words, at, v.tile, Mul(q, TileSize(g)), Mul(q, TileSize(g)) + TileSize(g));
    }
  }

  /** Copy a tile, row by row, to the write cursor. */
  method CopyTile(g: Geometry, kernel: array<Word>, tileIndex: nat, dst: array<Word>, cursor: nat) returns (next: nat)
    requires tileIndex + TileSize(g) <= kernel.Length && cursor + TileSize(g) <= dst.Length && kernel != dst
    modifies dst
    ensures next == cursor + TileSize(g)
    ensures dst[..] == Splice(old(dst[..]), cursor, kernel[tileIndex..tileIndex + TileSize(g)])
  {
    hide Splice, Mul;
    next := cursor;
    ghost var dst0, src := dst[..], kernel[..];
    SpliceNone(dst0, cursor);
    MulNone(g.wgtCols);
    assert src[tileIndex..tileIndex] == [];
    var ii := 0;
    while ii < g.k
      invariant 0 <= ii <= g.k && Mul(ii, g.wgtCols) <= TileSize(g) && next == cursor + Mul(ii, g.wgtCols)
      invariant kernel[..] == src && dst[..] == Splice(dst0, cursor, src[tileIndex..tileIndex + Mul(ii, g.wgtCols)])
    {
      MulFits(g.k, g.wgtCols, ii);
      MulNext(ii, g.wgtCols);
      var jj := 0;
      while jj < g.wgtCols
        invariant 0 <= jj <= g.wgtCols && next == cursor + Mul(ii, g.wgtCols) + jj
        invariant kernel[..] == src && dst[..] == Splice(dst0, cursor, src[tileIndex..tileIndex + (Mul(ii, g.wgtCols) + jj)])
      {
        SpliceCopy(dst0, cursor, src, tileIndex, Mul(ii, g.wgtCols) + jj);
        dst[next] := kernel[tileIndex + Mul(ii, g.wgtCols) + jj];
        next := next + 1;
        jj := jj + 1;
      }
      ii := ii + 1;
    }
    assert src[tileIndex..tileIndex + TileSize(g)] == kernel[tileIndex..tileIndex + TileSize(g)];
  }

  lemma SpliceNone(s: seq<Word>, at: nat)
    requires at <= |s|
    ensures Splice(s, at, []) == s
  {
  }

  /** The common step of the compacting encoders: test a tile, and append it unless it is all zero. */
  method AppendTile(g: Geometry, kernel: array<Word>, tileIndex: nat, dst: array<Word>, cursor: nat,
                    ghost vs: seq<Visit>, ghost n: nat) returns (next: nat, allZeros: bool)
    requires n < |vs| && Mul(|vs|, TileSize(g)) <= dst.Length && kernel != dst
    requires tileIndex + TileSize(g) <= kernel.Length
    requires vs[n].tile == kernel[tileIndex..tileIndex + TileSize(g)]
    requires cursor == Mul(|Picked(vs, n)|, TileSize(g)) && Compact(g, dst[..], Picked(vs, n))
    modifies dst
    ensures allZeros <==> ZeroTile(vs[n].tile)
    ensures next == Mul(|Picked(vs, n + 1)|, TileSize(g)) && Compact(g, dst[..], Picked(vs, n + 1))
  {
    hide Picked, Mul, ZeroTile, Compact, Splice;
    allZeros := TileAllZeros(g, kernel, tileIndex);
    PickedNext(vs, n);
    next := cursor;
    if allZeros {
      assert Picked(vs, n + 1) == Picked(vs, n);
    } else {
      PickedRoom(vs, n);
      MulFits(|vs|, TileSize(g), |Picked(vs, n)|);
      CompactNext(g, dst[..], Picked(vs, n), vs[n]);
      MulNext(|Picked(vs, n)|, TileSize(g));
      next := CopyTile(g, kernel, tileIndex, dst, cursor);
    }
  }

  lemma PickedRoom(vs: seq<Visit>, n: nat)
    requires n <= |vs|
    ensures |Picked(vs, n)| <= n
  {
    hide Picked;
    PickedAll(vs);
    PickedPrefix(vs, 0, n);
  }

  /** All tiles in storage order, without the zero tiles. */
  method RemoveZeroTiles(g: Geometry, kernel: array<Word>, tileRows: nat, tileCols: nat) returns (newKernel: array<Word>)
    requires IsTileGrid(g, tileRows, tileCols, kernel[..])
    ensures fresh(newKernel) && newKernel.Length == kernel.Length
    ensures Compact(g, newKernel[..], NonZero(TileVisits(g, tileRows, tileCols, kernel[..])))
  {
    hide Picked, Mul, ZeroTile, Compact, TileVisit;
    ghost var vs := TileVisits(g, tileRows, tileCols, kernel[..]);
    newKernel := new Word[kernel.Length](_ => 0);
    PickedAll(vs);
    CompactNone(g, newKernel[..]);
    MulSwap(tileRows, tileCols);
    MulNone(tileCols);
    var cursor, i := 0, 0;
    while i < tileRows
      invariant 0 <= i <= tileRows && Mul(i, tileCols) <= |vs|
      invariant cursor == Mul(|Picked(vs, Mul(i, tileCols))|, TileSize(g))
      invariant Compact(g, newKernel[..], Picked(vs, Mul(i, tileCols)))
    {
      MulFits(tileRows, tileCols, i);
      MulNext(i, tileCols);
      var j := 0;
      while j < tileCols
        invariant 0 <= j <= tileCols
        invariant cursor == Mul(|Picked(vs, Mul(i, tileCols) + j)|, TileSize(g))
        invariant Compact(g, newKernel[..], Picked(vs, Mul(i, tileCols) + j))
      {
        VisitTileIs(g, tileRows, tileCols, kernel[..], Mul(i, tileCols) + j);
        var tileIndex := Mul(Mul(i, tileCols) + j, TileSize(g));
        var allZeros;
        cursor, allZeros := AppendTile(g, kernel, tileIndex, newKernel, cursor, vs, Mul(i, tileCols) + j);
        j := j + 1;
      }
      i := i + 1;
    }
  }

  lemma VisitTileIs(g: Geometry, tileRows: nat, tileCols: nat, kernel: seq<Word>, n: nat)
    requires IsTileGrid(g, tileRows, tileCols, kernel) && n < Mul(tileCols, tileRows)
    ensures Mul(n, TileSize(g)) + TileSize(g) <= |kernel|
    ensures TileVisit(g, tileRows, tileCols, kernel, n).tile == kernel[Mul(n, TileSize(g))..Mul(n, TileSize(g)) + TileSize(g)]
  {
    MulFits(Mul(tileCols, tileRows), TileSize(g), n);
  }

  /** Where a tile that is not all zero is found again. */
  lemma CompactAt(g: Geometry, words: seq<Word>, vs: seq<Visit>, n: nat)
    requires n < |vs| && !ZeroTile(vs[n].tile) && Compact(g, words, NonZero(vs))
    ensures HoldsTile(g, words, Mul(|Picked(vs, n)|, TileSize(g)), vs[n])
    ensures Mul(|Picked(vs, n + 1)|, TileSize(g)) == Mul(|Picked(vs, n)|, TileSize(g)) + TileSize(g)
  {
    hide Picked, Mul, ZeroTile, HoldsTile;
    PickedNext(vs, n);
    PickedPrefix(vs, n + 1, |vs|);
    PickedAll(vs);
    MulNext(|Picked(vs, n)|, TileSize(g));
    assert NonZero(vs)[|Picked(vs, n)|] == vs[n];
  }
}
