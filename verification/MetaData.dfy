/**
 * Two-level metadata: one mark per column of tiles, and for the columns that are not all zero one mark per tile.
 * The marks of an all-zero column are written too, but the next column overwrites them.
 */
module MetaData {
  import opened Arith
  import opened Words
  import opened Machine
  import opened TileProduct
  import opened Walks
  import opened Tiles
  import opened Compaction

  /** The i-th visit from `b` on has a zero tile. */
  ghost predicate ZeroIn(vs: seq<Visit>, b: nat, i: nat) {
    b + i < |vs| && ZeroTile(vs[b + i].tile)
  }

  /** The i-th mark from `b` on is set. */
  ghost predicate MarkIn(m: seq<Word>, b: nat, i: nat) {
    b + i < |m| && m[b + i] != 0
  }

  /** The first `n` tiles of column `j` are all zero. */
  ghost predicate ColumnZero(vs: seq<Visit>, tileRows: nat, j: nat, n: nat)
    requires Mul(j, tileRows) + n <= |vs|
  {
    forall i :: 0 <= i < n ==> ZeroIn(vs, Mul(j, tileRows), i)
  }

  /** How many of the first `j` columns are not all zero. */
  ghost function Rank(vs: seq<Visit>, tileRows: nat, j: nat): (r: nat)
    requires Mul(j, tileRows) <= |vs|
    ensures r <= j
  {
    if j == 0 then 0
    else Rank(vs, tileRows, j - 1) + if ColumnZero(vs, tileRows, j - 1, tileRows) then 0 else 1
  }

  /** The marks of the first `n` tiles of column `j` are in place. */
  ghost predicate TilesMarked(vs: seq<Visit>, tileRows: nat, j: nat, n: nat, m2: seq<Word>)
    requires Mul(j, tileRows) + n <= |vs|
  {
    && Mul(Rank(vs, tileRows, j), tileRows) + n <= |m2|
    && forall i :: 0 <= i < n ==>
         (MarkIn(m2, Mul(Rank(vs, tileRows, j), tileRows), i) <==> !ZeroIn(vs, Mul(j, tileRows), i))
  }

  ghost predicate ColumnMarked(vs: seq<Visit>, tileRows: nat, j: nat, m1: seq<Word>, m2: seq<Word>)
  {
    && Mul(j, tileRows) + tileRows <= |vs| && j < |m1|
    && (m1[j] != 0 <==> !ColumnZero(vs, tileRows, j, tileRows))
    && (m1[j] != 0 ==> TilesMarked(vs, tileRows, j, tileRows, m2))
  }

  /** The marks of the first `n` columns. */
  ghost predicate Marked(vs: seq<Visit>, tileRows: nat, n: nat, m1: seq<Word>, m2: seq<Word>) {
    && n <= |m1| && Mul(n, tileRows) <= |vs|
    && forall j :: 0 <= j < n ==> ColumnMarked(vs, tileRows, j, m1, m2)
  }

  /** Writing marks of column `d` or later does not disturb earlier columns. */
  lemma MarkedKeep(vs: seq<Visit>, tileRows: nat, n: nat, m1: seq<Word>, m2: seq<Word>, p: nat, v: Word)
    requires Marked(vs, tileRows, n, m1, m2) && p < |m2| && Mul(Rank(vs, tileRows, n), tileRows) <= p
    ensures Marked(vs, tileRows, n, m1, m2[p := v])
  {
    hide Mul, ColumnZero, Rank, ZeroTile;
    var m2' := m2[p := v];
    forall j | 0 <= j < n
      ensures ColumnMarked(vs, tileRows, j, m1, m2')
    {
      assert ColumnMarked(vs, tileRows, j, m1, m2);
      if m1[j] != 0 {
        RankNext(vs, tileRows, j, n);
        MarksKeep(m2, Mul(Rank(vs, tileRows, j), tileRows), tileRows, p, v);
      }
    }
  }

  lemma MarksKeep(m: seq<Word>, b: nat, n: nat, p: nat, v: Word)
    requires b + n <= p < |m|
    ensures forall i :: 0 <= i < n ==> (MarkIn(m[p := v], b, i) <==> MarkIn(m, b, i))
  {
  }

  /** A column that is not all zero has its marks before those of every later column. */
  lemma {:induction false} RankNext(vs: seq<Visit>, tileRows: nat, j: nat, n: nat)
    requires j < n && Mul(n, tileRows) <= |vs|
    ensures Mul(j, tileRows) + tileRows <= |vs|
    ensures !ColumnZero(vs, tileRows, j, tileRows) ==>
              Mul(Rank(vs, tileRows, j), tileRows) + tileRows <= Mul(Rank(vs, tileRows, n), tileRows)
    ensures Rank(vs, tileRows, j) <= Rank(vs, tileRows, n)
    decreases n
  {
    hide ColumnZero, Mul;
    MulFits(n, tileRows, j);
    MulFits(n, tileRows, n - 1);
    if j == n - 1 {
      MulNext(Rank(vs, tileRows, j), tileRows);
    } else {
      RankNext(vs, tileRows, j, n - 1);
      MulLe(Rank(vs, tileRows, n - 1), Rank(vs, tileRows, n), tileRows);
    }
  }

  lemma TilesMarkedNext(vs: seq<Visit>, tileRows: nat, j: nat, n: nat, m2: seq<Word>, v: Word)
    requires Mul(j, tileRows) + n < |vs| && TilesMarked(vs, tileRows, j, n, m2)
    requires Mul(Rank(vs, tileRows, j), tileRows) + n < |m2|
    requires v != 0 <==> !ZeroTile(vs[Mul(j, tileRows) + n].tile)
    ensures TilesMarked(vs, tileRows, j, n + 1, m2[Mul(Rank(vs, tileRows, j), tileRows) + n := v])
  {
    hide Mul, Rank, ZeroTile;
    MarksKeep(m2, Mul(Rank(vs, tileRows, j), tileRows), n, Mul(Rank(vs, tileRows, j), tileRows) + n, v);
  }

  lemma MarkedNext(vs: seq<Visit>, tileRows: nat, n: nat, m1: seq<Word>, m2: seq<Word>, v: Word)
    requires Marked(vs, tileRows, n, m1, m2) && n < |m1| && Mul(n, tileRows) + tileRows <= |vs|
    requires TilesMarked(vs, tileRows, n, tileRows, m2)
    requires v != 0 <==> !ColumnZero(vs, tileRows, n, tileRows)
    ensures Marked(vs, tileRows, n + 1, m1[n := v], m2)
  {
    hide Mul, Rank, ZeroTile, ColumnZero, TilesMarked;
    MulNext(n, tileRows);
    var m1' := m1[n := v];
    forall j | 0 <= j < n + 1
      ensures ColumnMarked(vs, tileRows, j, m1', m2)
    {
      assert j < n ==> ColumnMarked(vs, tileRows, j, m1, m2);
    }
  }

  /** What the encoder leaves: both levels of marks and the compacted tiles. */
  ghost predicate IsMetaData(g: Geometry, tileRows: nat, tileCols: nat, kernel: seq<Word>, m1: seq<Word>, m2: seq<Word>,
                             words: seq<Word>)
    requires IsTileGrid(g, tileRows, tileCols, kernel)
  {
    var vs := TileVisits(g, tileRows, tileCols, kernel);
    Marked(vs, tileRows, tileCols, m1, m2) && Compact(g, words, NonZero(vs))
  }

  /** The marks and the compacted tiles, column of tiles by column of tiles. */
  method Dense2MetaData(g: Geometry, kernel: array<Word>, tileRows: nat, tileCols: nat, m1: array<Word>, m2: array<Word>)
    returns (newKernel: array<Word>)
    requires IsTileGrid(g, tileRows, tileCols, kernel[..])
    requires tileCols <= m1.Length && Mul(tileCols, tileRows) <= m2.Length && m1 != m2 && m1 != kernel && m2 != kernel
    modifies m1, m2
    ensures fresh(newKernel) && newKernel.Length == kernel.Length
    ensures IsMetaData(g, tileRows, tileCols, kernel[..], m1[..], m2[..], newKernel[..])
  {
    hide Picked, Mul, ZeroTile, Compact, TileVisit, Marked, TilesMarked, ColumnZero;
    ghost var vs := TileVisits(g, tileRows, tileCols, kernel[..]);
    newKernel := new Word[kernel.Length](_ => 0);
    PickedAll(vs);
    CompactNone(g, newKernel[..]);
    MarkedNone(vs, tileRows, m1[..], m2[..]);
    var cursor, m2Start, j := 0, 0, 0;
    while j < tileCols
      invariant 0 <= j <= tileCols && Mul(j, tileRows) <= |vs|
      invariant m2Start == Mul(Rank(vs, tileRows, j), tileRows)
      invariant cursor == Mul(|Picked(vs, Mul(j, tileRows))|, TileSize(g))
      invariant Compact(g, newKernel[..], Picked(vs, Mul(j, tileRows)))
      invariant Marked(vs, tileRows, j, m1[..], m2[..])
    {
      MulFits(tileCols, tileRows, j);
      MulNext(j, tileRows);
      MulFits(tileCols, tileRows, Rank(vs, tileRows, j));
      ColumnStart(vs, tileRows, j, m2[..]);
      var columnAllZeros, i := true, 0;
      while i < tileRows
        invariant 0 <= i <= tileRows
        invariant columnAllZeros <==> ColumnZero(vs, tileRows, j, i)
        invariant cursor == Mul(|Picked(vs, Mul(j, tileRows) + i)|, TileSize(g))
        invariant Compact(g, newKernel[..], Picked(vs, Mul(j, tileRows) + i))
        invariant Marked(vs, tileRows, j, m1[..], m2[..]) && TilesMarked(vs, tileRows, j, i, m2[..])
      {
        VisitTileIs(g, tileRows, tileCols, kernel[..], Mul(j, tileRows) + i);
        var tileIndex := Mul(Mul(j, tileRows) + i, TileSize(g));
        var tileAllZeros;
        cursor, tileAllZeros := AppendTile(g, kernel, tileIndex, newKernel, cursor, vs, Mul(j, tileRows) + i);
        ghost var marks := m2[..];
        var mark: Word := if tileAllZeros then 0 else 1;
        MarkedKeep(vs, tileRows, j, m1[..], marks, m2Start + i, mark);
        TilesMarkedNext(vs, tileRows, j, i, marks, mark);
        ColumnNext(vs, tileRows, j, i);
        m2[m2Start + i] := mark;
        assert m2[..] == marks[m2Start + i := mark];
        if !tileAllZeros {
          columnAllZeros := false;
        }
        i := i + 1;
      }
      ghost var heads := m1[..];
      var head: Word := if columnAllZeros then 0 else 1;
      MarkedNext(vs, tileRows, j, heads, m2[..], head);
      m1[j] := head;
      assert m1[..] == heads[j := head];
      if !columnAllZeros {
        MulNext(Rank(vs, tileRows, j), tileRows);
        m2Start := m2Start + tileRows;
      }
      j := j + 1;
    }
  }

  lemma MarkedNone(vs: seq<Visit>, tileRows: nat, m1: seq<Word>, m2: seq<Word>)
    ensures Mul(0, tileRows) == 0 && Marked(vs, tileRows, 0, m1, m2) && Rank(vs, tileRows, 0) == 0
  {
  }

  lemma ColumnStart(vs: seq<Visit>, tileRows: nat, j: nat, m2: seq<Word>)
    requires Mul(j, tileRows) <= |vs| && Mul(Rank(vs, tileRows, j), tileRows) <= |m2|
    ensures ColumnZero(vs, tileRows, j, 0) && TilesMarked(vs, tileRows, j, 0, m2)
  {
    hide Mul, Rank;
  }

  lemma ColumnNext(vs: seq<Visit>, tileRows: nat, j: nat, i: nat)
    requires Mul(j, tileRows) + i < |vs|
    ensures ColumnZero(vs, tileRows, j, i + 1)
       <==> ColumnZero(vs, tileRows, j, i) && ZeroTile(vs[Mul(j, tileRows) + i].tile)
  {
    hide Mul, ZeroTile;
    assert ZeroIn(vs, Mul(j, tileRows), i) <==> ZeroTile(vs[Mul(j, tileRows) + i].tile);
  }

  /** In a column whose mark is clear every tile is zero; in the others the second level says which are. */
  lemma MarkMeans(vs: seq<Visit>, tileRows: nat, n: nat, m1: seq<Word>, m2: seq<Word>, j: nat, i: nat)
    requires Marked(vs, tileRows, n, m1, m2) && j < n && i < tileRows
    ensures Mul(j, tileRows) + tileRows <= |vs|
    ensures m1[j] == 0 ==> ZeroTile(vs[Mul(j, tileRows) + i].tile)
    ensures m1[j] != 0 ==>
              var b := Mul(Rank(vs, tileRows, j), tileRows);
              b + tileRows <= |m2| && (m2[b + i] != 0 <==> !ZeroTile(vs[Mul(j, tileRows) + i].tile))
  {
    hide Mul, Rank, ZeroTile;
    assert ColumnMarked(vs, tileRows, j, m1, m2);
    if m1[j] == 0 {
      assert ZeroIn(vs, Mul(j, tileRows), i);
    } else {
      assert MarkIn(m2, Mul(Rank(vs, tileRows, j), tileRows), i) <==> !ZeroIn(vs, Mul(j, tileRows), i);
    }
  }
}
