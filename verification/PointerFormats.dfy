/**
 * Compressed rows and compressed columns of tiles: a pointer per row (column), and for every tile that is not
 * all zero its column (row) and where it is in the dense kernel.
 */
module PointerFormats {
  import opened Arith
  import opened Words
  import opened Machine
  import opened TileProduct
  import opened Walks
  import opened Tiles

  /** The tiles row of tiles by row of tiles. */
  ghost function RowVisits(g: Geometry, tileRows: nat, tileCols: nat, kernel: seq<Word>): (vs: seq<Visit>)
    requires IsTileGrid(g, tileRows, tileCols, kernel)
    ensures |vs| == Mul(tileRows, tileCols)
    ensures forall m :: 0 <= m < |vs| ==> vs[m] == RowVisit(g, tileRows, tileCols, kernel, m)
  {
    seq(Mul(tileRows, tileCols), m requires 0 <= m < Mul(tileRows, tileCols) =>
      RowVisit(g, tileRows, tileCols, kernel, m))
  }

  ghost function RowVisit(g: Geometry, tileRows: nat, tileCols: nat, kernel: seq<Word>, m: nat): (v: Visit)
    requires IsTileGrid(g, tileRows, tileCols, kernel) && m < Mul(tileRows, tileCols)
    ensures v.row < tileRows && v.col < tileCols && |v.tile| == TileSize(g)
  {
    DivMul(tileRows, tileCols, m);
    MulFits(tileCols, tileRows, Col(tileCols, m));
    TileVisit(g, tileRows, tileCols, kernel, Mul(Col(tileCols, m), tileRows) + m / tileCols)
  }

  lemma RowVisitAt(g: Geometry, tileRows: nat, tileCols: nat, kernel: seq<Word>, row: nat, col: nat)
    requires IsTileGrid(g, tileRows, tileCols, kernel) && col < tileCols && row < tileRows
    ensures Mul(row, tileCols) + col < Mul(tileRows, tileCols) && Mul(col, tileRows) + row < Mul(tileCols, tileRows)
    ensures Mul(Mul(col, tileRows) + row, TileSize(g)) + TileSize(g) <= |kernel|
    ensures RowVisit(g, tileRows, tileCols, kernel, Mul(row, tileCols) + col)
         == TileVisit(g, tileRows, tileCols, kernel, Mul(col, tileRows) + row)
         == Visit(row, col, Tile(g, kernel, Mul(col, tileRows) + row))
  {
    hide Tile, TileVisit, Mul;
    TileVisitAt(g, tileRows, tileCols, kernel, col, row);
    MulFits(tileRows, tileCols, row);
    MulDiv(tileCols, row, col);
  }

  // ----- both orders hold the same tiles

  ghost predicate Distinct(vs: seq<Visit>) {
    forall i, j :: 0 <= i < j < |vs| ==> vs[i] != vs[j]
  }

  lemma {:induction false} DistinctCount(vs: seq<Visit>, v: Visit)
    requires Distinct(vs)
    ensures multiset(vs)[v] == if v in vs then 1 else 0
  {
    if vs != [] {
      var hd, w := vs[..|vs| - 1], vs[|vs| - 1];
      assert vs == hd + [w];
      assert multiset(vs) == multiset(hd) + multiset{w};
      DistinctCount(hd, v);
    }
  }

  lemma SameMultiset(vs: seq<Visit>, ws: seq<Visit>)
    requires Distinct(vs) && Distinct(ws) && forall v :: v in vs <==> v in ws
    ensures multiset(vs) == multiset(ws)
  {
    forall v: Visit
      ensures multiset(vs)[v] == multiset(ws)[v]
    {
      DistinctCount(vs, v);
      DistinctCount(ws, v);
    }
  }

  lemma TilesDistinct(g: Geometry, tileRows: nat, tileCols: nat, kernel: seq<Word>)
    requires IsTileGrid(g, tileRows, tileCols, kernel)
    ensures Distinct(TileVisits(g, tileRows, tileCols, kernel))
  {
    hide Mul, TileVisit, Tile;
    var vs := TileVisits(g, tileRows, tileCols, kernel);
    forall i, j | 0 <= i < j < |vs|
      ensures vs[i] != vs[j]
    {
      var ci, ri := MulSplit(tileCols, tileRows, i);
      var cj, rj := MulSplit(tileCols, tileRows, j);
      TileVisitAt(g, tileRows, tileCols, kernel, ci, ri);
      TileVisitAt(g, tileRows, tileCols, kernel, cj, rj);
    }
  }

  lemma RowsDistinct(g: Geometry, tileRows: nat, tileCols: nat, kernel: seq<Word>)
    requires IsTileGrid(g, tileRows, tileCols, kernel)
    ensures Distinct(RowVisits(g, tileRows, tileCols, kernel))
  {
    hide Mul, RowVisit, TileVisit, Tile;
    var vs := RowVisits(g, tileRows, tileCols, kernel);
    forall i, j | 0 <= i < j < |vs|
      ensures vs[i] != vs[j]
    {
      var ri, ci := MulSplit(tileRows, tileCols, i);
      var rj, cj := MulSplit(tileRows, tileCols, j);
      RowVisitAt(g, tileRows, tileCols, kernel, ri, ci);
      RowVisitAt(g, tileRows, tileCols, kernel, rj, cj);
    }
  }

  lemma RowsAreTiles(g: Geometry, tileRows: nat, tileCols: nat, kernel: seq<Word>)
    requires IsTileGrid(g, tileRows, tileCols, kernel)
    ensures multiset(RowVisits(g, tileRows, tileCols, kernel)) == multiset(TileVisits(g, tileRows, tileCols, kernel))
  {
    hide Mul, RowVisit, TileVisit, Tile, Distinct;
    var vs, ws := RowVisits(g, tileRows, tileCols, kernel), TileVisits(g, tileRows, tileCols, kernel);
    RowsDistinct(g, tileRows, tileCols, kernel);
    TilesDistinct(g, tileRows, tileCols, kernel);
    forall v: Visit
      ensures v in vs <==> v in ws
    {
      if v in vs {
        var m :| 0 <= m < |vs| && vs[m] == v;
        var r, c := MulSplit(tileRows, tileCols, m);
        RowVisitAt(g, tileRows, tileCols, kernel, r, c);
        assert ws[Mul(c, tileRows) + r] == v;
      }
      if v in ws {
        var n :| 0 <= n < |ws| && ws[n] == v;
        var c, r := MulSplit(tileCols, tileRows, n);
        RowVisitAt(g, tileRows, tileCols, kernel, r, c);
        assert vs[Mul(r, tileCols) + c] == v;
      }
    }
    SameMultiset(vs, ws);
  }

  // ----- the compressed form

  /** The coordinate stored per tile: the column in compressed rows, the row in compressed columns. */
  ghost function Index(v: Visit, byRow: bool): nat {
    if byRow then v.col else v.row
  }

  /** Coordinates and positions of the picked tiles. */
  ghost predicate Listed(g: Geometry, kernel: seq<Word>, picked: seq<Visit>, byRow: bool, ind: seq<nat>, vals: seq<nat>) {
    && |picked| <= |ind| && |picked| <= |vals|
    && forall q :: 0 <= q < |picked| ==>
         && ind[q] == Index(picked[q], byRow) && vals[q] + TileSize(g) <= |kernel|
         && kernel[vals[q]..vals[q] + TileSize(g)] == picked[q].tile
  }

  /** The pointers of the first `n` segments of length `len`: how many tiles were picked before each. */
  ghost predicate Pointed(vs: seq<Visit>, len: nat, n: nat, ptr: seq<nat>) {
    n < |ptr| && forall i :: 0 <= i <= n ==> Mul(i, len) <= |vs| && ptr[i] == |Picked(vs, Mul(i, len))|
  }

  ghost predicate Compressed(g: Geometry, kernel: seq<Word>, vs: seq<Visit>, byRow: bool, segs: nat, len: nat,
                             ptr: seq<nat>, ind: seq<nat>, vals: seq<nat>) {
    && |vs| == Mul(segs, len) && Pointed(vs, len, segs, ptr)
    && Listed(g, kernel, NonZero(vs), byRow, ind, vals)
  }

  /** Pointers start at zero and end at the number of listed tiles. */
  lemma PointersEnds(g: Geometry, kernel: seq<Word>, vs: seq<Visit>, byRow: bool, segs: nat, len: nat,
                     ptr: seq<nat>, ind: seq<nat>, vals: seq<nat>)
    requires Compressed(g, kernel, vs, byRow, segs, len, ptr, ind, vals)
    ensures |ptr| > segs && ptr[0] == 0 && ptr[segs] == |NonZero(vs)|
  {
    hide Picked, Listed;
    PickedAll(vs);
    MulNone(len);
  }

  /** Pointers never decrease, and a segment holds at most one entry per tile. */
  lemma PointersMonotone(g: Geometry, kernel: seq<Word>, vs: seq<Visit>, byRow: bool, segs: nat, len: nat,
                         ptr: seq<nat>, ind: seq<nat>, vals: seq<nat>, i: nat)
    requires Compressed(g, kernel, vs, byRow, segs, len, ptr, ind, vals) && i < segs
    ensures |ptr| > segs && ptr[i] <= ptr[i + 1] <= ptr[i] + len && ptr[i + 1] <= |NonZero(vs)|
    ensures Mul(i, len) + len <= |vs|
    ensures ptr[i] == |Picked(vs, Mul(i, len))| && ptr[i + 1] == |Picked(vs, Mul(i, len) + len)|
  {
    hide Picked, Listed;
    MulNext(i, len);
    PickedPrefix(vs, Mul(i, len), Mul(i + 1, len));
    PickedPrefix(vs, Mul(i + 1, len), |vs|);
    PickedAll(vs);
  }

  /** The method that adds one tile to the lists if it is not all zero. */
  method ListTile(g: Geometry, kernel: array<Word>, tileIndex: nat, index: nat, ind: array<nat>, vals: array<nat>,
                  nnz: nat, ghost vs: seq<Visit>, ghost byRow: bool, ghost n: nat) returns (next: nat)
    requires n < |vs| <= ind.Length && |vs| <= vals.Length && ind != vals
    requires tileIndex + TileSize(g) <= kernel.Length
    requires vs[n].tile == kernel[tileIndex..tileIndex + TileSize(g)] && Index(vs[n], byRow) == index
    requires nnz == |Picked(vs, n)| && Listed(g, kernel[..], Picked(vs, n), byRow, ind[..], vals[..])
    modifies ind, vals
    ensures next == |Picked(vs, n + 1)| && Listed(g, kernel[..], Picked(vs, n + 1), byRow, ind[..], vals[..])
  {
    hide Picked, Mul, ZeroTile, Listed;
    var allZeros := TileAllZeros(g, kernel, tileIndex);
    PickedAll(vs);
    PickedPrefix(vs, 0, n);
    PickedNext(vs, n);
    next := nnz;
    if allZeros {
      assert Picked(vs, n + 1) == Picked(vs, n);
    } else {
      ListedNext(g, kernel[..], Picked(vs, n), vs[n], byRow, ind[..], vals[..], tileIndex);
      ghost var ind0, vals0 := ind[..], vals[..];
      ind[nnz] := index;
      vals[nnz] := tileIndex;
      assert ind[..] == ind0[nnz := index] && vals[..] == vals0[nnz := tileIndex];
      next := nnz + 1;
    }
  }

  lemma ListedNext(g: Geometry, kernel: seq<Word>, picked: seq<Visit>, v: Visit, byRow: bool, ind: seq<nat>, vals: seq<nat>, at: nat)
    requires Listed(g, kernel, picked, byRow, ind, vals) && |picked| < |ind| && |picked| < |vals|
    requires at + TileSize(g) <= |kernel| && kernel[at..at + TileSize(g)] == v.tile
    ensures Listed(g, kernel, picked + [v], byRow, ind[|picked| := Index(v, byRow)], vals[|picked| := at])
  {
    hide Mul, Index;
  }

  /** Compressed rows. Tiles are tested row of tiles by row of tiles; the kernel stores them by columns. */
  method Dense2Csr(g: Geometry, kernel: array<Word>, tileRows: nat, tileCols: nat,
                   colPtr: array<nat>, rowPtr: array<nat>, values: array<nat>) returns (nnz: nat)
    requires IsTileGrid(g, tileRows, tileCols, kernel[..])
    requires Mul(tileRows, tileCols) <= colPtr.Length && Mul(tileRows, tileCols) <= values.Length
    requires tileRows < rowPtr.Length && colPtr != rowPtr && colPtr != values && rowPtr != values
    modifies colPtr, rowPtr, values
    ensures var vs := RowVisits(g, tileRows, tileCols, kernel[..]);
            && nnz == |NonZero(vs)|
            && Compressed(g, kernel[..], vs, true, tileRows, tileCols, rowPtr[..], colPtr[..], values[..])
  {
    hide Picked, Mul, Listed, RowVisit, TileVisit;
    ghost var vs := RowVisits(g, tileRows, tileCols, kernel[..]);
    PickedAll(vs);
    ListedNone(g, kernel[..], true, colPtr[..], values[..]);
    nnz := 0;
    rowPtr[0] := 0;
    PointedStart(vs, tileCols, rowPtr[..]);
    var i := 0;
    while i < tileRows
      invariant 0 <= i <= tileRows && Mul(i, tileCols) <= |vs|
      invariant nnz == |Picked(vs, Mul(i, tileCols))| && Pointed(vs, tileCols, i, rowPtr[..])
      invariant Listed(g, kernel[..], Picked(vs, Mul(i, tileCols)), true, colPtr[..], values[..])
    {
      MulFits(tileRows, tileCols, i);
      MulNext(i, tileCols);
      var j := 0;
      while j < tileCols
        invariant 0 <= j <= tileCols
        invariant nnz == |Picked(vs, Mul(i, tileCols) + j)| && Pointed(vs, tileCols, i, rowPtr[..])
        invariant Listed(g, kernel[..], Picked(vs, Mul(i, tileCols) + j), true, colPtr[..], values[..])
      {
        RowVisitAt(g, tileRows, tileCols, kernel[..], i, j);
        var tileIndex := Mul(Mul(j, tileRows) + i, TileSize(g));
        nnz := ListTile(g, kernel, tileIndex, j, colPtr, values, nnz, vs, true, Mul(i, tileCols) + j);
        j := j + 1;
      }
      rowPtr[i + 1] := nnz;
      i := i + 1;
    }
  }

  /** Compressed columns, in the order the kernel stores the tiles. */
  method Dense2Csc(g: Geometry, kernel: array<Word>, tileRows: nat, tileCols: nat,
                   colPtr: array<nat>, rowInd: array<nat>, values: array<nat>) returns (nnz: nat)
    requires IsTileGrid(g, tileRows, tileCols, kernel[..])
    requires Mul(tileCols, tileRows) <= rowInd.Length && Mul(tileCols, tileRows) <= values.Length
    requires tileCols < colPtr.Length && colPtr != rowInd && colPtr != values && rowInd != values
    modifies colPtr, rowInd, values
    ensures var vs := TileVisits(g, tileRows, tileCols, kernel[..]);
            && nnz == |NonZero(vs)|
            && Compressed(g, kernel[..], vs, false, tileCols, tileRows, colPtr[..], rowInd[..], values[..])
  {
    hide Picked, Mul, Listed, TileVisit;
    ghost var vs := TileVisits(g, tileRows, tileCols, kernel[..]);
    PickedAll(vs);
    ListedNone(g, kernel[..], false, rowInd[..], values[..]);
    nnz := 0;
    colPtr[0] := 0;
    PointedStart(vs, tileRows, colPtr[..]);
    var i := 0;
    while i < tileCols
      invariant 0 <= i <= tileCols && Mul(i, tileRows) <= |vs|
      invariant nnz == |Picked(vs, Mul(i, tileRows))| && Pointed(vs, tileRows, i, colPtr[..])
      invariant Listed(g, kernel[..], Picked(vs, Mul(i, tileRows)), false, rowInd[..], values[..])
    {
      MulFits(tileCols, tileRows, i);
      MulNext(i, tileRows);
      var j := 0;
      while j < tileRows
        invariant 0 <= j <= tileRows
        invariant nnz == |Picked(vs, Mul(i, tileRows) + j)| && Pointed(vs, tileRows, i, colPtr[..])
        invariant Listed(g, kernel[..], Picked(vs, Mul(i, tileRows) + j), false, rowInd[..], values[..])
      {
        TileVisitAt(g, tileRows, tileCols, kernel[..], i, j);
        var tileIndex := Mul(Mul(i, tileRows) + j, TileSize(g));
        nnz := ListTile(g, kernel, tileIndex, j, rowInd, values, nnz, vs, false, Mul(i, tileRows) + j);
        j := j + 1;
      }
      colPtr[i + 1] := nnz;
      i := i + 1;
    }
  }

  lemma ListedNone(g: Geometry, kernel: seq<Word>, byRow: bool, ind: seq<nat>, vals: seq<nat>)
    ensures Listed(g, kernel, [], byRow, ind, vals)
  {
  }

  lemma PointedStart(vs: seq<Visit>, len: nat, ptr: seq<nat>)
    requires |ptr| > 0 && ptr[0] == 0
    ensures Mul(0, len) == 0 && Pointed(vs, len, 0, ptr)
  {
    PickedAll(vs);
  }

  /** A tile listed in segment `i` of the compressed rows lies in row `i`; its column increases along the segment. */
  lemma CsrSegment(g: Geometry, tileRows: nat, tileCols: nat, kernel: seq<Word>, i: nat, q: nat) returns (t: nat)
    requires IsTileGrid(g, tileRows, tileCols, kernel) && i < tileRows
    requires var vs := RowVisits(g, tileRows, tileCols, kernel);
             Mul(i, tileCols) + tileCols <= |vs|
             && |Picked(vs, Mul(i, tileCols))| <= q < |Picked(vs, Mul(i, tileCols) + tileCols)|
    ensures var vs := RowVisits(g, tileRows, tileCols, kernel);
            q < |NonZero(vs)| && NonZero(vs)[q].row == i && NonZero(vs)[q].col == t < tileCols
            && Mul(i, tileCols) + t < |vs| && NonZero(vs)[q] == vs[Mul(i, tileCols) + t]
            && q == |Picked(vs, Mul(i, tileCols) + t)| && !ZeroTile(vs[Mul(i, tileCols) + t].tile)
  {
    hide Picked, Mul, RowVisit, TileVisit, Tile, ZeroTile;
    var vs, b := RowVisits(g, tileRows, tileCols, kernel), Mul(i, tileCols);
    var p := PickedFrom(vs, b, b + tileCols, q);
    PickedPrefix(vs, b + tileCols, |vs|);
    PickedAll(vs);
    t := p - b;
    RowVisitAt(g, tileRows, tileCols, kernel, i, t);
  }

  lemma CscSegment(g: Geometry, tileRows: nat, tileCols: nat, kernel: seq<Word>, i: nat, q: nat) returns (t: nat)
    requires IsTileGrid(g, tileRows, tileCols, kernel) && i < tileCols
    requires var vs := TileVisits(g, tileRows, tileCols, kernel);
             Mul(i, tileRows) + tileRows <= |vs|
             && |Picked(vs, Mul(i, tileRows))| <= q < |Picked(vs, Mul(i, tileRows) + tileRows)|
    ensures var vs := TileVisits(g, tileRows, tileCols, kernel);
            q < |NonZero(vs)| && NonZero(vs)[q].col == i && NonZero(vs)[q].row == t < tileRows
            && Mul(i, tileRows) + t < |vs| && NonZero(vs)[q] == vs[Mul(i, tileRows) + t]
            && q == |Picked(vs, Mul(i, tileRows) + t)| && !ZeroTile(vs[Mul(i, tileRows) + t].tile)
  {
    hide Picked, Mul, TileVisit, Tile, ZeroTile;
    var vs, b := TileVisits(g, tileRows, tileCols, kernel), Mul(i, tileRows);
    var p := PickedFrom(vs, b, b + tileRows, q);
    PickedPrefix(vs, b + tileRows, |vs|);
    PickedAll(vs);
    t := p - b;
    TileVisitAt(g, tileRows, tileCols, kernel, i, t);
  }

  /** Columns strictly increase along a row segment. */
  lemma CsrIncreasing(g: Geometry, tileRows: nat, tileCols: nat, kernel: seq<Word>, i: nat, q: nat, q': nat)
    requires IsTileGrid(g, tileRows, tileCols, kernel) && i < tileRows
    requires var vs := RowVisits(g, tileRows, tileCols, kernel);
             Mul(i, tileCols) + tileCols <= |vs|
             && |Picked(vs, Mul(i, tileCols))| <= q < q' < |Picked(vs, Mul(i, tileCols) + tileCols)|
    ensures var vs := RowVisits(g, tileRows, tileCols, kernel);
            q' < |NonZero(vs)| && NonZero(vs)[q].col < NonZero(vs)[q'].col
  {
    hide Picked, Mul, RowVisit, TileVisit, ZeroTile;
    var vs, b := RowVisits(g, tileRows, tileCols, kernel), Mul(i, tileCols);
    var t := CsrSegment(g, tileRows, tileCols, kernel, i, q);
    var t' := CsrSegment(g, tileRows, tileCols, kernel, i, q');
    if t' <= t {
      PickedPrefix(vs, b + t', b + t);
    }
  }

  /** Rows strictly increase along a column segment. */
  lemma CscIncreasing(g: Geometry, tileRows: nat, tileCols: nat, kernel: seq<Word>, i: nat, q: nat, q': nat)
    requires IsTileGrid(g, tileRows, tileCols, kernel) && i < tileCols
    requires var vs := TileVisits(g, tileRows, tileCols, kernel);
             Mul(i, tileRows) + tileRows <= |vs|
             && |Picked(vs, Mul(i, tileRows))| <= q < q' < |Picked(vs, Mul(i, tileRows) + tileRows)|
    ensures var vs := TileVisits(g, tileRows, tileCols, kernel);
            q' < |NonZero(vs)| && NonZero(vs)[q].row < NonZero(vs)[q'].row
  {
    hide Picked, Mul, TileVisit, ZeroTile;
    var vs, b := TileVisits(g, tileRows, tileCols, kernel), Mul(i, tileRows);
    var t := CscSegment(g, tileRows, tileCols, kernel, i, q);
    var t' := CscSegment(g, tileRows, tileCols, kernel, i, q');
    if t' <= t {
      PickedPrefix(vs, b + t', b + t);
    }
  }

  /** Entry `q`, in the segment of row `i`, is the q-th tile that is not all zero. */
  lemma CsrEntry(g: Geometry, tileRows: nat, tileCols: nat, kernel: seq<Word>, ptr: seq<nat>, ind: seq<nat>,
                 vals: seq<nat>, i: nat, q: nat)
    requires IsTileGrid(g, tileRows, tileCols, kernel) && i < tileRows
    requires Compressed(g, kernel, RowVisits(g, tileRows, tileCols, kernel), true, tileRows, tileCols, ptr, ind, vals)
    requires |ptr| > tileRows && ptr[i] <= q < ptr[i + 1]
    ensures var nz := NonZero(RowVisits(g, tileRows, tileCols, kernel));
            && q < |nz| && q < |ind| && q < |vals| && vals[q] + TileSize(g) <= |kernel|
            && nz[q] == Visit(i, ind[q], kernel[vals[q]..vals[q] + TileSize(g)])
  {
    hide Picked, Mul, RowVisit, Pointed;
    PointersMonotone(g, kernel, RowVisits(g, tileRows, tileCols, kernel), true, tileRows, tileCols, ptr, ind, vals, i);
    var t := CsrSegment(g, tileRows, tileCols, kernel, i, q);
  }

  /** Entry `q`, in the segment of column `i`, is the q-th tile that is not all zero. */
  lemma CscEntry(g: Geometry, tileRows: nat, tileCols: nat, kernel: seq<Word>, ptr: seq<nat>, ind: seq<nat>,
                 vals: seq<nat>, i: nat, q: nat)
    requires IsTileGrid(g, tileRows, tileCols, kernel) && i < tileCols
    requires Compressed(g, kernel, TileVisits(g, tileRows, tileCols, kernel), false, tileCols, tileRows, ptr, ind, vals)
    requires |ptr| > tileCols && ptr[i] <= q < ptr[i + 1]
    ensures var nz := NonZero(TileVisits(g, tileRows, tileCols, kernel));
            && q < |nz| && q < |ind| && q < |vals| && vals[q] + TileSize(g) <= |kernel|
            && nz[q] == Visit(ind[q], i, kernel[vals[q]..vals[q] + TileSize(g)])
  {
    hide Picked, Mul, TileVisit, Pointed;
    PointersMonotone(g, kernel, TileVisits(g, tileRows, tileCols, kernel), false, tileCols, tileRows, ptr, ind, vals, i);
    var t := CscSegment(g, tileRows, tileCols, kernel, i, q);
  }
}
