/**
 * The walk over all tiles of a dense weight matrix is the matrix product. Tiles are stored column of tiles by
 * column of tiles; within a column they stack to a matrix of K columns.
 */
module DenseProduct {
  import opened Arith
  import opened Words
  import opened Machine
  import opened Wavefront
  import opened Feeding
  import opened TileProduct
  import opened Walks
  import opened Tiles
  import opened Matrices

  /** The weight words of the whole tile grid. */
  ghost predicate IsKernel(job: Job, kernel: seq<Word>) {
    IsTileGrid(job.g, job.tileRows, job.tileCols, kernel)
  }

  /** All tiles in storage order: down each column of tiles, then the next column. */
  ghost function DenseVisits(job: Job, kernel: seq<Word>): (vs: seq<Visit>)
    requires job.Ok() && IsKernel(job, kernel)
    ensures |vs| == Mul(job.tileCols, job.tileRows) && AllFit(job, vs)
    ensures forall n :: 0 <= n < |vs| ==> vs[n] == DenseVisit(job, kernel, n)
  {
    TileVisits(job.g, job.tileRows, job.tileCols, kernel)
  }

  ghost function DenseVisit(job: Job, kernel: seq<Word>, n: nat): (v: Visit)
    requires job.Ok() && IsKernel(job, kernel) && n < Mul(job.tileCols, job.tileRows)
    ensures Fits(job, v)
  {
    TileVisit(job.g, job.tileRows, job.tileCols, kernel, n)
  }

  lemma DenseVisitAt(job: Job, kernel: seq<Word>, col: nat, row: nat)
    requires job.Ok() && IsKernel(job, kernel) && col < job.tileCols && row < job.tileRows
    ensures var n := Mul(col, job.tileRows) + row;
            && n < Mul(job.tileCols, job.tileRows)
            && Mul(n, TileSize(job.g)) + TileSize(job.g) <= |kernel|
            && DenseVisit(job, kernel, n) == Visit(row, col, Tile(job.g, kernel, n))
  {
    hide Tile, Mul, TileVisit;
    TileVisitAt(job.g, job.tileRows, job.tileCols, kernel, col, row);
  }

  // ----- one element of the output

  /** The word of the output that holds element (i, c) of column block `b`, where c is in word `j` of its row. */
  ghost function OutPos(job: Job, b: nat, i: nat, j: nat): nat {
    Pos(ActLayout(job.g), job.rows, b, i, j)
  }

  lemma OutPosFits(job: Job, b: nat, i: nat, j: nat)
    requires b < job.tileCols && i < job.rows && j < job.g.actCols
    ensures OutPos(job, b, i, j) < job.OutSize()
  {
    MulFits(job.tileCols, BlockSize(job.g, job.rows), b);
    MulFits(job.rows, job.g.actCols, i);
  }

  /** What one visit adds to element (i, c) of column block `b`. */
  ghost function Share(job: Job, v: Visit, b: nat, i: nat, c: nat): int
    requires job.Ok() && Fits(job, v)
  {
    if v.col == b then Dot(RowAt(job.g, job.Block(v.row), i), Elems(job.g.wgt, v.tile), job.g.k, c, job.g.k) else 0
  }

  ghost function Shares(job: Job, vs: seq<Visit>, b: nat, i: nat, c: nat): int
    requires job.Ok() && AllFit(job, vs)
  {
    if vs == [] then 0 else Shares(job, vs[..|vs| - 1], b, i, c) + Share(job, vs[|vs| - 1], b, i, c)
  }

  lemma AddTileLane(job: Job, out: seq<Word>, v: Visit, b: nat, i: nat, j: nat, l: nat)
    requires job.Ok() && |out| == job.OutSize() && Fits(job, v)
    requires b < job.tileCols && i < job.rows && j < job.g.actCols && l < job.g.act.per
    ensures OutPos(job, b, i, j) < |out|
    ensures Lane(job.g.act, AddTile(job, out, v)[OutPos(job, b, i, j)], l)
         == Mask(job.g, Lane(job.g.act, out[OutPos(job, b, i, j)], l) + Share(job, v, b, i, Mul(j, job.g.act.per) + l))
  {
    hide Lane, Product, Mul, Dot, AddLanes, Elems, RowAt, Mask;
    OutPosFits(job, b, i, j);
    var g, size, q := job.g, BlockSize(job.g, job.rows), Mul(i, job.g.actCols) + j;
    assert q < size by { MulFits(job.rows, g.actCols, i); }
    var y := out[OutPos(job, b, i, j)];
    if v.col == b {
      ProductLane(g, job.Block(v.row), v.tile, job.rows, i, j, l);
      MaskLane(g, y, Product(g, job.Block(v.row), v.tile, job.rows)[q], l);
      MaskAdd(g, Share(job, v, b, i, Mul(j, g.act.per) + l), Lane(g.act, y, l));
    } else {
      if Mul(v.col, size) <= OutPos(job, b, i, j) < Mul(v.col, size) + size {
        MulUnique(size, b, q, v.col, OutPos(job, b, i, j) - Mul(v.col, size));
      }
      MaskSmall(g, Lane(g.act, y, l));
    }
  }

  /** A walk adds, to each element, the shares of all its visits. */
  lemma {:induction false} WalkLane(job: Job, out: seq<Word>, vs: seq<Visit>, b: nat, i: nat, j: nat, l: nat)
    requires job.Ok() && |out| == job.OutSize() && AllFit(job, vs)
    requires b < job.tileCols && i < job.rows && j < job.g.actCols && l < job.g.act.per
    ensures OutPos(job, b, i, j) < |out|
    ensures Lane(job.g.act, Walk(job, out, vs)[OutPos(job, b, i, j)], l)
         == Mask(job.g, Lane(job.g.act, out[OutPos(job, b, i, j)], l) + Shares(job, vs, b, i, Mul(j, job.g.act.per) + l))
    decreases |vs|
  {
    hide Lane, AddTile, Mul, Share, Fits, Mask;
    OutPosFits(job, b, i, j);
    var g, y, c := job.g, Lane(job.g.act, out[OutPos(job, b, i, j)], l), Mul(j, job.g.act.per) + l;
    if vs == [] {
      MaskSmall(g, y);
    } else {
      var hd, v := vs[..|vs| - 1], vs[|vs| - 1];
      WalkLane(job, out, hd, b, i, j, l);
      AddTileLane(job, Walk(job, out, hd), v, b, i, j, l);
      MaskAdd(g, y + Shares(job, hd, b, i, c), Share(job, v, b, i, c));
    }
  }

  // ----- the ordinary matrices

  function ActLayout(g: Geometry): Layout {
    Layout(g.act, g.actCols, g.k)
  }

  ghost function WgtLayout(g: Geometry): Layout {
    Layout(g.wgt, g.wgtCols, g.k)
  }

  /** The activations as a matrix with one row per sequence position. */
  ghost function Activations(job: Job): (x: Matrix)
    requires job.Ok()
    ensures IsMatrix(job.rows, Mul(job.tileRows, job.g.k), x)
  {
    MatrixOf(ActLayout(job.g), job.rows, job.tileRows, job.input)
  }

  lemma KernelSize(job: Job)
    ensures Mul(Mul(job.tileCols, job.tileRows), TileSize(job.g))
         == Mul(job.tileCols, Mul(Mul(job.tileRows, job.g.k), job.g.wgtCols))
  {
    MulMul(job.tileCols, job.tileRows, TileSize(job.g));
    MulMul(job.tileRows, job.g.k, job.g.wgtCols);
  }

  /** The weights as a matrix: the tiles of a column of tiles stacked, the columns side by side. */
  ghost function WeightMatrix(job: Job, kernel: seq<Word>): (w: Matrix)
    requires job.Ok() && IsKernel(job, kernel)
    ensures IsMatrix(Mul(job.tileRows, job.g.k), Mul(job.tileCols, job.g.k), w)
  {
    KernelSize(job);
    MatrixOf(WgtLayout(job.g), Mul(job.tileRows, job.g.k), job.tileCols, kernel)
  }

  ghost function OutMatrix(job: Job, out: seq<Word>): (a: Matrix)
    requires job.Ok() && |out| == job.OutSize()
    ensures IsMatrix(job.rows, Mul(job.tileCols, job.g.k), a)
  {
    MatrixOf(ActLayout(job.g), job.rows, job.tileCols, out)
  }

  lemma BlockElem(job: Job, r: nat, i: nat, t: nat)
    requires job.Ok() && r < job.tileRows && i < job.rows && t < job.g.k
    ensures Mul(r, job.g.k) + t < Mul(job.tileRows, job.g.k)
    ensures Activations(job)[i][Mul(r, job.g.k) + t] == RowAt(job.g, job.Block(r), i)[t]
  {
    hide Mul, Lane, RowAt, MatrixOf, Signed;
    var g, y := job.g, ActLayout(job.g);
    MulFits(job.tileRows, g.k, r);
    var j, l := MulSplit(g.actCols, g.act.per, t);
    RowWord(g, job.Block(r), i, j, l);
    MatrixAt(y, job.rows, job.tileRows, job.input, r, i, j, l);
    MulFits(job.rows, g.actCols, i);
    MulFits(job.tileRows, BlockSize(g, job.rows), r);
  }

  /** Where word `j` of row `t` of tile (r, b) is in the kernel. */
  lemma {:induction false} TileWordPos(job: Job, b: nat, r: nat, t: nat, j: nat)
    ensures Mul(Mul(b, job.tileRows) + r, TileSize(job.g)) + Mul(t, job.g.wgtCols) + j
         == Pos(WgtLayout(job.g), Mul(job.tileRows, job.g.k), b, Mul(r, job.g.k) + t, j)
  {
    hide Mul;
    var g := job.g;
    MulAdd(Mul(b, job.tileRows), r, TileSize(g));
    MulMul(b, job.tileRows, TileSize(g));
    MulMul(job.tileRows, g.k, g.wgtCols);
    MulMul(r, g.k, g.wgtCols);
    MulAdd(Mul(r, g.k), t, g.wgtCols);
  }

  lemma WeightElem(job: Job, kernel: seq<Word>, b: nat, r: nat, t: nat, c: nat)
    requires job.Ok() && IsKernel(job, kernel) && b < job.tileCols && r < job.tileRows && t < job.g.k && c < job.g.k
    ensures Mul(r, job.g.k) + t < Mul(job.tileRows, job.g.k) && Mul(b, job.g.k) + c < Mul(job.tileCols, job.g.k)
    ensures var n := Mul(b, job.tileRows) + r;
            && Mul(n, TileSize(job.g)) + TileSize(job.g) <= |kernel|
            && WeightMatrix(job, kernel)[Mul(r, job.g.k) + t][Mul(b, job.g.k) + c]
               == At(Elems(job.g.wgt, Tile(job.g, kernel, n)), job.g.k, t, c)
  {
    hide Mul, Lane, Elems, MatrixOf, Signed;
    var g, y, n := job.g, WgtLayout(job.g), Mul(b, job.tileRows) + r;
    KernelSize(job);
    DenseVisitAt(job, kernel, b, r);
    MulFits(job.tileRows, g.k, r);
    MulFits(job.tileCols, g.k, b);
    var j, l := MulSplit(g.wgtCols, g.wgt.per, c);
    MatrixAt(y, Mul(job.tileRows, g.k), job.tileCols, kernel, b, Mul(r, g.k) + t, j, l);
    TileWordPos(job, b, r, t, j);
    TileElem1(g, Tile(g, kernel, n), t, j, l);
  }

  lemma TileElem1(g: Geometry, tile: seq<Word>, t: nat, j: nat, l: nat)
    requires g.Valid() && IsTile(g, tile) && t < g.k && j < g.wgtCols && l < g.wgt.per
    ensures Mul(t, g.wgtCols) + j < |tile|
    ensures At(Elems(g.wgt, tile), g.k, t, Mul(j, g.wgt.per) + l) == Wgt(g, tile[Mul(t, g.wgtCols) + j], l)
  {
    hide Mul, Lane, Elems, Signed;
    MulFits(g.k, g.wgtCols, t);
    ElemsAt(g.wgt, tile, Mul(t, g.wgtCols) + j, l);
    MulAdd(Mul(t, g.wgtCols), j, g.wgt.per);
    MulMul(t, g.wgtCols, g.wgt.per);
  }

  /** A row of the matrix product, one tile further. */
  lemma {:induction false} DotTile(job: Job, kernel: seq<Word>, b: nat, r: nat, i: nat, c: nat, t: nat)
    requires job.Ok() && IsKernel(job, kernel) && b < job.tileCols && r < job.tileRows
    requires i < job.rows && c < job.g.k && t <= job.g.k
    ensures Mul(r, job.g.k) + t <= Mul(job.tileRows, job.g.k) && Mul(b, job.g.k) + c < Mul(job.tileCols, job.g.k)
    ensures var n := Mul(b, job.tileRows) + r;
            && Mul(n, TileSize(job.g)) + TileSize(job.g) <= |kernel|
            && RowDot(Activations(job)[i], WeightMatrix(job, kernel), Mul(b, job.g.k) + c, Mul(r, job.g.k) + t)
               == RowDot(Activations(job)[i], WeightMatrix(job, kernel), Mul(b, job.g.k) + c, Mul(r, job.g.k))
                  + Dot(RowAt(job.g, job.Block(r), i), Elems(job.g.wgt, Tile(job.g, kernel, n)), job.g.k, c, t)
    decreases t
  {
    hide Mul, Elems, Activations, WeightMatrix, RowAt, Tile, At;
    MulFits(job.tileRows, job.g.k, r);
    MulFits(job.tileCols, job.g.k, b);
    DenseVisitAt(job, kernel, b, r);
    if t > 0 {
      DotTile(job, kernel, b, r, i, c, t - 1);
      BlockElem(job, r, i, t - 1);
      WeightElem(job, kernel, b, r, t - 1, c);
    }
  }

  /** The shares of all tiles before tile (r, d) in element (i, c) of column block `b`. */
  ghost function SharesBefore(job: Job, kernel: seq<Word>, b: nat, i: nat, c: nat, d: nat, r: nat): int
    requires job.Ok() && IsKernel(job, kernel) && b < job.tileCols && i < job.rows && c < job.g.k && r <= job.tileRows
  {
    MulFits(job.tileCols, job.g.k, b);
    MulLe(r, job.tileRows, job.g.k);
    var x, w := Activations(job)[i], WeightMatrix(job, kernel);
    if d < b then 0
    else RowDot(x, w, Mul(b, job.g.k) + c, Mul(if d == b then r else job.tileRows, job.g.k))
  }

  lemma {:induction false} DenseShares(job: Job, kernel: seq<Word>, b: nat, i: nat, c: nat, d: nat, r: nat)
    requires job.Ok() && IsKernel(job, kernel) && b < job.tileCols && i < job.rows && c < job.g.k
    requires r <= job.tileRows && (d < job.tileCols || (d == job.tileCols && r == 0))
    ensures var n := Mul(d, job.tileRows) + r;
            n <= Mul(job.tileCols, job.tileRows)
            && Shares(job, DenseVisits(job, kernel)[..n], b, i, c) == SharesBefore(job, kernel, b, i, c, d, r)
    decreases d, r
  {
    hide Mul, Share, Fits, SharesBefore, DenseVisit;
    var vs, n := DenseVisits(job, kernel), Mul(d, job.tileRows) + r;
    DenseRoom(job, d, r);
    if r > 0 {
      DenseShares(job, kernel, b, i, c, d, r - 1);
      assert vs[..n][..n - 1] == vs[..n - 1];
      DenseShare(job, kernel, b, i, c, d, r - 1);
    } else if d > 0 {
      DenseShares(job, kernel, b, i, c, d - 1, job.tileRows);
      MulNext(d - 1, job.tileRows);
      SharesTurn(job, kernel, b, i, c, d);
    } else {
      SharesNone(job, kernel, b, i, c);
    }
  }

  lemma DenseRoom(job: Job, d: nat, r: nat)
    requires r <= job.tileRows && (d < job.tileCols || (d == job.tileCols && r == 0))
    ensures Mul(d, job.tileRows) + r <= Mul(job.tileCols, job.tileRows)
  {
    if d < job.tileCols {
      MulFits(job.tileCols, job.tileRows, d);
    }
  }

  lemma SharesNone(job: Job, kernel: seq<Word>, b: nat, i: nat, c: nat)
    requires job.Ok() && IsKernel(job, kernel) && b < job.tileCols && i < job.rows && c < job.g.k
    ensures Mul(0, job.tileRows) == 0 && SharesBefore(job, kernel, b, i, c, 0, 0) == 0
  {
    hide Activations, WeightMatrix;
  }

  /** The end of one column of tiles is the start of the next. */
  lemma SharesTurn(job: Job, kernel: seq<Word>, b: nat, i: nat, c: nat, d: nat)
    requires job.Ok() && IsKernel(job, kernel) && b < job.tileCols && i < job.rows && c < job.g.k && d > 0
    ensures SharesBefore(job, kernel, b, i, c, d, 0) == SharesBefore(job, kernel, b, i, c, d - 1, job.tileRows)
  {
    hide Activations, WeightMatrix;
  }

  lemma DenseShare(job: Job, kernel: seq<Word>, b: nat, i: nat, c: nat, d: nat, r: nat)
    requires job.Ok() && IsKernel(job, kernel) && b < job.tileCols && i < job.rows && c < job.g.k
    requires r < job.tileRows && d < job.tileCols
    ensures Mul(d, job.tileRows) + r < Mul(job.tileCols, job.tileRows)
    ensures SharesBefore(job, kernel, b, i, c, d, r + 1)
         == SharesBefore(job, kernel, b, i, c, d, r)
            + Share(job, DenseVisit(job, kernel, Mul(d, job.tileRows) + r), b, i, c)
  {
    hide Mul, Activations, WeightMatrix, Tile, Elems, RowAt, Dot;
    DenseVisitAt(job, kernel, d, r);
    if d == b {
      DotTile(job, kernel, b, r, i, c, job.g.k);
      MulNext(r, job.g.k);
    }
  }

  /** One element after the dense walk: the old element plus the matrix product, wrapped to the lane width. */
  lemma DenseElement(job: Job, kernel: seq<Word>, out: seq<Word>, i: nat, e: nat)
    requires job.Ok() && IsKernel(job, kernel) && |out| == job.OutSize()
    requires i < job.rows && e < Mul(job.tileCols, job.g.k)
    ensures OutMatrix(job, Walk(job, out, DenseVisits(job, kernel)))[i][e]
         == Wrap(job.g.act, OutMatrix(job, out)[i][e]
                            + RowDot(Activations(job)[i], WeightMatrix(job, kernel), e, Mul(job.tileRows, job.g.k)))
  {
    hide Mul, Activations, WeightMatrix, Walk, DenseVisits, MatrixOf, Lane, Shares, Signed, Mask;
    var g, y, vs := job.g, ActLayout(job.g), DenseVisits(job, kernel);
    var b, j, l := ColumnSplit(y, job.tileCols, e);
    ColumnFits(y, job.tileCols, b, j, l);
    MatrixAt(y, job.rows, job.tileCols, out, b, i, j, l);
    MatrixAt(y, job.rows, job.tileCols, Walk(job, out, vs), b, i, j, l);
    WalkLane(job, out, vs, b, i, j, l);
    var c := Mul(j, g.act.per) + l;
    DenseShares(job, kernel, b, i, c, job.tileCols, 0);
    assert vs[..Mul(job.tileCols, job.tileRows)] == vs;
    WrapLane(g, Lane(g.act, out[OutPos(job, b, i, j)], l), SharesBefore(job, kernel, b, i, c, job.tileCols, 0));
  }

  lemma WrapLane(g: Geometry, v: int, d: int)
    requires g.act.bits > 0 && 0 <= v < Pow2(g.act.bits)
    ensures Signed(g.act, Mask(g, v + d)) == Wrap(g.act, Signed(g.act, v) + d)
  {
    hide Signed;
    SignedRange(g.act, v);
    ModAddLeft(Signed(g.act, v), d, Pow2(g.act.bits));
  }

  /** The dense walk adds exactly the matrix product to what the output holds. */
  lemma DenseIsMatMulAdd(job: Job, kernel: seq<Word>, out: seq<Word>)
    requires job.Ok() && IsKernel(job, kernel) && |out| == job.OutSize()
    ensures OutMatrix(job, Walk(job, out, DenseVisits(job, kernel)))
         == MatMulAdd(job.g.act, OutMatrix(job, out), Activations(job), WeightMatrix(job, kernel),
                      job.rows, Mul(job.tileRows, job.g.k), Mul(job.tileCols, job.g.k))
  {
    hide Mul, Activations, WeightMatrix, Walk, DenseVisits, OutMatrix, Wrap, RowDot, MatMulAdd;
    var n, m := Mul(job.tileRows, job.g.k), Mul(job.tileCols, job.g.k);
    var a := OutMatrix(job, Walk(job, out, DenseVisits(job, kernel)));
    var p := MatMulAdd(job.g.act, OutMatrix(job, out), Activations(job), WeightMatrix(job, kernel), job.rows, n, m);
    forall i, e | 0 <= i < job.rows && 0 <= e < m
      ensures a[i][e] == p[i][e]
    {
      DenseElement(job, kernel, out, i, e);
    }
    SameEntries(job.rows, m, a, p);
  }

  /** Into a zero output, the dense walk writes exactly the matrix product. */
  lemma DenseIsMatMul(job: Job, kernel: seq<Word>, out: seq<Word>)
    requires job.Ok() && IsKernel(job, kernel) && |out| == job.OutSize() && ZeroTile(out)
    ensures OutMatrix(job, Walk(job, out, DenseVisits(job, kernel)))
         == MatMul(job.g.act, Activations(job), WeightMatrix(job, kernel),
                   job.rows, Mul(job.tileRows, job.g.k), Mul(job.tileCols, job.g.k))
  {
    hide Mul, Activations, WeightMatrix, Walk, DenseVisits, OutMatrix, MatMulAdd, ZeroTile;
    DenseIsMatMulAdd(job, kernel, out);
    ZeroOutput(job, out);
  }

  /** A zero output holds the zero matrix. */
  lemma ZeroOutput(job: Job, out: seq<Word>)
    requires job.Ok() && |out| == job.OutSize() && ZeroTile(out)
    ensures OutMatrix(job, out) == ZeroMatrix(job.rows, Mul(job.tileCols, job.g.k))
  {
    hide Mul, ZeroTile, MatrixOf;
    ZeroBuffer(ActLayout(job.g), job.rows, job.tileCols, out);
  }

  lemma ZeroBuffer(y: Layout, rows: nat, blocks: nat, buf: seq<Word>)
    requires y.Valid() && IsBuffer(y, rows, blocks, buf) && ZeroTile(buf)
    ensures MatrixOf(y, rows, blocks, buf) == ZeroMatrix(rows, Mul(blocks, y.k))
  {
    hide Mul, MatrixOf, Lane;
    var a, z := MatrixOf(y, rows, blocks, buf), ZeroMatrix(rows, Mul(blocks, y.k));
    forall i | 0 <= i < rows
      ensures a[i] == z[i]
    {
      forall e | 0 <= e < Mul(blocks, y.k)
        ensures a[i][e] == 0
      {
        var b, j, l := ColumnSplit(y, blocks, e);
        MatrixAt(y, rows, blocks, buf, b, i, j, l);
        LaneOfZero(y.l, l);
      }
    }
  }
}
