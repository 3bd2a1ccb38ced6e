/**
 * A weight matrix is multiplied tile by tile. A walk is the list of tile visits a format produces; this module
 * says what a walk does to the output, and which differences between walks do not matter.
 */
module Walks {
  import opened Arith
  import opened Words
  import opened Machine
  import opened Wavefront
  import opened Feeding
  import opened TileProduct
  import opened Runs

  /** A tile of weights and its coordinates in the grid of tiles. */
  datatype Visit = Visit(row: nat, col: nat, tile: seq<Word>)

  /** The product to compute: `rows` rows of activations in `tileRows` blocks, and the shape of the tile grid. */
  datatype Job = Job(g: Geometry, rows: nat, tileRows: nat, tileCols: nat, input: seq<Word>) {
    ghost predicate Ok() {
      g.Valid() && |input| == Mul(tileRows, BlockSize(g, rows))
    }

    /** Words of the output. */
    ghost function OutSize(): nat {
      Mul(tileCols, BlockSize(g, rows))
    }

    /** Block `r` of the activations: all rows, K columns. */
    ghost function Block(r: nat): (x: seq<Word>)
      requires Ok() && r < tileRows
      ensures |x| == BlockSize(g, rows)
    {
      var b := BlockSize(g, rows);
      MulFits(tileRows, b, r);
      input[Mul(r, b)..Mul(r, b) + b]
    }
  }

  ghost predicate Fits(job: Job, v: Visit) {
    v.row < job.tileRows && v.col < job.tileCols && IsTile(job.g, v.tile)
  }

  ghost predicate AllFit(job: Job, vs: seq<Visit>) {
    forall i :: 0 <= i < |vs| ==> Fits(job, vs[i])
  }

  /** Add the product of one block of activations with one tile to one block of the output. */
  ghost function AddTile(job: Job, out: seq<Word>, v: Visit): (r: seq<Word>)
    requires job.Ok() && |out| == job.OutSize() && Fits(job, v)
    ensures |r| == |out|
  {
    var b := BlockSize(job.g, job.rows);
    MulFits(job.tileCols, b, v.col);
    AddBlock(job.g.act, out, Mul(v.col, b), Product(job.g, job.Block(v.row), v.tile, job.rows))
  }

  ghost function Walk(job: Job, out: seq<Word>, vs: seq<Visit>): (r: seq<Word>)
    requires job.Ok() && |out| == job.OutSize() && AllFit(job, vs)
    ensures |r| == |out|
  {
    if vs == [] then out else AddTile(job, Walk(job, out, vs[..|vs| - 1]), vs[|vs| - 1])
  }

  lemma WalkNext(job: Job, out: seq<Word>, vs: seq<Visit>, v: Visit)
    requires job.Ok() && |out| == job.OutSize() && AllFit(job, vs) && Fits(job, v)
    ensures AllFit(job, vs + [v]) && Walk(job, out, vs + [v]) == AddTile(job, Walk(job, out, vs), v)
  {
    hide AddTile;
    assert (vs + [v])[..|vs|] == vs;
  }

  // ----- tiles of zeros contribute nothing

  ghost predicate ZeroTile(tile: seq<Word>) {
    forall i :: 0 <= i < |tile| ==> tile[i] == 0
  }

  lemma {:induction false} ZeroDot(x: seq<int>, w: seq<int>, k: nat, c: nat, n: nat)
    requires n <= |x| && forall p :: 0 <= p < |w| ==> w[p] == 0
    ensures Dot(x, w, k, c, n) == 0
  {
    if n > 0 {
      ZeroDot(x, w, k, c, n - 1);
      assert x[n - 1] * At(w, k, n - 1, c) == 0;
    }
  }

  lemma ZeroElems(l: Lanes, ws: seq<Word>)
    requires l.Valid() && ZeroTile(ws)
    ensures forall p :: 0 <= p < |Elems(l, ws)| ==> Elems(l, ws)[p] == 0
  {
    hide Elems, Lane, Mul;
    forall p | 0 <= p < |Elems(l, ws)|
      ensures Elems(l, ws)[p] == 0
    {
      var j, n := MulSplit(|ws|, l.per, p);
      ElemsAt(l, ws, j, n);
      LaneOfZero(l, n);
    }
  }

  lemma ZeroProduct(g: Geometry, x: seq<Word>, tile: seq<Word>, rows: nat, q: nat)
    requires g.Valid() && ZeroTile(tile) && q < BlockSize(g, rows)
    ensures Product(g, x, tile, rows)[q] == 0
  {
    hide Product, Lane, RowAt, Elems, Mul, Dot;
    var i, j := MulSplit(rows, g.actCols, q);
    ZeroElems(g.wgt, tile);
    var y := Product(g, x, tile, rows)[q];
    forall l | 0 <= l < g.act.per
      ensures Lane(g.act, y, l) == Lane(g.act, 0, l)
    {
      ProductLane(g, x, tile, rows, i, j, l);
      ZeroDot(RowAt(g, x, i), Elems(g.wgt, tile), g.k, Mul(j, g.act.per) + l, g.k);
      DivModUnique(0, Pow2(g.act.bits), 0, 0);
      LaneOfZero(g.act, l);
    }
    SameLanes(g.act, y, 0);
  }

  lemma AddZeroTile(job: Job, out: seq<Word>, v: Visit)
    requires job.Ok() && |out| == job.OutSize() && Fits(job, v) && ZeroTile(v.tile)
    ensures AddTile(job, out, v) == out
  {
    hide Product, AddLanes, Mul;
    var b, r := BlockSize(job.g, job.rows), AddTile(job, out, v);
    forall p | 0 <= p < |out|
      ensures r[p] == out[p]
    {
      if Mul(v.col, b) <= p < Mul(v.col, b) + b {
        ZeroProduct(job.g, job.Block(v.row), v.tile, job.rows, p - Mul(v.col, b));
        AddZero(job.g.act, out[p]);
      }
    }
  }

  /** The visits whose tile is not all zero, in order. */
  ghost function NonZero(vs: seq<Visit>): (r: seq<Visit>) {
    if vs == [] then []
    else NonZero(vs[..|vs| - 1]) + if ZeroTile(vs[|vs| - 1].tile) then [] else [vs[|vs| - 1]]
  }

  lemma {:induction false} NonZeroFit(job: Job, vs: seq<Visit>)
    requires AllFit(job, vs)
    ensures AllFit(job, NonZero(vs))
  {
    hide Fits, ZeroTile;
    if vs != [] {
      NonZeroFit(job, vs[..|vs| - 1]);
    }
  }

  /** Skipping zero tiles does not change the result. */
  lemma {:induction false} SkipZeros(job: Job, out: seq<Word>, vs: seq<Visit>)
    requires job.Ok() && |out| == job.OutSize() && AllFit(job, vs)
    ensures AllFit(job, NonZero(vs)) && Walk(job, out, NonZero(vs)) == Walk(job, out, vs)
  {
    hide Fits, ZeroTile, AddTile;
    NonZeroFit(job, vs);
    if vs != [] {
      var hd, v := vs[..|vs| - 1], vs[|vs| - 1];
      NonZeroFit(job, hd);
      SkipZeros(job, out, hd);
      if ZeroTile(v.tile) {
        assert NonZero(vs) == NonZero(hd);
        AddZeroTile(job, Walk(job, out, hd), v);
      } else {
        WalkNext(job, out, NonZero(hd), v);
      }
    }
  }

  // ----- the order of the visits does not matter

  lemma AddTileSwap(job: Job, out: seq<Word>, v: Visit, w: Visit)
    requires job.Ok() && |out| == job.OutSize() && Fits(job, v) && Fits(job, w)
    ensures AddTile(job, AddTile(job, out, v), w) == AddTile(job, AddTile(job, out, w), v)
  {
    hide Product, AddLanes, Mul;
    var vw, wv := AddTile(job, AddTile(job, out, v), w), AddTile(job, AddTile(job, out, w), v);
    var b := BlockSize(job.g, job.rows);
    var pv, pw := Product(job.g, job.Block(v.row), v.tile, job.rows), Product(job.g, job.Block(w.row), w.tile, job.rows);
    forall p | 0 <= p < |out|
      ensures vw[p] == wv[p]
    {
      if Mul(v.col, b) <= p < Mul(v.col, b) + b && Mul(w.col, b) <= p < Mul(w.col, b) + b {
        AddSwap(job.g.act, out[p], pv[p - Mul(v.col, b)], pw[p - Mul(w.col, b)]);
      }
    }
  }

  /** A visit can be moved to the end of the walk. */
  lemma {:induction false} MoveToEnd(job: Job, out: seq<Word>, a: seq<Visit>, v: Visit, b: seq<Visit>)
    requires job.Ok() && |out| == job.OutSize() && AllFit(job, a) && Fits(job, v) && AllFit(job, b)
    ensures AllFit(job, a + [v] + b) && AllFit(job, a + b)
    ensures Walk(job, out, a + [v] + b) == AddTile(job, Walk(job, out, a + b), v)
    decreases |b|
  {
    hide Fits, AddTile;
    if b == [] {
      assert a + [v] + b == a + [v] && a + b == a;
      WalkNext(job, out, a, v);
    } else {
      var hd, w := b[..|b| - 1], b[|b| - 1];
      MoveToEnd(job, out, a, v, hd);
      assert a + [v] + b == a + [v] + hd + [w] && a + b == a + hd + [w];
      WalkNext(job, out, a + [v] + hd, w);
      WalkNext(job, out, a + hd, w);
      AddTileSwap(job, Walk(job, out, a + hd), v, w);
    }
  }

  lemma TakeOut(vs: seq<Visit>, ws: seq<Visit>) returns (a: seq<Visit>, b: seq<Visit>)
    requires |vs| > 0 && multiset(vs) == multiset(ws)
    ensures ws == a + [vs[|vs| - 1]] + b && multiset(a + b) == multiset(vs[..|vs| - 1])
  {
    var hd, v := vs[..|vs| - 1], vs[|vs| - 1];
    assert vs == hd + [v];
    assert v in multiset(ws);
    var i :| 0 <= i < |ws| && ws[i] == v;
    a, b := ws[..i], ws[i + 1..];
    assert ws == a + [v] + b;
    assert multiset(ws) == multiset(a) + multiset{v} + multiset(b);
    assert multiset(a + b) == multiset(a) + multiset(b);
    Cancel(multiset(a + b), multiset(hd), v);
  }

  lemma Cancel(a: multiset<Visit>, b: multiset<Visit>, v: Visit)
    requires a + multiset{v} == b + multiset{v}
    ensures a == b
  {
    forall x: Visit
      ensures a[x] == b[x]
    {
      assert (a + multiset{v})[x] == (b + multiset{v})[x];
    }
  }

  /** Walks over the same visits, in any order, have the same result. */
  lemma {:induction false} AnyOrder(job: Job, out: seq<Word>, vs: seq<Visit>, ws: seq<Visit>)
    requires job.Ok() && |out| == job.OutSize() && AllFit(job, vs) && AllFit(job, ws)
    requires multiset(vs) == multiset(ws)
    ensures Walk(job, out, vs) == Walk(job, out, ws)
    decreases |vs|
  {
    hide Fits, AddTile;
    if vs == [] {
      assert |multiset(ws)| == 0;
    } else {
      var a, b := TakeOut(vs, ws);
      assert forall i :: 0 <= i < |a| ==> a[i] == ws[i];
      assert forall i :: 0 <= i < |b| ==> b[i] == ws[|a| + 1 + i];
      MoveToEnd(job, out, a, vs[|vs| - 1], b);
      AnyOrder(job, out, vs[..|vs| - 1], a + b);
    }
  }

  // ----- what the tile driver does, as a step of a walk

  /** In an aligned geometry one run of the driver is one visit. */
  lemma DriverVisits(job: Job, m: State, out: seq<Word>, v: Visit)
    requires job.Ok() && |out| == job.OutSize() && Fits(job, v)
    requires Aligned(job.g) && Shaped(job.g, m) && ZeroTop(job.g, m)
    ensures Mul(v.row + 1, BlockSize(job.g, job.rows)) <= |job.input|
    ensures Mul(v.col + 1, BlockSize(job.g, job.rows)) <= |out|
    ensures DriverOutput(job.g, m, job.rows, out, job.input, v.row, v.col, v.tile) == AddTile(job, out, v)
  {
    hide KeptWords, Product, AddBlock, Aligned, Shaped, ZeroTop, Elems, Mul;
    var b := BlockSize(job.g, job.rows);
    MulFits(job.tileRows, b, v.row);
    MulFits(job.tileCols, b, v.col);
    MulNext(v.row, b);
    MulNext(v.col, b);
    LoadingTop(job.g, m, v.tile);
    KeptIsProduct(job.g, Loading(job.g, m, v.tile), job.Block(v.row), v.tile, job.rows);
  }
}
