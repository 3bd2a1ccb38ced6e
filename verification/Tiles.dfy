/** The grid of weight tiles in storage order, and the tiles of it that are not all zero. */
module Tiles {
  import opened Arith
  import opened Words
  import opened Machine
  import opened TileProduct
  import opened Walks

  datatype Option<T> = None | Some(value: T)

  ghost predicate IsTileGrid(g: Geometry, tileRows: nat, tileCols: nat, kernel: seq<Word>) {
    |kernel| == Mul(Mul(tileCols, tileRows), TileSize(g))
  }

  /** The n-th tile in storage order. */
  ghost function Tile(g: Geometry, kernel: seq<Word>, n: nat): (t: seq<Word>)
    requires Mul(n, TileSize(g)) + TileSize(g) <= |kernel|
    ensures |t| == TileSize(g)
  {
    kernel[Mul(n, TileSize(g))..Mul(n, TileSize(g)) + TileSize(g)]
  }

  ghost function TileVisit(g: Geometry, tileRows: nat, tileCols: nat, kernel: seq<Word>, n: nat): (v: Visit)
    requires IsTileGrid(g, tileRows, tileCols, kernel) && n < Mul(tileCols, tileRows)
    ensures v.row < tileRows && v.col < tileCols && |v.tile| == TileSize(g)
  {
    DivMul(tileCols, tileRows, n);
    MulFits(Mul(tileCols, tileRows), TileSize(g), n);
    Visit(Col(tileRows, n), n / tileRows, Tile(g, kernel, n))
  }

  /** All tiles in storage order: down each column of tiles, then the next column. */
  ghost function TileVisits(g: Geometry, tileRows: nat, tileCols: nat, kernel: seq<Word>): (vs: seq<Visit>)
    requires IsTileGrid(g, tileRows, tileCols, kernel)
    ensures |vs| == Mul(tileCols, tileRows)
    ensures forall n :: 0 <= n < |vs| ==> vs[n] == TileVisit(g, tileRows, tileCols, kernel, n)
  {
    seq(Mul(tileCols, tileRows), n requires 0 <= n < Mul(tileCols, tileRows) =>
      TileVisit(g, tileRows, tileCols, kernel, n))
  }

  lemma TileVisitAt(g: Geometry, tileRows: nat, tileCols: nat, kernel: seq<Word>, col: nat, row: nat)
    requires IsTileGrid(g, tileRows, tileCols, kernel) && col < tileCols && row < tileRows
    ensures var n := Mul(col, tileRows) + row;
            && n < Mul(tileCols, tileRows)
            && Mul(n, TileSize(g)) + TileSize(g) <= |kernel|
            && TileVisit(g, tileRows, tileCols, kernel, n) == Visit(row, col, Tile(g, kernel, n))
  {
    hide Tile;
    MulFits(tileCols, tileRows, col);
    MulDiv(tileRows, col, row);
    MulFits(Mul(tileCols, tileRows), TileSize(g), Mul(col, tileRows) + row);
  }

  /** The zero test of the encoders: row by row, leaving at the first word that is not zero. */
  method TileAllZeros(g: Geometry, kernel: array<Word>, tileIndex: nat) returns (allZeros: bool)
    requires tileIndex + TileSize(g) <= kernel.Length
    ensures allZeros <==> ZeroTile(kernel[tileIndex..tileIndex + TileSize(g)])
  {
    allZeros := true;
    ghost var tile := kernel[tileIndex..tileIndex + TileSize(g)];
    var ii := 0;
    while ii < g.k
      invariant 0 <= ii <= g.k && Mul(ii, g.wgtCols) <= |tile|
      invariant allZeros && forall p :: 0 <= p < Mul(ii, g.wgtCols) ==> tile[p] == 0
    {
      MulFits(g.k, g.wgtCols, ii);
      var jj := 0;
      while jj < g.wgtCols
        invariant 0 <= jj <= g.wgtCols
        invariant allZeros && forall p :: 0 <= p < Mul(ii, g.wgtCols) + jj ==> tile[p] == 0
      {
        assert kernel[tileIndex + Mul(ii, g.wgtCols) + jj] == tile[Mul(ii, g.wgtCols) + jj];
        if kernel[tileIndex + Mul(ii, g.wgtCols) + jj] != 0 {
          allZeros := false;
          break;
        }
        jj := jj + 1;
      }
      if !allZeros {
        break;
      }
      ii := ii + 1;
    }
  }

  // ----- the tiles that are not all zero, among the first `n` visits

  ghost function Picked(vs: seq<Visit>, n: nat): (r: seq<Visit>)
    requires n <= |vs|
  {
    NonZero(vs[..n])
  }

  lemma PickedNext(vs: seq<Visit>, n: nat)
    requires n < |vs|
    ensures Picked(vs, n + 1) == Picked(vs, n) + if ZeroTile(vs[n].tile) then [] else [vs[n]]
  {
    hide ZeroTile;
    assert vs[..n + 1][..n] == vs[..n];
  }

  lemma PickedAll(vs: seq<Visit>)
    ensures Picked(vs, 0) == [] && Picked(vs, |vs|) == NonZero(vs)
  {
    assert vs[..|vs|] == vs;
  }

  /** Picks are only ever added at the end. */
  lemma {:induction false} PickedPrefix(vs: seq<Visit>, m: nat, n: nat)
    requires m <= n <= |vs|
    ensures Picked(vs, m) <= Picked(vs, n) && |Picked(vs, n)| <= |Picked(vs, m)| + n - m
    decreases n
  {
    hide Picked, ZeroTile;
    if m < n {
      PickedPrefix(vs, m, n - 1);
      PickedNext(vs, n - 1);
    }
  }

  /** A pick made between `m` and `n` is one of the visits between them, and not a zero tile. */
  lemma {:induction false} PickedFrom(vs: seq<Visit>, m: nat, n: nat, q: nat) returns (t: nat)
    requires m <= n <= |vs| && |Picked(vs, m)| <= q < |Picked(vs, n)|
    ensures m <= t < n && Picked(vs, n)[q] == vs[t] && !ZeroTile(vs[t].tile) && q == |Picked(vs, t)|
    decreases n
  {
    hide Picked, ZeroTile;
    if m == n {
      assert false;
    } else {
      PickedNext(vs, n - 1);
      PickedPrefix(vs, m, n - 1);
      if q < |Picked(vs, n - 1)| {
        t := PickedFrom(vs, m, n - 1, q);
      } else {
        t := n - 1;
      }
    }
  }

  // ----- the output after the first `n` visits

  ghost function Walked(job: Job, out: seq<Word>, vs: seq<Visit>, n: nat): (r: seq<Word>)
    requires job.Ok() && |out| == job.OutSize() && AllFit(job, vs) && n <= |vs|
    ensures |r| == |out|
  {
    NonZeroFit(job, vs[..n]);
    Walk(job, out, Picked(vs, n))
  }

  /** A visit adds its tile; if the tile is all zero this changes nothing. */
  lemma WalkedNext(job: Job, out: seq<Word>, vs: seq<Visit>, n: nat)
    requires job.Ok() && |out| == job.OutSize() && AllFit(job, vs) && n < |vs|
    ensures Walked(job, out, vs, n + 1) == AddTile(job, Walked(job, out, vs, n), vs[n])
    ensures ZeroTile(vs[n].tile) ==> Walked(job, out, vs, n + 1) == Walked(job, out, vs, n)
  {
    hide Walk, AddTile, Fits, ZeroTile, Picked;
    PickedNext(vs, n);
    NonZeroFit(job, vs[..n]);
    PickedIs(vs, n);
    if ZeroTile(vs[n].tile) {
      assert Picked(vs, n + 1) == Picked(vs, n);
      AddZeroTile(job, Walked(job, out, vs, n), vs[n]);
    } else {
      WalkNext(job, out, Picked(vs, n), vs[n]);
    }
  }

  lemma PickedIs(vs: seq<Visit>, n: nat)
    requires n <= |vs|
    ensures Picked(vs, n) == NonZero(vs[..n])
  {
  }

  lemma WalkedEnds(job: Job, out: seq<Word>, vs: seq<Visit>)
    requires job.Ok() && |out| == job.OutSize() && AllFit(job, vs)
    ensures Walked(job, out, vs, 0) == out && Walked(job, out, vs, |vs|) == Walk(job, out, vs)
  {
    hide AddTile, Fits, ZeroTile;
    PickedAll(vs);
    SkipZeros(job, out, vs);
  }

  /** A run of zero tiles changes neither the output nor the picks. */
  lemma {:induction false} SkipRange(job: Job, out: seq<Word>, vs: seq<Visit>, m: nat, n: nat)
    requires job.Ok() && |out| == job.OutSize() && AllFit(job, vs) && m <= n <= |vs|
    requires forall t :: m <= t < n ==> ZeroTile(vs[t].tile)
    ensures Walked(job, out, vs, n) == Walked(job, out, vs, m) && Picked(vs, n) == Picked(vs, m)
    decreases n
  {
    hide Walked, Picked, ZeroTile, Fits;
    if m < n {
      SkipRange(job, out, vs, m, n - 1);
      WalkedNext(job, out, vs, n - 1);
      PickedNext(vs, n - 1);
    }
  }
}
