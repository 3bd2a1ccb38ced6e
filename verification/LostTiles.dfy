/**
 * What a wrong decoding does to the product: if a tile that is not all zero is never visited, there is an input
 * whose product shows it. So the two formats that can lose tiles are right exactly when they lose none.
 */
module LostTiles {
  import opened Arith
  import opened Words
  import opened Machine
  import opened Wavefront
  import opened Feeding
  import opened TileProduct
  import opened Walks
  import opened Tiles
  import opened DenseProduct
  import opened Misaligned
  import opened HiddenKey
  import opened Interleaved
  import opened InterleavedEncoder
  import opened InterleavedLimits
  import opened Multiplier
  import Bits

  /** The shape of a product. */
  datatype Dims = Dims(g: Geometry, rows: nat, tileRows: nat, tileCols: nat) {
    ghost function With(input: seq<Word>): Job {
      Job(g, rows, tileRows, tileCols, input)
    }
  }

  ghost predicate SameOn(d: Dims, vs: seq<Visit>, ws: seq<Visit>, input: seq<Word>, out: seq<Word>) {
    var job := d.With(input);
    job.Ok() && |out| == job.OutSize() && AllFit(job, vs) && AllFit(job, ws) ==> Walk(job, out, vs) == Walk(job, out, ws)
  }

  /** The two walks have the same result on every input and output. */
  ghost predicate SameProducts(d: Dims, vs: seq<Visit>, ws: seq<Visit>) {
    forall input, out :: SameOn(d, vs, ws, input, out)
  }

  // ----- an input with a single element

  /** Zeros but for lane `l` of word `j` of row 0 of block `r`. */
  ghost function Probe(d: Dims, r: nat, j: nat, l: nat): (x: seq<Word>)
    requires d.g.Valid() && d.rows > 0 && r < d.tileRows && j < d.g.actCols && l < d.g.act.per
    ensures d.With(x).Ok()
  {
    var b := BlockSize(d.g, d.rows);
    MulFits(d.tileRows, b, r);
    MulFits(d.rows, d.g.actCols, 0);
    ZeroWords(Mul(d.tileRows, b))[Mul(r, b) + j := UnitWord(d.g.act, l)]
  }

  /** Row 0 of block `r` has one element that is not zero, the other blocks have none. */
  lemma ProbeRow(d: Dims, r: nat, j: nat, l: nat, s: nat, p: nat)
    requires d.g.Valid() && d.rows > 0 && r < d.tileRows && j < d.g.actCols && l < d.g.act.per && s < d.tileRows && p < d.g.k
    ensures var x := RowAt(d.g, d.With(Probe(d, r, j, l)).Block(s), 0)[p];
            && (x != 0 <==> s == r && p == Mul(j, d.g.act.per) + l)
            && (x == -1 || x == 0 || x == 1)
  {
    hide Elems, UnitWord, Mul, Lane;
    var g, b, input := d.g, BlockSize(d.g, d.rows), Probe(d, r, j, l);
    MulFits(d.tileRows, b, r);
    MulFits(d.tileRows, b, s);
    MulFits(d.rows, g.actCols, 0);
    MulNone(g.actCols);
    var block := d.With(input).Block(s);
    var ws := Window(block, 0, g.actCols);
    if s == r {
      assert ws == ZeroWords(|ws|)[j := UnitWord(g.act, l)];
      UnitElems(g.act, ws, j, l, p);
    } else {
      OtherBlock(d, r, j, l, s);
      ZeroElems(g.act, ws);
    }
  }

  lemma OtherBlock(d: Dims, r: nat, j: nat, l: nat, s: nat)
    requires d.g.Valid() && d.rows > 0 && r < d.tileRows && j < d.g.actCols && l < d.g.act.per && s < d.tileRows && s != r
    ensures ZeroTile(Window(d.With(Probe(d, r, j, l)).Block(s), 0, d.g.actCols))
  {
    hide UnitWord, Mul;
    var g, b, input := d.g, BlockSize(d.g, d.rows), Probe(d, r, j, l);
    MulFits(d.tileRows, b, r);
    MulFits(d.tileRows, b, s);
    MulFits(d.rows, g.actCols, 0);
    MulNone(g.actCols);
    var ws := Window(d.With(input).Block(s), 0, g.actCols);
    forall i | 0 <= i < |ws|
      ensures ws[i] == 0
    {
      if Mul(s, b) + i == Mul(r, b) + j {
        MulUnique(b, s, i, r, j);
      }
    }
  }

  lemma {:induction false} UnitDot(x: seq<int>, w: seq<int>, k: nat, c: nat, t: nat, n: nat)
    requires n <= |x| && t < |x| && forall p :: 0 <= p < |x| && p != t ==> x[p] == 0
    ensures Dot(x, w, k, c, n) == if t < n then x[t] * At(w, k, t, c) else 0
  {
    hide At;
    if n > 0 {
      UnitDot(x, w, k, c, t, n - 1);
    }
  }

  /** A visit contributes the probed weight if it is a visit of the probed tile, and nothing otherwise. */
  lemma ProbeShare(d: Dims, r: nat, j: nat, l: nat, v: Visit, b: nat, c: nat)
    requires d.g.Valid() && d.rows > 0 && r < d.tileRows && j < d.g.actCols && l < d.g.act.per
    requires Fits(d.With(Probe(d, r, j, l)), v) && c < d.g.k
    ensures Mul(j, d.g.act.per) + l < d.g.k
    ensures var job, t := d.With(Probe(d, r, j, l)), Mul(j, d.g.act.per) + l;
            && (v.row != r || v.col != b ==> Share(job, v, b, 0, c) == 0)
            && (v.row == r && v.col == b ==>
                  || Share(job, v, b, 0, c) == At(Elems(d.g.wgt, v.tile), d.g.k, t, c)
                  || Share(job, v, b, 0, c) == -At(Elems(d.g.wgt, v.tile), d.g.k, t, c))
  {
    hide Elems, RowAt, Probe, At, Mul;
    IndexRoom(d.g, j);
    var job, t := d.With(Probe(d, r, j, l)), Mul(j, d.g.act.per) + l;
    if v.col == b {
      var x := RowAt(d.g, job.Block(v.row), 0);
      forall p | 0 <= p < d.g.k
        ensures p != t ==> x[p] == 0
        ensures v.row != r ==> x[p] == 0
        ensures x[p] == -1 || x[p] == 0 || x[p] == 1
        ensures v.row == r && p == t ==> x[p] != 0
      {
        ProbeRow(d, r, j, l, v.row, p);
      }
      UnitDot(x, Elems(d.g.wgt, v.tile), d.g.k, c, t, d.g.k);
      UnitTimes(x[t], At(Elems(d.g.wgt, v.tile), d.g.k, t, c));
    }
  }

  lemma UnitTimes(a: int, w: int)
    requires a == -1 || a == 0 || a == 1
    ensures a == 0 ==> a * w == 0
    ensures a == 1 ==> a * w == w
    ensures a == -1 ==> a * w == -w
  {
  }

  // ----- sums of shares

  lemma {:induction false} NoShares(job: Job, vs: seq<Visit>, b: nat, i: nat, c: nat)
    requires job.Ok() && AllFit(job, vs) && forall n :: 0 <= n < |vs| ==> Share(job, vs[n], b, i, c) == 0
    ensures Shares(job, vs, b, i, c) == 0
  {
    hide Share, Fits;
    if vs != [] {
      NoShares(job, vs[..|vs| - 1], b, i, c);
    }
  }

  lemma {:induction false} OneShare(job: Job, vs: seq<Visit>, b: nat, i: nat, c: nat, n: nat)
    requires job.Ok() && AllFit(job, vs) && n < |vs|
    requires forall m :: 0 <= m < |vs| && m != n ==> Share(job, vs[m], b, i, c) == 0
    ensures Shares(job, vs, b, i, c) == Share(job, vs[n], b, i, c)
  {
    hide Share, Fits;
    var hd := vs[..|vs| - 1];
    if n == |vs| - 1 {
      NoShares(job, hd, b, i, c);
    } else {
      OneShare(job, hd, b, i, c, n);
    }
  }

  // ----- a weight that is not zero

  lemma ZeroLanes(l: Lanes, x: Word)
    requires l.Valid()
    ensures (forall i :: 0 <= i < l.per ==> Lane(l, x, i) == 0) ==> x == 0
  {
    hide Lane;
    if forall i :: 0 <= i < l.per ==> Lane(l, x, i) == 0 {
      forall i | 0 <= i < l.per
        ensures Lane(l, x, i) == Lane(l, 0, i)
      {
        LaneOfZero(l, i);
      }
      SameLanes(l, x, 0);
    }
  }

  lemma NonZeroLane(l: Lanes, x: Word) returns (n: nat)
    requires l.Valid() && x != 0
    ensures n < l.per && Signed(l, Lane(l, x, n)) != 0
  {
    hide Lane;
    ZeroLanes(l, x);
    n :| 0 <= n < l.per && Lane(l, x, n) != 0;
  }

  /** A tile that is not all zero has a weight that is not zero. */
  lemma NonZeroWeight(g: Geometry, tile: seq<Word>) returns (t: nat, c: nat)
    requires g.Valid() && IsTile(g, tile) && !ZeroTile(tile)
    ensures t < g.k && c < g.k && At(Elems(g.wgt, tile), g.k, t, c) != 0
    ensures -Pow2(g.wgt.bits - 1) <= At(Elems(g.wgt, tile), g.k, t, c) <= Pow2(g.wgt.bits - 1)
  {
    hide Elems, Lane, Mul, Signed;
    var a :| 0 <= a < |tile| && tile[a] != 0;
    var b := NonZeroLane(g.wgt, tile[a]);
    ElemsAt(g.wgt, tile, a, b);
    TileRoom(g);
    t, c := MulSplit(g.k, g.k, Mul(a, g.wgt.per) + b);
    SignedRange(g.wgt, Lane(g.wgt, tile[a], b));
  }

  lemma MaskNonZero(g: Geometry, w: int)
    requires g.Valid() && g.wgt.bits <= g.act.bits && w != 0 && -Pow2(g.wgt.bits - 1) <= w <= Pow2(g.wgt.bits - 1)
    ensures Mask(g, w) != 0
  {
    Pow2Mono(g.wgt.bits - 1, g.act.bits - 1);
    var p := Pow2(g.act.bits);
    assert p == 2 * Pow2(g.act.bits - 1);
    if w > 0 {
      DivModUnique(w, p, 0, w);
    } else {
      DivModUnique(w, p, -1, w + p);
    }
  }

  // ----- a tile that is never visited

  ghost predicate Unvisited(ds: seq<Visit>, v: Visit) {
    forall i :: 0 <= i < |ds| ==> ds[i].row != v.row || ds[i].col != v.col
  }

  /** The tiles of a kernel have different coordinates. */
  lemma DenseDiffer(d: Dims, kernel: seq<Word>, m: nat, n: nat)
    requires IsTileGrid(d.g, d.tileRows, d.tileCols, kernel) && m < n < Mul(d.tileCols, d.tileRows)
    ensures var vs := TileVisits(d.g, d.tileRows, d.tileCols, kernel);
            vs[m].row != vs[n].row || vs[m].col != vs[n].col
  {
    hide Mul, Tile;
    DivMul(d.tileCols, d.tileRows, m);
    DivMul(d.tileCols, d.tileRows, n);
  }

  /** The lane of the output that shows a probed weight. */
  lemma ProbeLanes(d: Dims, r: nat, j: nat, l: nat, vs: seq<Visit>, b: nat, c: nat, a: nat, e: nat)
    requires d.g.Valid() && d.rows > 0 && r < d.tileRows && j < d.g.actCols && l < d.g.act.per
    requires AllFit(d.With(Probe(d, r, j, l)), vs) && b < d.tileCols && a < d.g.actCols && e < d.g.act.per && c == Mul(a, d.g.act.per) + e
    ensures var job := d.With(Probe(d, r, j, l)); var out := ZeroWords(job.OutSize());
            && DenseProduct.OutPos(job, b, 0, a) < |out|
            && Lane(d.g.act, Walk(job, out, vs)[DenseProduct.OutPos(job, b, 0, a)], e) == Mask(d.g, Shares(job, vs, b, 0, c))
  {
    hide Lane, Walk, Shares, Mul, Probe, Mask;
    var job := d.With(Probe(d, r, j, l));
    WalkLane(job, ZeroWords(job.OutSize()), vs, b, 0, a, e);
    LaneOfZero(d.g.act, e);
  }

  /** If a tile that is not all zero is not visited, some product is wrong. */
  lemma LostTileShows(d: Dims, kernel: seq<Word>, ds: seq<Visit>, n: nat)
    requires d.g.Valid() && d.rows > 0 && d.g.wgt.bits <= d.g.act.bits
    requires IsTileGrid(d.g, d.tileRows, d.tileCols, kernel) && n < Mul(d.tileCols, d.tileRows)
    requires var vs := TileVisits(d.g, d.tileRows, d.tileCols, kernel);
             !ZeroTile(vs[n].tile) && Unvisited(ds, vs[n]) && AllFit(d.With([]), ds)
    ensures !SameProducts(d, ds, TileVisits(d.g, d.tileRows, d.tileCols, kernel))
  {
    hide Mul, Elems, Lane, Walk, Mask, Shares, Share, ZeroTile, At, TileVisit, ZeroWords, DenseProduct.OutPos;
    var g, vs := d.g, TileVisits(d.g, d.tileRows, d.tileCols, kernel);
    var r, b := vs[n].row, vs[n].col;
    TileIsTile(d, kernel, n);
    var t, c := NonZeroWeight(g, vs[n].tile);
    var j, l := MulSplit(g.actCols, g.act.per, t);
    var a, e := MulSplit(g.actCols, g.act.per, c);
    var input := Probe(d, r, j, l);
    var job := d.With(input);
    var out := ZeroWords(job.OutSize());
    FitsAgain(d, ds, input);
    DenseFits(d, kernel, input);
    LostShares(d, r, j, l, ds, vs[n], b, c);
    FoundShares(d, kernel, n, j, l, c);
    ProbeLanes(d, r, j, l, ds, b, c, a, e);
    ProbeLanes(d, r, j, l, vs, b, c, a, e);
    MaskSmall(g, 0);
    MaskNonZero(g, At(Elems(g.wgt, vs[n].tile), g.k, t, c));
    MaskNonZero(g, -At(Elems(g.wgt, vs[n].tile), g.k, t, c));
    assert !SameOn(d, ds, vs, input, out);
  }

  lemma TileIsTile(d: Dims, kernel: seq<Word>, n: nat)
    requires d.g.Valid() && IsTileGrid(d.g, d.tileRows, d.tileCols, kernel) && n < Mul(d.tileCols, d.tileRows)
    ensures var v := TileVisits(d.g, d.tileRows, d.tileCols, kernel)[n];
            IsTile(d.g, v.tile) && v.row < d.tileRows && v.col < d.tileCols
  {
    hide Mul, Tile;
  }

  /** Whether visits fit does not depend on the input. */
  lemma FitsAgain(d: Dims, ds: seq<Visit>, input: seq<Word>)
    requires AllFit(d.With([]), ds)
    ensures AllFit(d.With(input), ds)
  {
    forall i | 0 <= i < |ds|
      ensures Fits(d.With(input), ds[i])
    {
      assert Fits(d.With([]), ds[i]);
    }
  }

  lemma DenseFits(d: Dims, kernel: seq<Word>, input: seq<Word>)
    requires d.g.Valid() && IsTileGrid(d.g, d.tileRows, d.tileCols, kernel)
    ensures AllFit(d.With(input), TileVisits(d.g, d.tileRows, d.tileCols, kernel))
  {
    hide Mul, TileVisit;
    var vs := TileVisits(d.g, d.tileRows, d.tileCols, kernel);
    forall n | 0 <= n < |vs|
      ensures Fits(d.With(input), vs[n])
    {
      TileIsTile(d, kernel, n);
    }
  }

  lemma LostShares(d: Dims, r: nat, j: nat, l: nat, ds: seq<Visit>, v: Visit, b: nat, c: nat)
    requires d.g.Valid() && d.rows > 0 && r < d.tileRows && j < d.g.actCols && l < d.g.act.per && c < d.g.k
    requires AllFit(d.With(Probe(d, r, j, l)), ds) && v.row == r && v.col == b && Unvisited(ds, v)
    ensures Shares(d.With(Probe(d, r, j, l)), ds, b, 0, c) == 0
  {
    hide Share, Probe, Mul, Fits;
    var job := d.With(Probe(d, r, j, l));
    forall i | 0 <= i < |ds|
      ensures Share(job, ds[i], b, 0, c) == 0
    {
      ProbeShare(d, r, j, l, ds[i], b, c);
    }
    NoShares(job, ds, b, 0, c);
  }

  lemma FoundShares(d: Dims, kernel: seq<Word>, n: nat, j: nat, l: nat, c: nat)
    requires d.g.Valid() && d.rows > 0 && j < d.g.actCols && l < d.g.act.per && c < d.g.k
    requires IsTileGrid(d.g, d.tileRows, d.tileCols, kernel) && n < Mul(d.tileCols, d.tileRows)
    ensures Mul(j, d.g.act.per) + l < d.g.k
    ensures var vs := TileVisits(d.g, d.tileRows, d.tileCols, kernel);
            vs[n].row < d.tileRows && AllFit(d.With(Probe(d, vs[n].row, j, l)), vs)
    ensures var vs := TileVisits(d.g, d.tileRows, d.tileCols, kernel);
            var s := Shares(d.With(Probe(d, vs[n].row, j, l)), vs, vs[n].col, 0, c);
            var w := At(Elems(d.g.wgt, vs[n].tile), d.g.k, Mul(j, d.g.act.per) + l, c);
            s == w || s == -w
  {
    hide Share, Probe, Mul, Fits, TileVisit, Elems, At;
    var vs := TileVisits(d.g, d.tileRows, d.tileCols, kernel);
    TileIsTile(d, kernel, n);
    var r, b := vs[n].row, vs[n].col;
    var job := d.With(Probe(d, r, j, l));
    DenseFits(d, kernel, Probe(d, r, j, l));
    forall m | 0 <= m < |vs| && m != n
      ensures Share(job, vs[m], b, 0, c) == 0
    {
      if m < n {
        DenseDiffer(d, kernel, m, n);
      } else {
        DenseDiffer(d, kernel, n, m);
      }
      ProbeShare(d, r, j, l, vs[m], b, c);
    }
    ProbeShare(d, r, j, l, vs[n], b, c);
    OneShare(job, vs, b, 0, c, n);
  }

  // ----- the hidden key

  /** A visit's place in storage order. */
  ghost function Place(d: Dims, v: Visit): nat {
    Mul(v.col, d.tileRows) + v.row
  }

  lemma {:induction false} DecodedPlaces(d: Dims, key: Word, words: seq<Word>, n: nat, pos: nat, v: Visit)
    requires var r := Decoded(d.g, d.tileRows, d.tileCols, key, words, n, pos); r.Some? && v in r.value
    ensures Place(d, v) >= n
    decreases Mul(d.tileCols, d.tileRows) - n
  {
    hide Mul;
    if n < Mul(d.tileCols, d.tileRows) {
      DivMul(d.tileCols, d.tileRows, n);
      if words[pos] == key {
        DecodedPlaces(d, key, words, n + 1, pos + 1, v);
      } else if v != Visit(Col(d.tileRows, n), n / d.tileRows, words[pos..pos + TileSize(d.g)]) {
        DecodedPlaces(d, key, words, n + 1, pos + TileSize(d.g), v);
      }
    }
  }

  /** Up to a first collision the decoder is in step; the colliding tile it never visits. */
  lemma {:induction false} NotDecoded(d: Dims, kernel: seq<Word>, key: Word, words: seq<Word>, n: nat, bad: nat, v: Visit)
    requires TileSize(d.g) >= 1 && IsTileGrid(d.g, d.tileRows, d.tileCols, kernel)
    requires var vs := TileVisits(d.g, d.tileRows, d.tileCols, kernel);
             && n <= bad < |vs| && Encoded(vs, key, |vs|) <= words && Collides(vs, key, bad)
             && (forall i :: n <= i < bad ==> !Collides(vs, key, i))
             && var r := Decoded(d.g, d.tileRows, d.tileCols, key, words, n, |Encoded(vs, key, n)|); r.Some? && v in r.value
    ensures Place(d, v) != bad
    decreases bad - n
  {
    hide Mul, Encoded, ZeroTile, TileVisit;
    var vs := TileVisits(d.g, d.tileRows, d.tileCols, kernel);
    if n == bad {
      NextWords(d.g, vs, key, words, n);
      DecodedPlaces(d, key, words, n + 1, |Encoded(vs, key, n)| + 1, v);
    } else {
      StepInStep(d.g, d.tileRows, d.tileCols, kernel, key, words, n);
      if !ZeroTile(vs[n].tile) && v == vs[n] {
        PlaceOf(d, kernel, n);
      } else {
        NotDecoded(d, kernel, key, words, n + 1, bad, v);
      }
    }
  }

  lemma PlaceOf(d: Dims, kernel: seq<Word>, n: nat)
    requires IsTileGrid(d.g, d.tileRows, d.tileCols, kernel) && n < Mul(d.tileCols, d.tileRows)
    ensures Place(d, TileVisits(d.g, d.tileRows, d.tileCols, kernel)[n]) == n
  {
    hide Mul, Tile;
    DivMul(d.tileCols, d.tileRows, n);
  }

  /**
   * Whatever the decoder makes of an encoded kernel, its product is right for every input if and only if no tile
   * that is not all zero starts with the key. Weights must not be wider than activations, or they are cut down.
   */
  lemma HiddenKeyProducts(d: Dims, kernel: seq<Word>, key: Word, words: seq<Word>)
    requires d.g.Valid() && d.rows > 0 && d.g.wgt.bits <= d.g.act.bits
    requires IsTileGrid(d.g, d.tileRows, d.tileCols, kernel)
    requires var vs := TileVisits(d.g, d.tileRows, d.tileCols, kernel); Encoded(vs, key, |vs|) <= words
    requires Decoded(d.g, d.tileRows, d.tileCols, key, words, 0, 0).Some?
    ensures var vs := TileVisits(d.g, d.tileRows, d.tileCols, kernel);
            SameProducts(d, Decoded(d.g, d.tileRows, d.tileCols, key, words, 0, 0).value, vs)
            <==> forall i :: 0 <= i < |vs| ==> !Collides(vs, key, i)
  {
    hide Mul, Encoded, Decoded, Collides, TileVisit, Walk, SameOn;
    var vs, ds := TileVisits(d.g, d.tileRows, d.tileCols, kernel), Decoded(d.g, d.tileRows, d.tileCols, key, words, 0, 0).value;
    if forall i :: 0 <= i < |vs| ==> !Collides(vs, key, i) {
      HiddenKeyExact(d.g, d.tileRows, d.tileCols, kernel, key, words);
      NonZeroSame(d, vs);
    } else {
      var bad := FirstCollision(vs, key, 0);
      HiddenKeyLoses(d, kernel, key, words, bad);
    }
  }

  /** Dropping zero tiles changes no product. */
  lemma NonZeroSame(d: Dims, vs: seq<Visit>)
    ensures SameProducts(d, NonZero(vs), vs)
  {
    hide Walk, Fits;
    forall input, out
      ensures SameOn(d, NonZero(vs), vs, input, out)
    {
      var job := d.With(input);
      if job.Ok() && |out| == job.OutSize() && AllFit(job, vs) {
        SkipZeros(job, out, vs);
      }
    }
  }

  lemma HiddenKeyLoses(d: Dims, kernel: seq<Word>, key: Word, words: seq<Word>, bad: nat)
    requires d.g.Valid() && d.rows > 0 && d.g.wgt.bits <= d.g.act.bits
    requires IsTileGrid(d.g, d.tileRows, d.tileCols, kernel)
    requires var vs := TileVisits(d.g, d.tileRows, d.tileCols, kernel);
             && Encoded(vs, key, |vs|) <= words && bad < |vs| && Collides(vs, key, bad)
             && forall i :: 0 <= i < bad ==> !Collides(vs, key, i)
    requires Decoded(d.g, d.tileRows, d.tileCols, key, words, 0, 0).Some?
    ensures !SameProducts(d, Decoded(d.g, d.tileRows, d.tileCols, key, words, 0, 0).value,
                          TileVisits(d.g, d.tileRows, d.tileCols, kernel))
  {
    hide Mul, Encoded, Decoded, TileVisit, SameProducts, ZeroTile;
    var vs, ds := TileVisits(d.g, d.tileRows, d.tileCols, kernel), Decoded(d.g, d.tileRows, d.tileCols, key, words, 0, 0).value;
    TileSizePositive(d.g);
    EncodedNone(vs, key);
    forall i | 0 <= i < |ds|
      ensures ds[i].row != vs[bad].row || ds[i].col != vs[bad].col
    {
      NotDecoded(d, kernel, key, words, 0, bad, ds[i]);
      PlaceOf(d, kernel, bad);
    }
    DecodedFits(d, key, words);
    LostTileShows(d, kernel, ds, bad);
  }

  lemma DecodedFits(d: Dims, key: Word, words: seq<Word>)
    requires d.g.Valid() && Decoded(d.g, d.tileRows, d.tileCols, key, words, 0, 0).Some?
    ensures AllFit(d.With([]), Decoded(d.g, d.tileRows, d.tileCols, key, words, 0, 0).value)
  {
    hide Decoded;
    var none := ZeroWords(Mul(d.tileRows, BlockSize(d.g, d.rows)));
    DecodedFit(d.With(none), key, words, 0, 0);
    var ds := Decoded(d.g, d.tileRows, d.tileCols, key, words, 0, 0).value;
    forall i | 0 <= i < |ds|
      ensures Fits(d.With([]), ds[i])
    {
      assert Fits(d.With(none), ds[i]);
    }
  }

  // ----- interleaved bitmaps

  /** The last tile of a column that is not all zero. */
  lemma {:induction false} LastTile(vs: seq<Visit>, tileRows: nat, j: nat, i: nat) returns (last: nat)
    requires Present(vs, tileRows, j, i)
    ensures i <= last < tileRows && Present(vs, tileRows, j, last)
    ensures forall b :: last < b < tileRows ==> !Present(vs, tileRows, j, b)
    decreases tileRows - i
  {
    hide Mul, ZeroTile;
    if b :| i < b < tileRows && Present(vs, tileRows, j, b) {
      last := LastTile(vs, tileRows, j, b);
    } else {
      last := i;
    }
  }

  /** Below 32 rows of tiles the last tile of a column is never visited. */
  lemma LastNotDecoded(d: Dims, kernel: seq<Word>, words: seq<Word>, i: nat, j: nat, v: Visit)
    requires TileSize(d.g) >= 1 && IsTileGrid(d.g, d.tileRows, d.tileCols, kernel) && 1 <= d.tileRows < 32
    requires i < d.tileRows && j < d.tileCols && IsInterleaved(d.g, d.tileRows, d.tileCols, kernel, words)
    requires var vs := TileVisits(d.g, d.tileRows, d.tileCols, kernel);
             forall b :: i < b < d.tileRows ==> !Present(vs, d.tileRows, j, b)
    requires var r := Decode(d.g, d.tileRows, d.tileCols, words, 0, 0); r.Some? && v in r.value
    ensures v.row != i || v.col != j
  {
    hide Start, Mul, Decode, ZeroTile, TileVisit, Bits.Bit, BlockRight, MetaBit;
    var vs := TileVisits(d.g, d.tileRows, d.tileCols, kernel);
    StartFirst(d.g, vs, d.tileRows);
    DecodedHasBit(d.g, d.tileRows, d.tileCols, kernel, words, 0, v);
    if v.col == j && v.row == i {
      assert BlockRight(d.g, vs, d.tileRows, j, words);
      BlockBits(d.g, vs, d.tileRows, j, words, 32 - d.tileRows + i);
    }
  }

  /**
   * Whatever the decoder makes of an encoded kernel, its product is right for every input if and only if there
   * are at least 32 rows of tiles or none, or the kernel is all zero.
   */
  lemma InterleavedProducts(d: Dims, kernel: seq<Word>, words: seq<Word>)
    requires d.g.Valid() && d.rows > 0 && d.g.wgt.bits <= d.g.act.bits
    requires IsTileGrid(d.g, d.tileRows, d.tileCols, kernel)
    requires IsInterleaved(d.g, d.tileRows, d.tileCols, kernel, words)
    requires var r := Decode(d.g, d.tileRows, d.tileCols, words, 0, 0); r.Some? && AllFit(d.With([]), r.value)
    ensures SameProducts(d, Decode(d.g, d.tileRows, d.tileCols, words, 0, 0).value,
                         TileVisits(d.g, d.tileRows, d.tileCols, kernel))
       <==> BitmapAligned(d.tileRows) || ZeroTile(kernel)
  {
    hide Mul, Decode, IsInterleaved, TileVisit, SameProducts, ZeroTile, Fits;
    TileSizePositive(d.g);
    InterleavedExact(d.g, d.tileRows, d.tileCols, kernel, words);
    if BitmapAligned(d.tileRows) || ZeroTile(kernel) {
      NonZeroSame(d, TileVisits(d.g, d.tileRows, d.tileCols, kernel));
    } else {
      InterleavedLoses(d, kernel, words);
    }
  }

  lemma InterleavedLoses(d: Dims, kernel: seq<Word>, words: seq<Word>)
    requires d.g.Valid() && d.rows > 0 && d.g.wgt.bits <= d.g.act.bits && 1 <= d.tileRows < 32
    requires IsTileGrid(d.g, d.tileRows, d.tileCols, kernel) && !ZeroTile(kernel)
    requires IsInterleaved(d.g, d.tileRows, d.tileCols, kernel, words)
    requires var r := Decode(d.g, d.tileRows, d.tileCols, words, 0, 0); r.Some? && AllFit(d.With([]), r.value)
    ensures !SameProducts(d, Decode(d.g, d.tileRows, d.tileCols, words, 0, 0).value,
                          TileVisits(d.g, d.tileRows, d.tileCols, kernel))
  {
    hide Mul, Decode, IsInterleaved, TileVisit, SameProducts, ZeroTile, Fits, Tile;
    var vs, ds := TileVisits(d.g, d.tileRows, d.tileCols, kernel), Decode(d.g, d.tileRows, d.tileCols, words, 0, 0).value;
    TileSizePositive(d.g);
    var i0, j := NonZeroTile(d.g, d.tileRows, d.tileCols, kernel);
    var i := LastTile(vs, d.tileRows, j, i0);
    TileVisitAt(d.g, d.tileRows, d.tileCols, kernel, j, i);
    forall q | 0 <= q < |ds|
      ensures ds[q].row != i || ds[q].col != j
    {
      LastNotDecoded(d, kernel, words, i, j, ds[q]);
    }
    LostTileShows(d, kernel, ds, Mul(j, d.tileRows) + i);
  }
}
