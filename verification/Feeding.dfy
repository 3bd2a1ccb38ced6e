/**
 * What the driver's call sequence does to the array: a tile of weights is loaded, then the words of one block
 * of activations, followed by zero words, are queued and streamed in call order.
 */
module Feeding {
  import opened Arith
  import opened Words
  import opened Machine
  import opened Wavefront

  /** The word fed by call `t`: the block first, zeros once it is used up. */
  function WordAt(x: seq<Word>, t: nat): Word {
    if t < |x| then x[t] else 0
  }

  /** State after a call with index `idx`: store, and tick when the call is a stream. */
  ghost function Call(g: Geometry, m: State, idx: nat, val: Word, stream: bool): (n: State)
    requires g.Valid() && Shaped(g, m) && idx + g.act.per <= 2 * g.k
    ensures Shaped(g, n) && n.weights == m.weights
  {
    var s := m.(inWait := Stored(g, m.inWait, idx, val, g.act.per));
    if stream then Tick(g, s) else s
  }

  /** The driver numbers the words of a row from 0; the last word of the row is streamed. */
  ghost function Feed(g: Geometry, m: State, j: nat, val: Word): (n: State)
    requires g.Valid() && Shaped(g, m) && j < g.actCols
    ensures Shaped(g, n) && n.weights == m.weights
  {
    IndexRoom(g, j);
    Call(g, m, j, val, j == g.actCols - 1)
  }

  lemma IndexRoom(g: Geometry, j: nat)
    requires g.Valid() && j < g.actCols
    ensures j + g.act.per <= g.k && Mul(j, g.act.per) + g.act.per <= g.k
  {
    MulFits(g.actCols, g.act.per, j);
    AtLeastIndex(j, g.act.per);
  }

  lemma {:induction false} AtLeastIndex(j: nat, per: nat)
    requires per >= 1
    ensures Mul(j, per) >= j
  {
    if j > 0 {
      AtLeastIndex(j - 1, per);
    }
  }

  /** State after `n` whole rows and `j` further words of the stream `x`. */
  ghost function Fed(g: Geometry, m: State, x: seq<Word>, n: nat, j: nat): (s: State)
    requires g.Valid() && Shaped(g, m) && j <= g.actCols
    ensures Shaped(g, s) && s.weights == m.weights
    decreases n, j
  {
    if j > 0 then Feed(g, Fed(g, m, x, n, j - 1), j - 1, WordAt(x, Mul(n, g.actCols) + j - 1))
    else if n > 0 then Fed(g, m, x, n - 1, g.actCols)
    else m
  }

  /** Feeding keeps the top row of partial sums zero, in every geometry. */
  lemma {:induction false} FedTop(g: Geometry, m: State, x: seq<Word>, n: nat, j: nat)
    requires g.Valid() && Shaped(g, m) && ZeroTop(g, m) && j <= g.actCols
    ensures ZeroTop(g, Fed(g, m, x, n, j))
    decreases n, j
  {
    hide ZeroTop, Shaped, Feed, Mul;
    if j > 0 {
      FedTop(g, m, x, n, j - 1);
      FeedTop(g, Fed(g, m, x, n, j - 1), j - 1, WordAt(x, Mul(n, g.actCols) + j - 1));
    } else if n > 0 {
      FedTop(g, m, x, n - 1, g.actCols);
    }
  }

  lemma FeedTop(g: Geometry, m: State, j: nat, val: Word)
    requires g.Valid() && Shaped(g, m) && ZeroTop(g, m) && j < g.actCols
    ensures ZeroTop(g, Feed(g, m, j, val))
  {
    hide At, Stored, Tick, LaneValues;
    IndexRoom(g, j);
    TickTop(g, m.(inWait := Stored(g, m.inWait, j, val, g.act.per)));
  }

  // ----- what the results should be

  /** `n` words of the stream from position `off` on. */
  ghost function Window(x: seq<Word>, off: nat, n: nat): (ws: seq<Word>)
    ensures |ws| == n
    ensures forall t :: 0 <= t < n ==> ws[t] == WordAt(x, off + t)
  {
    seq<Word>(n, t requires 0 <= t < n => WordAt(x, off + t))
  }

  /** Row `i` of a block of activations: K elements packed in consecutive words. */
  ghost function RowAt(g: Geometry, x: seq<Word>, i: nat): (row: seq<int>)
    requires g.Valid()
    ensures |row| == g.k
  {
    Elems(g.act, Window(x, Mul(i, g.actCols), g.actCols))
  }

  lemma RowWord(g: Geometry, x: seq<Word>, i: nat, j: nat, l: nat)
    requires g.Valid() && j < g.actCols && l < g.act.per
    ensures Mul(j, g.act.per) + l < g.k
    ensures RowAt(g, x, i)[Mul(j, g.act.per) + l] == Act(g, WordAt(x, Mul(i, g.actCols) + j), l)
  {
    hide Elems, Lane, Mul, Signed;
    ElemsAt(g.act, Window(x, Mul(i, g.actCols), g.actCols), j, l);
  }

  ghost function RowsOf(g: Geometry, x: seq<Word>, n: nat): (xs: seq<seq<int>>)
    requires g.Valid()
    ensures |xs| == n && Rows(g.k, xs)
  {
    seq(n, i requires 0 <= i < n => RowAt(g, x, i))
  }

  /** Element `c` of the product of a row of activations with a tile of weights. */
  ghost function TileElem(g: Geometry, row: seq<int>, w: seq<int>, c: nat): (v: int)
    requires |row| == g.k
    ensures 0 <= v < Pow2(g.act.bits)
  {
    Mask(g, Dot(row, w, g.k, c, g.k))
  }

  ghost function TileLanes(g: Geometry, row: seq<int>, w: seq<int>, j: nat): (vs: seq<int>)
    requires |row| == g.k
    ensures |vs| == g.act.per
    ensures forall l :: 0 <= l < g.act.per ==> vs[l] == TileElem(g, row, w, Mul(j, g.act.per) + l)
    ensures AreLanes(g.act, vs)
  {
    seq(g.act.per, l requires 0 <= l < g.act.per => TileElem(g, row, w, Mul(j, g.act.per) + l))
  }

  /** Word `j` of the product of a row of activations with a tile of weights. */
  ghost function TileWord(g: Geometry, row: seq<int>, w: seq<int>, j: nat): Word
    requires g.Valid() && |row| == g.k
  {
    Pack(g.act, TileLanes(g, row, w, j))
  }

  /** The geometries where the driver's word index is the element index the array expects. */
  ghost predicate Aligned(g: Geometry) {
    g.act.per == 1 || g.actCols == 1
  }

  lemma AlignedIndex(g: Geometry, j: nat)
    requires g.Valid() && Aligned(g) && j < g.actCols
    ensures Mul(j, g.act.per) == j
  {
    MulIs(j, g.act.per);
  }

  /** Storing one more word of a row lengthens the waiting part and leaves the wave alone. */
  lemma StoreNext(g: Geometry, m: State, xs: seq<seq<int>>, row: seq<int>, val: Word, idx: nat)
    requires g.Valid() && Wave(g, m, xs) && Waiting(g, m, row, idx) && idx + g.act.per <= g.k
    requires forall l :: 0 <= l < g.act.per ==> row[idx + l] == Act(g, val, l)
    ensures var s := m.(inWait := Stored(g, m.inWait, idx, val, g.act.per));
            Wave(g, s, xs) && Waiting(g, s, row, idx + g.act.per)
  {
    hide At, Stored;
    var s := m.(inWait := Stored(g, m.inWait, idx, val, g.act.per));
    forall r, c | 0 <= r < g.k && 0 <= c < g.k
      ensures Cell(g, s, xs, r, c)
    {
      assert Cell(g, m, xs, r, c);
      StoredAt(g, m.inWait, idx, val, g.act.per, r, c);
    }
    forall r | 0 <= r < idx + g.act.per
      ensures At(s.inWait, g.k, r, g.k - 1 - r) == row[r]
    {
      StoredAt(g, m.inWait, idx, val, g.act.per, r, g.k - 1 - r);
      assert idx <= r ==> row[idx + (r - idx)] == Act(g, val, r - idx);
    }
  }

  /** The complete rows are in the wave and the words of the current row wait. */
  ghost predicate InFlight(g: Geometry, f: State, x: seq<Word>, n: nat, j: nat)
    requires g.Valid() && j < g.actCols
  {
    Wave(g, f, RowsOf(g, x, n)) && Waiting(g, f, RowAt(g, x, n), Mul(j, g.act.per))
  }

  /** This holds after `n` rows and `j` words, whatever the state before. */
  lemma {:induction false} FedWave(g: Geometry, m: State, x: seq<Word>, n: nat, j: nat)
    requires g.Valid() && Aligned(g) && Shaped(g, m) && ZeroTop(g, m) && j < g.actCols
    ensures InFlight(g, Fed(g, m, x, n, j), x, n, j)
    decreases n, j
  {
    hide InFlight, ZeroTop, Shaped, Feed, Mul;
    if j > 0 {
      FedWave(g, m, x, n, j - 1);
      FedMore(g, Fed(g, m, x, n, j - 1), x, n, j - 1);
    } else if n > 0 {
      FedWave(g, m, x, n - 1, g.actCols - 1);
      FedLast(g, Fed(g, m, x, n - 1, g.actCols - 1), x, n - 1);
    } else {
      FedNone(g, m, x);
    }
  }

  lemma FedNone(g: Geometry, m: State, x: seq<Word>)
    requires g.Valid() && Shaped(g, m) && ZeroTop(g, m) && g.actCols > 0
    ensures InFlight(g, m, x, 0, 0)
  {
    WaveStart(g, m);
    assert RowsOf(g, x, 0) == [];
  }

  lemma FedMore(g: Geometry, f: State, x: seq<Word>, n: nat, j: nat)
    requires g.Valid() && Aligned(g) && j + 1 < g.actCols && Shaped(g, f) && InFlight(g, f, x, n, j)
    ensures InFlight(g, Feed(g, f, j, WordAt(x, Mul(n, g.actCols) + j)), x, n, j + 1)
  {
    hide Wave, Waiting, RowAt, RowsOf, Stored, Mul;
    FedStore(g, f, x, n, j, RowsOf(g, x, n));
  }

  lemma FedLast(g: Geometry, f: State, x: seq<Word>, n: nat)
    requires g.Valid() && Aligned(g) && g.actCols > 0 && Shaped(g, f) && InFlight(g, f, x, n, g.actCols - 1)
    ensures InFlight(g, Feed(g, f, g.actCols - 1, WordAt(x, Mul(n, g.actCols) + g.actCols - 1)), x, n + 1, 0)
  {
    hide Wave, RowAt, Stored, Tick;
    var j := g.actCols - 1;
    FedStore(g, f, x, n, j, RowsOf(g, x, n));
    WaveTick(g, f.(inWait := Stored(g, f.inWait, j, WordAt(x, Mul(n, g.actCols) + j), g.act.per)),
             RowsOf(g, x, n), RowAt(g, x, n));
    assert RowsOf(g, x, n) + [RowAt(g, x, n)] == RowsOf(g, x, n + 1);
  }

  /** Storing word `j` of row `n` at the index the driver passes. */
  lemma FedStore(g: Geometry, f: State, x: seq<Word>, n: nat, j: nat, xs: seq<seq<int>>)
    requires g.Valid() && Aligned(g) && j < g.actCols && Wave(g, f, xs)
    requires Waiting(g, f, RowAt(g, x, n), Mul(j, g.act.per))
    ensures j + g.act.per <= g.k
    ensures var s := f.(inWait := Stored(g, f.inWait, j, WordAt(x, Mul(n, g.actCols) + j), g.act.per));
            Wave(g, s, xs) && Waiting(g, s, RowAt(g, x, n), Mul(j + 1, g.act.per))
  {
    hide Wave, Waiting, RowAt, Stored;
    IndexRoom(g, j);
    AlignedIndex(g, j);
    var val, row := WordAt(x, Mul(n, g.actCols) + j), RowAt(g, x, n);
    forall l | 0 <= l < g.act.per
      ensures row[j + l] == Act(g, val, l)
    {
      RowWord(g, x, n, j, l);
    }
    StoreNext(g, f, xs, row, val, j);
  }

  /** The index of the call after which `j` words of the current row have been fed. */
  function CallBefore(g: Geometry, j: nat): (p: nat)
    requires j < g.actCols
    ensures p < g.actCols
  {
    if j == 0 then g.actCols - 1 else j - 1
  }

  /** The column a read by that call starts at. */
  lemma ReadColumn(g: Geometry, j: nat)
    requires g.Valid() && Aligned(g) && j < g.actCols
    ensures StartCol(g, CallBefore(g, j)) == Mul(j, g.act.per)
  {
    var p := CallBefore(g, j);
    AlignedIndex(g, p);
    IndexRoom(g, j);
    assert Mul(p + 1, g.act.per) == Mul(p, g.act.per) + g.act.per;
    if j == 0 {
      DivModUnique(p + g.act.per, g.k, 1, 0);
    } else {
      DivModUnique(p + g.act.per, g.k, 0, Mul(j, g.act.per));
    }
  }

  /**
   * Reading after 2K - 1 + i rows and j words returns word j of product row i, from any starting state whose
   * top partial sums are zero.
   */
  lemma KeptResult(g: Geometry, m: State, x: seq<Word>, n: nat, i: nat, j: nat)
    requires g.Valid() && Aligned(g) && Shaped(g, m) && ZeroTop(g, m) && j < g.actCols
    requires n == 2 * g.k - 1 + i
    ensures Retrieved(g, Fed(g, m, x, n, j), CallBefore(g, j)) == TileWord(g, RowAt(g, x, i), m.weights, j)
  {
    hide InFlight, Fed, Retrieved, TileWord;
    FedWave(g, m, x, n, j);
    EmergedRow(g, Fed(g, m, x, n, j), x, n, i, j);
  }

  lemma EmergedRow(g: Geometry, f: State, x: seq<Word>, n: nat, i: nat, j: nat)
    requires g.Valid() && Aligned(g) && Shaped(g, f) && j < g.actCols && InFlight(g, f, x, n, j) && n == 2 * g.k - 1 + i
    ensures Retrieved(g, f, CallBefore(g, j)) == TileWord(g, RowAt(g, x, i), f.weights, j)
  {
    hide Wave, Waiting, Retrieved, TileWord, RowAt;
    EmergedWord(g, f, RowsOf(g, x, n), j);
  }

  lemma EmergedWord(g: Geometry, f: State, xs: seq<seq<int>>, j: nat)
    requires g.Valid() && Aligned(g) && Shaped(g, f) && Rows(g.k, xs) && Wave(g, f, xs)
    requires j < g.actCols && |xs| >= 2 * g.k - 1
    ensures Retrieved(g, f, CallBefore(g, j)) == TileWord(g, xs[|xs| - (2 * g.k - 1)], f.weights, j)
  {
    hide Wave, Retrieved, TileElem;
    var vs := TileLanes(g, xs[|xs| - (2 * g.k - 1)], f.weights, j);
    forall l | 0 <= l < g.act.per
      ensures Lane(g.act, Retrieved(g, f, CallBefore(g, j)), l) == Lane(g.act, Pack(g.act, vs), l)
    {
      EmergedLane(g, f, xs, j, l);
      LaneOfPack(g.act, vs, l);
    }
    SameLanes(g.act, Retrieved(g, f, CallBefore(g, j)), Pack(g.act, vs));
  }

  lemma EmergedLane(g: Geometry, f: State, xs: seq<seq<int>>, j: nat, l: nat)
    requires g.Valid() && Aligned(g) && Shaped(g, f) && Rows(g.k, xs) && Wave(g, f, xs)
    requires j < g.actCols && l < g.act.per && |xs| >= 2 * g.k - 1
    ensures Lane(g.act, Retrieved(g, f, CallBefore(g, j)), l)
         == TileElem(g, xs[|xs| - (2 * g.k - 1)], f.weights, Mul(j, g.act.per) + l)
  {
    hide At, Retrieved, Mul, StartCol;
    ReadColumn(g, j);
    IndexRoom(g, j);
    RetrievedLane(g, f, CallBefore(g, j), l, Mul(j, g.act.per) + l);
    Emerges(g, f, xs, Mul(j, g.act.per) + l);
  }

  // ----- loading a tile of weights

  /** The weights after the first `n` words of the tile are loaded. */
  ghost function LoadedWords(g: Geometry, w: seq<int>, tile: seq<Word>, n: nat): (t: seq<int>)
    requires g.wgt.bits > 0 && n <= |tile|
    ensures |t| == |w|
  {
    if n == 0 then w
    else Loaded(g, LoadedWords(g, w, tile, n - 1), Mul(n - 1, g.wgt.per), tile[n - 1], g.wgt.per)
  }

  lemma {:induction false} LoadedLane(g: Geometry, s: seq<int>, idx: nat, val: Word, n: nat, p: nat)
    requires g.wgt.bits > 0 && n <= g.wgt.per && p < |s|
    ensures Loaded(g, s, idx, val, n)[p] == if idx <= p < idx + n then Wgt(g, val, p - idx) else s[p]
    decreases n
  {
    if n == 0 {
    } else {
      LoadedLane(g, s, idx, val, n - 1, p);
    }
  }

  lemma {:induction false} LoadedWord(g: Geometry, w: seq<int>, tile: seq<Word>, n: nat, a: nat, b: nat)
    requires g.wgt.bits > 0 && a < n <= |tile| && b < g.wgt.per && Mul(a, g.wgt.per) + b < |w|
    ensures LoadedWords(g, w, tile, n)[Mul(a, g.wgt.per) + b] == Wgt(g, tile[a], b)
    decreases n
  {
    hide Loaded, Wgt;
    var per := g.wgt.per;
    LoadedLane(g, LoadedWords(g, w, tile, n - 1), Mul(n - 1, per), tile[n - 1], per, Mul(a, per) + b);
    if a < n - 1 {
      LoadedWord(g, w, tile, n - 1, a, b);
      MulFits(n - 1, per, a);
    }
  }

  /** A tile of weights: K rows of words. */
  ghost predicate IsTile(g: Geometry, tile: seq<Word>) {
    g.wgt.bits > 0 && |tile| == Mul(g.k, g.wgtCols)
  }

  lemma TileRoom(g: Geometry)
    requires g.Valid()
    ensures Mul(Mul(g.k, g.wgtCols), g.wgt.per) == Mul(g.k, g.k)
  {
    MulMul(g.k, g.wgtCols, g.wgt.per);
  }

  /** Loading all words of a tile replaces every weight. */
  lemma LoadedTile(g: Geometry, w: seq<int>, tile: seq<Word>)
    requires g.Valid() && |w| == Mul(g.k, g.k) && IsTile(g, tile)
    ensures LoadedWords(g, w, tile, |tile|) == Elems(g.wgt, tile)
  {
    hide Loaded, LoadedWords, Elems, Lane, Mul;
    TileRoom(g);
    forall p | 0 <= p < |w|
      ensures LoadedWords(g, w, tile, |tile|)[p] == Elems(g.wgt, tile)[p]
    {
      var a, b := MulSplit(|tile|, g.wgt.per, p);
      LoadedWord(g, w, tile, |tile|, a, b);
      ElemsAt(g.wgt, tile, a, b);
    }
  }
}
