/**
 * Timing of the array. After `n` ticks that consumed the input rows xs[0..n), cell (r, c) works on row
 * n - 1 - r - c, whatever the memories held before the first of these ticks.
 */
module Wavefront {
  import opened Arith
  import opened Machine

  /** Sum of the first `n` products of an input row with column `c` of the weights. */
  ghost function Dot(x: seq<int>, w: seq<int>, k: nat, c: nat, n: nat): int
    requires n <= |x|
  {
    if n == 0 then 0 else Dot(x, w, k, c, n - 1) + x[n - 1] * At(w, k, n - 1, c)
  }

  ghost predicate Rows(k: nat, xs: seq<seq<int>>) {
    forall i :: 0 <= i < |xs| ==> |xs[i]| == k
  }

  /** What cell (r, c) of each memory holds after the rows `xs`. */
  ghost predicate Cell(g: Geometry, m: State, xs: seq<seq<int>>, r: nat, c: nat)
    requires Shaped(g, m) && Rows(g.k, xs) && r < g.k && c < g.k
  {
    var n := |xs|;
    && (c >= g.k - r && n - 1 - c + g.k - r >= 0 ==> At(m.inWait, g.k, r, c) == xs[n - 1 - c + g.k - r][r])
    && (c >= 1 && n - r - c >= 0 ==> At(m.inp, g.k, r, c) == xs[n - r - c][r])
    && (n - 1 - r - c >= 0 ==> At(m.acc, g.k, r + 1, c) == Int32(Dot(xs[n - 1 - r - c], m.weights, g.k, c, r + 1)))
    && At(m.acc, g.k, 0, c) == 0
    && (n - g.k - r - c >= 0 ==> At(m.outWait, g.k, r, c) == Mask(g, Dot(xs[n - g.k - r - c], m.weights, g.k, c, g.k)))
  }

  ghost predicate Wave(g: Geometry, m: State, xs: seq<seq<int>>) {
    && Shaped(g, m) && Rows(g.k, xs)
    && forall r, c :: 0 <= r < g.k && 0 <= c < g.k ==> Cell(g, m, xs, r, c)
  }

  /** The first `e` elements of row `x` are waiting on the off-diagonal. */
  ghost predicate Waiting(g: Geometry, m: State, x: seq<int>, e: nat) {
    Shaped(g, m) && e <= |x| == g.k && forall r :: 0 <= r < e ==> At(m.inWait, g.k, r, g.k - 1 - r) == x[r]
  }

  /** Partial-sum row 0 is zero; this is all a run needs to know about its start. */
  ghost predicate ZeroTop(g: Geometry, m: State) {
    Shaped(g, m) && forall c :: 0 <= c < g.k ==> At(m.acc, g.k, 0, c) == 0
  }

  /** A tick keeps the top row of partial sums. */
  lemma TickTop(g: Geometry, m: State)
    requires g.Valid() && Shaped(g, m) && ZeroTop(g, m)
    ensures ZeroTop(g, Tick(g, m))
  {
    hide At, LoadFirst, ShiftRight, ShiftDown, MacAll;
    forall c | 0 <= c < g.k
      ensures At(Tick(g, m).acc, g.k, 0, c) == 0
    {
      MacAllAt(g.k, m.acc, LoadFirst(g.k, m.inp, m.inWait), m.weights, 0, c);
    }
  }

  lemma WaveStart(g: Geometry, m: State)
    requires ZeroTop(g, m)
    ensures Wave(g, m, [])
  {
  }

  lemma DotStep(x: seq<int>, w: seq<int>, k: nat, c: nat, n: nat, a: int)
    requires n < |x| && a == Int32(Dot(x, w, k, c, n))
    ensures Mac(x[n], At(w, k, n, c), a) == Int32(Dot(x, w, k, c, n + 1))
  {
    Int32Add(x[n] * At(w, k, n, c), Dot(x, w, k, c, n));
  }

  /** The input register cell (r, c) multiplies with during the tick that consumes `x`. */
  lemma InputAt(g: Geometry, m: State, xs: seq<seq<int>>, x: seq<int>, r: nat, c: nat)
    requires g.Valid() && Wave(g, m, xs) && Waiting(g, m, x, g.k) && r < g.k && c < g.k
    requires |xs| - r - c >= 0
    ensures At(LoadFirst(g.k, m.inp, m.inWait), g.k, r, c) == (xs + [x])[|xs| - r - c][r]
  {
    hide At;
    MulFits(g.k, g.k, r);
    LoadFirstAt(g.k, m.inp, m.inWait, r, c);
    assert Cell(g, m, xs, r, c);
    assert Cell(g, m, xs, r, g.k - 1);
  }

  lemma TickIn(g: Geometry, m: State, xs: seq<seq<int>>, x: seq<int>, r: nat, c: nat)
    requires g.Valid() && Wave(g, m, xs) && Waiting(g, m, x, g.k) && r < g.k && c < g.k
    ensures var n := |xs| + 1; var ys := xs + [x];
            c >= g.k - r && n - 1 - c + g.k - r >= 0 ==> At(Tick(g, m).inWait, g.k, r, c) == ys[n - 1 - c + g.k - r][r]
    ensures var n := |xs| + 1; var ys := xs + [x];
            c >= 1 && n - r - c >= 0 ==> At(Tick(g, m).inp, g.k, r, c) == ys[n - r - c][r]
  {
    hide At;
    MulFits(g.k, g.k, r);
    ShiftRightAt(g.k, m.inWait, r, c);
    ShiftRightAt(g.k, LoadFirst(g.k, m.inp, m.inWait), r, c);
    if c >= 1 {
      assert Cell(g, m, xs, r, c - 1);
      if |xs| - r - (c - 1) >= 0 {
        InputAt(g, m, xs, x, r, c - 1);
      }
    }
  }

  lemma TickAcc(g: Geometry, m: State, xs: seq<seq<int>>, x: seq<int>, r: nat, c: nat)
    requires g.Valid() && Wave(g, m, xs) && Waiting(g, m, x, g.k) && r < g.k && c < g.k
    ensures At(Tick(g, m).acc, g.k, 0, c) == 0
    ensures |xs| - r - c >= 0 ==>
              At(Tick(g, m).acc, g.k, r + 1, c) == Int32(Dot((xs + [x])[|xs| - r - c], m.weights, g.k, c, r + 1))
  {
    hide At;
    MacAllAt(g.k, m.acc, LoadFirst(g.k, m.inp, m.inWait), m.weights, r, c);
    assert Cell(g, m, xs, r, c);
    if |xs| - r - c >= 0 {
      InputAt(g, m, xs, x, r, c);
      if r > 0 {
        assert Cell(g, m, xs, r - 1, c);
      }
      DotStep((xs + [x])[|xs| - r - c], m.weights, g.k, c, r, At(m.acc, g.k, r, c));
    }
  }

  lemma TickOut(g: Geometry, m: State, xs: seq<seq<int>>, x: seq<int>, r: nat, c: nat)
    requires g.Valid() && Wave(g, m, xs) && Waiting(g, m, x, g.k) && r < g.k && c < g.k
    ensures var n := |xs| + 1; var ys := xs + [x];
            n - g.k - r - c >= 0 ==>
              At(Tick(g, m).outWait, g.k, r, c) == Mask(g, Dot(ys[n - g.k - r - c], m.weights, g.k, c, g.k))
  {
    hide At;
    ShiftDownAt(g, m.outWait, Tick(g, m).acc, r, c);
    if r > 0 {
      assert Cell(g, m, xs, r - 1, c);
    } else if |xs| + 1 - g.k - c >= 0 {
      TickAcc(g, m, xs, x, g.k - 1, c);
      MaskInt32(g, Dot((xs + [x])[|xs| + 1 - g.k - c], m.weights, g.k, c, g.k));
    }
  }

  lemma MaskInt32(g: Geometry, v: int)
    requires g.act.Valid()
    ensures Mask(g, Int32(v)) == Mask(g, v)
  {
    MulFits(g.act.per, g.act.bits, 0);
    Int32Mod(v, g.act.bits);
  }

  lemma CellTick(g: Geometry, m: State, xs: seq<seq<int>>, x: seq<int>, r: nat, c: nat)
    requires g.Valid() && Wave(g, m, xs) && Waiting(g, m, x, g.k) && r < g.k && c < g.k
    ensures Rows(g.k, xs + [x]) && Cell(g, Tick(g, m), xs + [x], r, c)
  {
    hide At;
    TickIn(g, m, xs, x, r, c);
    TickAcc(g, m, xs, x, r, c);
    TickOut(g, m, xs, x, r, c);
  }

  /** One tick carries the wave one row further. */
  lemma WaveTick(g: Geometry, m: State, xs: seq<seq<int>>, x: seq<int>)
    requires g.Valid() && Wave(g, m, xs) && Waiting(g, m, x, g.k)
    ensures Wave(g, Tick(g, m), xs + [x])
  {
    hide At;
    forall r, c | 0 <= r < g.k && 0 <= c < g.k
      ensures Cell(g, Tick(g, m), xs + [x], r, c)
    {
      CellTick(g, m, xs, x, r, c);
    }
  }

  /** A finished row can be read on the anti-diagonal, 2K - 2 ticks after the tick that consumed it. */
  lemma Emerges(g: Geometry, m: State, xs: seq<seq<int>>, c: nat)
    requires Wave(g, m, xs) && c < g.k && |xs| >= 2 * g.k - 1
    ensures At(m.outWait, g.k, g.k - 1 - c, c) == Mask(g, Dot(xs[|xs| - (2 * g.k - 1)], m.weights, g.k, c, g.k))
  {
    assert Cell(g, m, xs, g.k - 1 - c, c);
  }
}
