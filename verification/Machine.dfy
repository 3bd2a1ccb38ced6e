/**
 * The systolic array as a pure state machine. Four memories are tables with K columns; one clock tick shifts,
 * multiplies, accumulates and shifts again.
 */
module Machine {
  import opened Arith
  import opened Words

  /**
   * Array dimension, packing of activations and weights on the bus, and the number of words that hold one
   * row of a tile in either packing.
   */
  datatype Geometry = Geometry(k: nat, act: Lanes, wgt: Lanes, actCols: nat, wgtCols: nat) {
    ghost predicate Valid() {
      && k > 0 && act.Valid() && wgt.Valid()
      && Mul(actCols, act.per) == k && Mul(wgtCols, wgt.per) == k
    }
  }

  /** The number of words per row as the program computes it, rounding up. */
  function CeilingDiv(x: nat, y: nat): nat
    requires y > 0
  {
    (x + y - 1) / y
  }

  /** Every dimension that is a multiple of four fits the three lane widths the program can be built with. */
  lemma BuildGeometry(k: nat, act: Lanes, wgt: Lanes)
    requires k > 0 && k % 4 == 0
    requires act in {Lanes(8, 4), Lanes(16, 2), Lanes(32, 1)}
    requires wgt in {Lanes(8, 4), Lanes(16, 2), Lanes(32, 1)}
    ensures Geometry(k, act, wgt, CeilingDiv(k, act.per), CeilingDiv(k, wgt.per)).Valid()
  {
    BuildWidths();
    ExactCols(k, act.per);
    ExactCols(k, wgt.per);
  }

  lemma ExactCols(k: nat, per: nat)
    requires k % 4 == 0 && (per == 4 || per == 2 || per == 1)
    ensures Mul(CeilingDiv(k, per), per) == k
  {
    var q := k / 4;
    MulIs(CeilingDiv(k, per), per);
    if per == 4 {
      assert CeilingDiv(k, 4) == q;
    } else if per == 2 {
      assert CeilingDiv(k, 2) == 2 * q;
    }
  }

  lemma ColsFacts(g: Geometry)
    requires g.Valid()
    ensures g.actCols > 0 && g.wgtCols > 0
    ensures g.act.per <= g.k && g.wgt.per <= g.k
  {
    MulFits(g.actCols, g.act.per, 0);
    MulFits(g.wgtCols, g.wgt.per, 0);
  }

  /** Five flat memories; the partial sums have one row more than the others. */
  datatype State = State(weights: seq<int>, acc: seq<int>, inp: seq<int>, inWait: seq<int>, outWait: seq<int>,
                         nonZeroTile: bool)

  ghost predicate Shaped(g: Geometry, m: State) {
    && |m.weights| == |m.inp| == |m.inWait| == |m.outWait| == Mul(g.k, g.k)
    && |m.acc| == Mul(g.k, g.k) + g.k
    && LaneValues(g, m.outWait)
  }

  ghost predicate LaneValues(g: Geometry, s: seq<int>) {
    forall p :: 0 <= p < |s| ==> 0 <= s[p] < Pow2(g.act.bits)
  }

  /** Cell (r, c) of a flat table with rows of length `k`. */
  ghost function At(s: seq<int>, k: nat, r: nat, c: nat): int {
    if Mul(r, k) + c < |s| then s[Mul(r, k) + c] else 0
  }

  // ----- the memories after one clock tick

  /** Every row moves one column right; column 0 keeps its value. */
  ghost function ShiftRight(k: nat, s: seq<int>): (t: seq<int>)
    requires k > 0
    ensures |t| == |s|
  {
    seq(|s|, p requires 0 <= p < |s| => if Col(k, p) == 0 then s[p] else s[p - 1])
  }

  /** Column 0 of the input registers takes the last column of the waiting triangle. */
  ghost function LoadFirst(k: nat, inp: seq<int>, inWait: seq<int>): (t: seq<int>)
    requires k > 0
    ensures |t| == |inp|
  {
    seq(|inp|, p requires 0 <= p < |inp| =>
      if Col(k, p) == 0 && p + k - 1 < |inWait| then inWait[p + k - 1] else inp[p])
  }

  /** One multiply-accumulate, in 32-bit signed arithmetic. */
  function Mac(x: int, w: int, a: int): int {
    Int32(Int32(x * w) + a)
  }

  /** All cells at once: each partial sum moves down one row and gains one product. */
  ghost function MacAll(k: nat, acc: seq<int>, inp: seq<int>, w: seq<int>): (t: seq<int>)
    requires |inp| == |w| && |acc| == |inp| + k
    ensures |t| == |acc|
  {
    acc[..k] + seq(|inp|, p requires 0 <= p < |inp| => Mac(inp[p], w[p], acc[p]))
  }

  /** A partial sum cut down to the activation width. */
  function Mask(g: Geometry, v: int): (r: int)
    ensures 0 <= r < Pow2(g.act.bits)
  {
    v % Pow2(g.act.bits)
  }

  lemma MaskSmall(g: Geometry, v: int)
    requires 0 <= v < Pow2(g.act.bits)
    ensures Mask(g, v) == v
  {
    DivModUnique(v, Pow2(g.act.bits), 0, v);
  }

  lemma MaskAdd(g: Geometry, a: int, b: int)
    ensures Mask(g, Mask(g, a) + b) == Mask(g, a + b)
  {
    hide Pow2;
    ModAddLeft(a, b, Pow2(g.act.bits));
  }

  /** Accumulation in memory is addition modulo the activation width. */
  lemma MaskLane(g: Geometry, x: Word, y: Word, n: nat)
    requires g.act.Valid() && n < g.act.per
    ensures Lane(g.act, AddLanes(g.act, x, y), n) == Mask(g, Lane(g.act, x, n) + Lane(g.act, y, n))
  {
    hide Lane, AddLanes;
    LaneOfAdd(g.act, x, y, n);
  }

  ghost function MaskRow(g: Geometry, s: seq<int>): (t: seq<int>)
    ensures |t| == |s|
    ensures forall c :: 0 <= c < |s| ==> t[c] == Mask(g, s[c])
    ensures LaneValues(g, t)
  {
    seq(|s|, c requires 0 <= c < |s| => Mask(g, s[c]))
  }

  /** The last partial sums, masked to the lane width, enter the de-skewing triangle from above. */
  ghost function ShiftDown(g: Geometry, outWait: seq<int>, last: seq<int>): (t: seq<int>)
    requires |last| <= |outWait|
    ensures |t| == |outWait|
    ensures LaneValues(g, outWait) ==> LaneValues(g, t)
  {
    MaskRow(g, last) + outWait[..|outWait| - |last|]
  }

  ghost function Tick(g: Geometry, m: State): (n: State)
    requires g.Valid() && Shaped(g, m)
    ensures Shaped(g, n) && n.weights == m.weights
  {
    MulFits(g.k, g.k, 0);
    var loaded := LoadFirst(g.k, m.inp, m.inWait);
    var acc := MacAll(g.k, m.acc, loaded, m.weights);
    State(m.weights, acc, ShiftRight(g.k, loaded), ShiftRight(g.k, m.inWait),
          ShiftDown(g, m.outWait, acc[Mul(g.k, g.k)..]), false)
  }

  lemma ShiftRightAt(k: nat, s: seq<int>, r: nat, c: nat)
    requires k > 0 && c < k && Mul(r, k) + k <= |s|
    ensures At(ShiftRight(k, s), k, r, c) == At(s, k, r, if c == 0 then 0 else c - 1)
  {
    ColOf(k, r, c);
  }

  lemma LoadFirstAt(k: nat, inp: seq<int>, inWait: seq<int>, r: nat, c: nat)
    requires k > 0 && c < k && |inp| == |inWait| && Mul(r, k) + k <= |inp|
    ensures At(LoadFirst(k, inp, inWait), k, r, c) == if c == 0 then At(inWait, k, r, k - 1) else At(inp, k, r, c)
  {
    ColOf(k, r, c);
  }

  lemma MacAllAt(k: nat, acc: seq<int>, inp: seq<int>, w: seq<int>, r: nat, c: nat)
    requires |inp| == |w| == Mul(k, k) && |acc| == |inp| + k && r < k && c < k
    ensures At(MacAll(k, acc, inp, w), k, r + 1, c) == Mac(At(inp, k, r, c), At(w, k, r, c), At(acc, k, r, c))
    ensures At(MacAll(k, acc, inp, w), k, 0, c) == At(acc, k, 0, c)
  {
    MulFits(k, k, r);
  }

  lemma ShiftDownAt(g: Geometry, outWait: seq<int>, acc: seq<int>, r: nat, c: nat)
    requires |outWait| == Mul(g.k, g.k) && |acc| == Mul(g.k, g.k) + g.k && r < g.k && c < g.k
    ensures g.k <= |outWait|
    ensures At(ShiftDown(g, outWait, acc[Mul(g.k, g.k)..]), g.k, r, c)
         == if r == 0 then Mask(g, At(acc, g.k, g.k, c)) else At(outWait, g.k, r - 1, c)
  {
    MulFits(g.k, g.k, r);
    MulFits(g.k, g.k, 0);
  }

  // ----- the bus side: storing activations, reading results, loading weights

  /** Lane `n` of an activation word as the device reads it. */
  function Act(g: Geometry, x: Word, n: nat): int
    requires g.act.bits > 0 && n < g.act.per
  {
    Signed(g.act, Lane(g.act, x, n))
  }

  /** Lane `n` of a weight word as the device reads it. */
  function Wgt(g: Geometry, x: Word, n: nat): int
    requires g.wgt.bits > 0 && n < g.wgt.per
  {
    Signed(g.wgt, Lane(g.wgt, x, n))
  }

  /** Where element `row` of an input vector waits: the off-diagonal of the triangle. */
  function DiagPos(k: nat, row: nat): (p: nat)
    requires k > 0 && row < 2 * k
    ensures p < Mul(k, k)
  {
    MulFits(k, k, row % k);
    Mul(row % k, k) + (2 * k - 1 - row) % k
  }

  lemma DiagPosIs(k: nat, row: nat)
    requires k > 0 && row < k
    ensures DiagPos(k, row) == Mul(row, k) + (k - 1 - row)
  {
    DivModUnique(row, k, 0, row);
    DivModUnique(2 * k - 1 - row, k, 1, k - 1 - row);
  }

  /** Past the last row, a store starts again at row 0. */
  lemma DiagPosWraps(k: nat, row: nat)
    requires k > 0 && k <= row < 2 * k
    ensures DiagPos(k, row) == DiagPos(k, row - k) == Mul(row - k, k) + (2 * k - 1 - row)
  {
    DiagPosIs(k, row - k);
    DivModUnique(row, k, 1, row - k);
    DivModUnique(2 * k - 1 - row, k, 0, 2 * k - 1 - row);
  }

  /** The waiting triangle after the first `n` lanes of `val` are stored at element `idx`. */
  ghost function Stored(g: Geometry, s: seq<int>, idx: nat, val: Word, n: nat): (t: seq<int>)
    requires g.k > 0 && g.act.bits > 0 && |s| == Mul(g.k, g.k) && n <= g.act.per && idx + n <= 2 * g.k
    ensures |t| == |s|
  {
    if n == 0 then s
    else Stored(g, s, idx, val, n - 1)[DiagPos(g.k, idx + n - 1) := Act(g, val, n - 1)]
  }

  /** The column where the word read by a call with index `idx` starts. */
  function StartCol(g: Geometry, idx: nat): (c: nat)
    requires g.k > 0
    ensures c < g.k
  {
    (idx + g.act.per) % g.k
  }

  /** Where column `c` of a result is read: the opposite corner of the diagonal. */
  function OutPos(k: nat, c: nat): (p: nat)
    requires k > 0 && c < 2 * k
    ensures p < Mul(k, k)
  {
    MulFits(k, k, (2 * k - 1 - c) % k);
    Mul((2 * k - 1 - c) % k, k) + c % k
  }

  lemma OutPosIs(k: nat, c: nat)
    requires k > 0 && c < k
    ensures OutPos(k, c) == Mul(k - 1 - c, k) + c
  {
    DivModUnique(c, k, 0, c);
    DivModUnique(2 * k - 1 - c, k, 1, k - 1 - c);
  }

  lemma OutPosWraps(k: nat, c: nat)
    requires k > 0 && k <= c < 2 * k
    ensures OutPos(k, c) == OutPos(k, c - k) == Mul(2 * k - 1 - c, k) + (c - k)
  {
    OutPosIs(k, c - k);
    DivModUnique(c, k, 1, c - k);
    DivModUnique(2 * k - 1 - c, k, 0, 2 * k - 1 - c);
  }

  /** A read is one word ahead of the store of the same call, and starts again at column 0. */
  lemma StartColIs(g: Geometry, idx: nat)
    requires g.k > 0 && idx + g.act.per < 2 * g.k
    ensures StartCol(g, idx) == if idx + g.act.per < g.k then idx + g.act.per else idx + g.act.per - g.k
  {
    var e := idx + g.act.per;
    DivModUnique(e, g.k, if e < g.k then 0 else 1, if e < g.k then e else e - g.k);
  }

  /** The lanes of a word starting in column `c`. */
  ghost function RetrievedLanes(g: Geometry, m: State, c: nat): (vs: seq<int>)
    requires g.Valid() && Shaped(g, m) && c < g.k
    ensures |vs| == g.act.per <= g.k
    ensures forall i :: 0 <= i < g.act.per ==> vs[i] == m.outWait[OutPos(g.k, c + i)]
    ensures AreLanes(g.act, vs)
  {
    ColsFacts(g);
    seq(g.act.per, i requires 0 <= i < g.act.per => m.outWait[OutPos(g.k, c + i)])
  }

  /** The word read by a call with index `idx`. */
  ghost function Retrieved(g: Geometry, m: State, idx: nat): (x: Word)
    requires g.Valid() && Shaped(g, m)
  {
    Pack(g.act, RetrievedLanes(g, m, StartCol(g, idx)))
  }

  /** The weights after the first `n` lanes of `val` are loaded at flat index `idx`. */
  ghost function Loaded(g: Geometry, s: seq<int>, idx: nat, val: Word, n: nat): (t: seq<int>)
    requires g.wgt.bits > 0 && n <= g.wgt.per
    ensures |t| == |s|
  {
    if n == 0 then s
    else
      var t := Loaded(g, s, idx, val, n - 1);
      if idx + n - 1 < |s| then t[idx + n - 1 := Wgt(g, val, n - 1)] else t
  }

  /** A row of the waiting triangle after a store that does not wrap around. */
  lemma {:induction false} StoredAt(g: Geometry, s: seq<int>, idx: nat, val: Word, n: nat, r: nat, c: nat)
    requires g.k > 0 && g.act.bits > 0 && |s| == Mul(g.k, g.k) && n <= g.act.per && idx + n <= g.k
    requires r < g.k && c < g.k
    ensures At(Stored(g, s, idx, val, n), g.k, r, c)
         == if idx <= r < idx + n && c == g.k - 1 - r then Act(g, val, r - idx) else At(s, g.k, r, c)
    decreases n
  {
    hide Act, DiagPos;
    if n == 0 {
    } else {
      StoredAt(g, s, idx, val, n - 1, r, c);
      var row := idx + n - 1;
      DiagPosIs(g.k, row);
      if Mul(r, g.k) + c == DiagPos(g.k, row) {
        MulUnique(g.k, r, c, row, g.k - 1 - row);
      }
    }
  }

  /** A read that does not wrap around returns one word of the anti-diagonal, lane by lane. */
  lemma RetrievedLane(g: Geometry, m: State, idx: nat, i: nat, c: nat)
    requires g.Valid() && Shaped(g, m) && i < g.act.per
    requires c == StartCol(g, idx) + i && c < g.k
    ensures Lane(g.act, Retrieved(g, m, idx), i) == At(m.outWait, g.k, g.k - 1 - c, c)
  {
    OutPosIs(g.k, c);
    LaneOfPack(g.act, RetrievedLanes(g, m, StartCol(g, idx)), i);
  }
}
