/** The accumulators in every state the array can reach by any sequence of calls. */
module Reachable {
  import opened Arith
  import opened Words
  import opened Machine
  import opened Wavefront
  import opened Feeding
  import opened Systolic

  datatype Op = Load(idx: nat, val: Word) | Queue(idx: nat, val: Word) | Stream(idx: nat, val: Word)

  /** Calls the array's own assertions let through. */
  ghost predicate Allowed(g: Geometry, op: Op) {
    op.Load? || op.idx + g.act.per <= 2 * g.k
  }

  ghost function Apply(g: Geometry, m: State, op: Op): (n: State)
    requires g.Valid() && Shaped(g, m) && Allowed(g, op)
    ensures Shaped(g, n)
  {
    match op
    case Load(idx, val) =>
      m.(weights := Loaded(g, m.weights, idx, val, g.wgt.per), nonZeroTile := m.nonZeroTile || val != 0)
    case Queue(idx, val) => Call(g, m, idx, val, false)
    case Stream(idx, val) => Call(g, m, idx, val, true)
  }

  /** The state after a sequence of calls on a new array. */
  ghost function Reach(g: Geometry, ops: seq<Op>): (m: State)
    requires g.Valid() && forall i :: 0 <= i < |ops| ==> Allowed(g, ops[i])
    ensures Shaped(g, m)
  {
    if ops == [] then BlankShaped(g); Blank(g)
    else Apply(g, Reach(g, ops[..|ops| - 1]), ops[|ops| - 1])
  }

  lemma BlankShaped(g: Geometry)
    ensures Shaped(g, Blank(g))
  {
  }

  /** In every reachable state of every geometry the top partial sums are zero: all a run needs of its start. */
  lemma {:induction false} ReachTop(g: Geometry, ops: seq<Op>)
    requires g.Valid() && forall i :: 0 <= i < |ops| ==> Allowed(g, ops[i])
    ensures ZeroTop(g, Reach(g, ops))
  {
    hide ZeroTop, Shaped, Apply;
    if ops == [] {
      BlankTop(g);
    } else {
      ReachTop(g, ops[..|ops| - 1]);
      ApplyTop(g, Reach(g, ops[..|ops| - 1]), ops[|ops| - 1]);
    }
  }

  lemma BlankTop(g: Geometry)
    requires g.Valid()
    ensures ZeroTop(g, Blank(g))
  {
  }

  lemma ApplyTop(g: Geometry, m: State, op: Op)
    requires g.Valid() && Shaped(g, m) && Allowed(g, op) && ZeroTop(g, m)
    ensures ZeroTop(g, Apply(g, m, op))
  {
    hide At, Tick, Stored, Loaded, LaneValues;
    if op.Stream? {
      TickTop(g, m.(inWait := Stored(g, m.inWait, op.idx, op.val, g.act.per)));
    }
  }

  /** Call `i` loads a non-zero word and no later call streams. */
  ghost predicate StillLoaded(ops: seq<Op>, i: nat) {
    i < |ops| && ops[i].Load? && ops[i].val != 0 && forall j :: i < j < |ops| ==> !ops[j].Stream?
  }

  /** In every reachable state the flag says whether a non-zero word was loaded since the last stream. */
  lemma {:induction false} ReachFlag(g: Geometry, ops: seq<Op>)
    requires g.Valid() && forall i :: 0 <= i < |ops| ==> Allowed(g, ops[i])
    ensures Reach(g, ops).nonZeroTile <==> exists i: nat :: StillLoaded(ops, i)
  {
    if ops != [] {
      var n := |ops| - 1;
      var init := ops[..n];
      ReachFlag(g, init);
      ApplyFlag(g, Reach(g, init), ops[n]);
      forall i: nat | i < n && !ops[n].Stream?
        ensures StillLoaded(ops, i) <==> StillLoaded(init, i)
      {
        assert StillLoaded(ops, i) ==> forall j :: i < j < n ==> init[j] == ops[j] && !init[j].Stream?;
      }
      assert ops[n].Stream? ==> forall i: nat | i < n :: !StillLoaded(ops, i);
      if exists i: nat :: StillLoaded(init, i) {
        var i: nat :| StillLoaded(init, i);
        assert !ops[n].Stream? ==> StillLoaded(ops, i);
      }
      assert ops[n].Load? && ops[n].val != 0 ==> StillLoaded(ops, n);
    }
  }

  lemma ApplyFlag(g: Geometry, m: State, op: Op)
    requires g.Valid() && Shaped(g, m) && Allowed(g, op)
    ensures Apply(g, m, op).nonZeroTile <==> (op.Load? && op.val != 0) || (m.nonZeroTile && !op.Stream?)
  {
    hide At, Stored, Loaded, LaneValues;
  }

  /** Largest magnitude of one product. */
  ghost function MaxProduct(g: Geometry): nat
    requires g.Valid()
  {
    MulAtLeast(Pow2(g.act.bits - 1), Pow2(g.wgt.bits - 1));
    Pow2(g.act.bits - 1) * Pow2(g.wgt.bits - 1)
  }

  /** K products of largest magnitude fit a signed 32-bit accumulator. */
  ghost predicate Fits(g: Geometry)
    requires g.Valid()
  {
    Mul(g.k, MaxProduct(g)) < 0x8000_0000
  }

  ghost predicate Within(s: seq<int>, h: int) {
    forall p :: 0 <= p < |s| ==> -h <= s[p] <= h
  }

  ghost predicate Small(v: int, h: int) {
    -h <= v <= h
  }

  /** Row r of the partial sums is at most r products large; in particular row 0 is zero. */
  ghost predicate Bounded(g: Geometry, m: State)
    requires g.Valid()
  {
    && Within(m.weights, Pow2(g.wgt.bits - 1)) && Within(m.inp, Pow2(g.act.bits - 1))
    && Within(m.inWait, Pow2(g.act.bits - 1))
    && forall r, c :: 0 <= r <= g.k && 0 <= c < g.k ==> Small(At(m.acc, g.k, r, c), Mul(r, MaxProduct(g)))
  }

  lemma ProductSmall(x: int, w: int, hx: int, hw: int)
    requires Small(x, hx) && Small(w, hw)
    ensures Small(x * w, hx * hw)
  {
    var ax, aw := if x < 0 then -x else x, if w < 0 then -w else w;
    MulMono(ax, hx, aw);
    MulMono(aw, hw, hx);
    assert ax * aw == x * w || ax * aw == -(x * w);
    assert ax * aw >= 0;
  }

  /** Wrapping around never makes a number larger in magnitude. */
  lemma WrapSmall(v: int, h: int)
    requires Small(v, h)
    ensures Small(Int32(v), h)
  {
  }

  /** A multiply-accumulate on bounded operands stays within one product more, and is exact if that fits 32 bits. */
  lemma MacSmall(g: Geometry, r: nat, x: int, w: int, a: int)
    requires g.Valid()
    requires Small(x, Pow2(g.act.bits - 1)) && Small(w, Pow2(g.wgt.bits - 1)) && Small(a, Mul(r, MaxProduct(g)))
    ensures Small(Mac(x, w, a), Mul(r + 1, MaxProduct(g)))
    ensures Mul(r + 1, MaxProduct(g)) < 0x8000_0000 ==> Mac(x, w, a) == x * w + a
  {
    hide Int32;
    var p := MaxProduct(g);
    ProductSmall(x, w, Pow2(g.act.bits - 1), Pow2(g.wgt.bits - 1));
    MulNext(r, p);
    WrapSmall(x * w, p);
    WrapSmall(Int32(x * w) + a, Mul(r, p) + p);
    if Mul(r + 1, p) < 0x8000_0000 {
      Int32Small(x * w);
      Int32Small(x * w + a);
    }
  }

  lemma {:induction false} StoredWithin(g: Geometry, s: seq<int>, idx: nat, val: Word, n: nat)
    requires g.Valid() && |s| == Mul(g.k, g.k) && n <= g.act.per && idx + n <= 2 * g.k
    requires Within(s, Pow2(g.act.bits - 1))
    ensures Within(Stored(g, s, idx, val, n), Pow2(g.act.bits - 1))
    decreases n
  {
    hide Lane, DiagPos;
    if n > 0 {
      StoredWithin(g, s, idx, val, n - 1);
      SignedRange(g.act, Lane(g.act, val, n - 1));
    }
  }

  lemma {:induction false} LoadedWithin(g: Geometry, s: seq<int>, idx: nat, val: Word, n: nat)
    requires g.Valid() && n <= g.wgt.per && Within(s, Pow2(g.wgt.bits - 1))
    ensures Within(Loaded(g, s, idx, val, n), Pow2(g.wgt.bits - 1))
    decreases n
  {
    hide Lane;
    if n > 0 {
      LoadedWithin(g, s, idx, val, n - 1);
      SignedRange(g.wgt, Lane(g.wgt, val, n - 1));
    }
  }

  lemma ShiftWithin(k: nat, s: seq<int>, h: int)
    requires k > 0 && Within(s, h)
    ensures Within(ShiftRight(k, s), h)
  {
    forall p | 0 <= p < |s|
      ensures -h <= ShiftRight(k, s)[p] <= h
    {
      DivModUnique(0, k, 0, 0);
      assert p == 0 ==> Col(k, p) == 0;
    }
  }

  lemma LoadWithin(k: nat, inp: seq<int>, inWait: seq<int>, h: int)
    requires k > 0 && Within(inp, h) && Within(inWait, h)
    ensures Within(LoadFirst(k, inp, inWait), h)
  {
    hide Col;
  }

  /** The tick adds the product at cell (r, c) to the sum above without wrap-around. */
  ghost predicate ExactAt(g: Geometry, m: State, r: nat, c: nat)
    requires g.Valid() && Shaped(g, m)
  {
    At(Tick(g, m).acc, g.k, r + 1, c)
    == At(LoadFirst(g.k, m.inp, m.inWait), g.k, r, c) * At(m.weights, g.k, r, c) + At(m.acc, g.k, r, c)
  }

  /** One cell of one tick: the bound of the next row, and no wrap-around if K products fit. */
  lemma TickCell(g: Geometry, m: State, r: nat, c: nat)
    requires g.Valid() && Shaped(g, m) && Bounded(g, m) && r < g.k && c < g.k
    ensures Small(At(Tick(g, m).acc, g.k, r + 1, c), Mul(r + 1, MaxProduct(g)))
    ensures At(Tick(g, m).acc, g.k, 0, c) == 0
    ensures Fits(g) ==> ExactAt(g, m, r, c)
  {
    hide LoadFirst, ShiftRight, ShiftDown, MacAll, LaneValues, MaxProduct, Mac;
    var loaded := LoadFirst(g.k, m.inp, m.inWait);
    LoadWithin(g.k, m.inp, m.inWait, Pow2(g.act.bits - 1));
    MacAllAt(g.k, m.acc, loaded, m.weights, r, c);
    MulFits(g.k, g.k, r);
    MulNext(r, MaxProduct(g));
    MulFits(g.k, MaxProduct(g), r);
    assert Small(At(m.acc, g.k, 0, c), Mul(0, MaxProduct(g)));
    MacSmall(g, r, At(loaded, g.k, r, c), At(m.weights, g.k, r, c), At(m.acc, g.k, r, c));
  }

  lemma TickBounded(g: Geometry, m: State)
    requires g.Valid() && Shaped(g, m) && Bounded(g, m)
    ensures Bounded(g, Tick(g, m))
  {
    hide LoadFirst, ShiftRight, ShiftDown, MacAll, At, MaxProduct, Within, Fits, Shaped, LaneValues, ExactAt;
    var h := Pow2(g.act.bits - 1);
    LoadWithin(g.k, m.inp, m.inWait, h);
    ShiftWithin(g.k, LoadFirst(g.k, m.inp, m.inWait), h);
    ShiftWithin(g.k, m.inWait, h);
    forall r, c | 0 <= r <= g.k && 0 <= c < g.k
      ensures Small(At(Tick(g, m).acc, g.k, r, c), Mul(r, MaxProduct(g)))
    {
      TickCell(g, m, if r == 0 then 0 else r - 1, c);
    }
  }

  lemma ApplyBounded(g: Geometry, m: State, op: Op)
    requires g.Valid() && Shaped(g, m) && Allowed(g, op) && Bounded(g, m)
    ensures Bounded(g, Apply(g, m, op))
  {
    hide Tick, At, MaxProduct, Within, LaneValues, Stored, Loaded;
    match op
    case Load(idx, val) => LoadedWithin(g, m.weights, idx, val, g.wgt.per);
    case Queue(idx, val) => StoredWithin(g, m.inWait, idx, val, g.act.per);
    case Stream(idx, val) =>
      StoredWithin(g, m.inWait, idx, val, g.act.per);
      TickBounded(g, m.(inWait := Stored(g, m.inWait, idx, val, g.act.per)));
  }

  lemma BlankBounded(g: Geometry)
    requires g.Valid()
    ensures Bounded(g, Blank(g))
  {
    hide MaxProduct;
  }

  /** The bound holds after every sequence of calls, in every geometry. */
  lemma {:induction false} ReachBounded(g: Geometry, ops: seq<Op>)
    requires g.Valid() && forall i :: 0 <= i < |ops| ==> Allowed(g, ops[i])
    ensures Bounded(g, Reach(g, ops))
  {
    hide Bounded, Shaped, Apply;
    if ops == [] {
      BlankBounded(g);
    } else {
      ReachBounded(g, ops[..|ops| - 1]);
      ApplyBounded(g, Reach(g, ops[..|ops| - 1]), ops[|ops| - 1]);
    }
  }

  /** In every reachable state the next tick adds each product without wrap-around, if K largest products fit. */
  lemma NeverWraps(g: Geometry, ops: seq<Op>, r: nat, c: nat)
    requires g.Valid() && Fits(g) && (forall i :: 0 <= i < |ops| ==> Allowed(g, ops[i])) && r < g.k && c < g.k
    ensures ExactAt(g, Reach(g, ops), r, c)
  {
    hide Reach, Shaped, Fits, Bounded, ExactAt;
    ReachBounded(g, ops);
    TickCell(g, Reach(g, ops), r, c);
  }

  /** With eight-bit weights and activations the partial sums of row r are at most r * 2^14 in magnitude, for every K. */
  lemma EightBitBound(g: Geometry, ops: seq<Op>, r: nat, c: nat)
    requires g.Valid() && g.act.bits == 8 && g.wgt.bits == 8 && r <= g.k && c < g.k
    requires forall i :: 0 <= i < |ops| ==> Allowed(g, ops[i])
    ensures -(r * 0x4000) <= At(Reach(g, ops).acc, g.k, r, c) <= r * 0x4000
  {
    hide Reach, At, MaxProduct;
    ReachBounded(g, ops);
    EightBitProduct(g);
    MulIs(r, MaxProduct(g));
    assert Small(At(Reach(g, ops).acc, g.k, r, c), Mul(r, MaxProduct(g)));
  }

  lemma EightBitProduct(g: Geometry)
    requires g.Valid() && g.act.bits == 8 && g.wgt.bits == 8
    ensures MaxProduct(g) == 0x4000
  {
    assert Pow2(7) == 128;
  }
}
