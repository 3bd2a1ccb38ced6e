/** Exactly when the accumulators can wrap around: a run that reaches the largest partial sums. */
module Overflow {
  import opened Arith
  import opened Words
  import opened Machine
  import opened Wavefront
  import opened Feeding
  import opened TileProduct
  import opened Systolic
  import opened Reachable

  /** The word whose lanes all hold the most negative element. */
  ghost function LowWord(l: Lanes): Word
    requires l.Valid()
  {
    LowLanes(l);
    Pack(l, seq(l.per, _ => Pow2(l.bits - 1)))
  }

  lemma LowLanes(l: Lanes)
    requires l.Valid()
    ensures AreLanes(l, seq(l.per, _ => Pow2(l.bits - 1)))
  {
    assert Pow2(l.bits) == 2 * Pow2(l.bits - 1);
  }

  lemma LowLane(l: Lanes, n: nat)
    requires l.Valid() && n < l.per
    ensures Signed(l, Lane(l, LowWord(l), n)) == -Pow2(l.bits - 1)
  {
    hide Lane;
    LowLanes(l);
    LaneOfPack(l, seq(l.per, _ => Pow2(l.bits - 1)), n);
    assert Pow2(l.bits) == 2 * Pow2(l.bits - 1);
  }

  // ----- the run: all weights, then rows, then one more row left waiting

  ghost function LowTile(g: Geometry): (tile: seq<Word>)
    requires g.Valid()
    ensures IsTile(g, tile) && forall i :: 0 <= i < |tile| ==> tile[i] == LowWord(g.wgt)
  {
    seq<Word>(TileSize(g), _ => LowWord(g.wgt))
  }

  ghost function LowRow(g: Geometry): (x: seq<int>)
    requires g.Valid()
    ensures |x| == g.k && forall i :: 0 <= i < |x| ==> x[i] == -Pow2(g.act.bits - 1)
  {
    seq(g.k, _ => -Pow2(g.act.bits - 1))
  }

  ghost function LowRows(g: Geometry, n: nat): (xs: seq<seq<int>>)
    requires g.Valid()
    ensures |xs| == n && forall i :: 0 <= i < n ==> xs[i] == LowRow(g)
  {
    seq(n, _ => LowRow(g))
  }

  /** The calls that load the first `n` words of the tile. */
  ghost function Loads(g: Geometry, n: nat): (ops: seq<Op>)
    requires g.Valid()
    ensures forall i :: 0 <= i < |ops| ==> Allowed(g, ops[i])
  {
    if n == 0 then [] else Loads(g, n - 1) + [Load(Mul(n - 1, g.wgt.per), LowWord(g.wgt))]
  }

  lemma {:induction false} LoadsWeights(g: Geometry, n: nat)
    requires g.Valid() && n <= TileSize(g)
    ensures Reach(g, Loads(g, n)).weights == LoadedWords(g, Blank(g).weights, LowTile(g), n)
  {
    hide Loaded, LowWord, Shaped;
    if n > 0 {
      LoadsWeights(g, n - 1);
      var ops := Loads(g, n);
      assert ops[..|ops| - 1] == Loads(g, n - 1);
    }
  }

  /** After all loads: the calls of `n` whole rows and `j` words of the next, at the index of their first element. */
  ghost function Ops(g: Geometry, n: nat, j: nat): (ops: seq<Op>)
    requires g.Valid() && j <= g.actCols
    ensures forall i :: 0 <= i < |ops| ==> Allowed(g, ops[i])
    decreases n, j
  {
    if j > 0 then
      MulFits(g.actCols, g.act.per, j - 1);
      Ops(g, n, j - 1) + [Queue(Mul(j - 1, g.act.per), LowWord(g.act))]
    else if n > 0 then
      ColsFacts(g);
      MulFits(g.actCols, g.act.per, g.actCols - 1);
      Ops(g, n - 1, g.actCols - 1) + [Stream(Mul(g.actCols - 1, g.act.per), LowWord(g.act))]
    else Loads(g, TileSize(g))
  }

  /** What the array holds then. */
  ghost predicate Low(g: Geometry, m: State, n: nat, j: nat)
    requires g.Valid()
  {
    && Wave(g, m, LowRows(g, n)) && Waiting(g, m, LowRow(g), Mul(j, g.act.per))
    && m.weights == Elems(g.wgt, LowTile(g))
  }

  lemma LowStore(g: Geometry, m: State, n: nat, j: nat)
    requires g.Valid() && j < g.actCols && Low(g, m, n, j)
    ensures Mul(j, g.act.per) + g.act.per <= g.k && Shaped(g, m)
    ensures Low(g, m.(inWait := Stored(g, m.inWait, Mul(j, g.act.per), LowWord(g.act), g.act.per)), n, j + 1)
  {
    hide Wave, Waiting, LowWord, Stored, LowRows, Elems, Lane, Mul;
    MulFits(g.actCols, g.act.per, j);
    MulNext(j, g.act.per);
    forall l | 0 <= l < g.act.per
      ensures LowRow(g)[Mul(j, g.act.per) + l] == Act(g, LowWord(g.act), l)
    {
      LowLane(g.act, l);
    }
    WaveShaped(g, m, LowRows(g, n));
    StoreNext(g, m, LowRows(g, n), LowRow(g), LowWord(g.act), Mul(j, g.act.per));
  }

  lemma WaveShaped(g: Geometry, m: State, xs: seq<seq<int>>)
    requires Wave(g, m, xs)
    ensures Shaped(g, m)
  {
    hide Cell;
  }

  lemma LowTick(g: Geometry, m: State, n: nat)
    requires g.Valid() && Shaped(g, m) && Low(g, m, n, g.actCols)
    ensures Low(g, Tick(g, m), n + 1, 0)
  {
    hide Wave, LowRow, Elems, At;
    WaveTick(g, m, LowRows(g, n), LowRow(g));
    assert LowRows(g, n) + [LowRow(g)] == LowRows(g, n + 1);
    WaveShaped(g, Tick(g, m), LowRows(g, n + 1));
  }

  lemma LowStart(g: Geometry)
    requires g.Valid()
    ensures Low(g, Reach(g, Loads(g, TileSize(g))), 0, 0)
  {
    hide Elems, LoadedWords, Reach, At, Cell, Loads;
    var m := Reach(g, Loads(g, TileSize(g)));
    LoadsWeights(g, TileSize(g));
    LoadedTile(g, Blank(g).weights, LowTile(g));
    ReachTop(g, Loads(g, TileSize(g)));
    WaveStart(g, m);
    assert LowRows(g, 0) == [];
  }

  lemma LowQueue(g: Geometry, m: State, n: nat, j: nat)
    requires g.Valid() && Shaped(g, m) && j < g.actCols && Low(g, m, n, j)
    ensures Allowed(g, Queue(Mul(j, g.act.per), LowWord(g.act)))
    ensures Low(g, Apply(g, m, Queue(Mul(j, g.act.per), LowWord(g.act))), n, j + 1)
  {
    hide Low, LowWord, LaneValues, Stored;
    LowStore(g, m, n, j);
  }

  lemma LowStream(g: Geometry, m: State, n: nat)
    requires g.Valid() && Shaped(g, m) && g.actCols > 0 && Low(g, m, n, g.actCols - 1)
    ensures Allowed(g, Stream(Mul(g.actCols - 1, g.act.per), LowWord(g.act)))
    ensures Low(g, Apply(g, m, Stream(Mul(g.actCols - 1, g.act.per), LowWord(g.act))), n + 1, 0)
  {
    hide Low, LowWord, LaneValues, Stored, Tick;
    LowStore(g, m, n, g.actCols - 1);
    LowTick(g, m.(inWait := Stored(g, m.inWait, Mul(g.actCols - 1, g.act.per), LowWord(g.act), g.act.per)), n);
  }

  lemma {:induction false} LowReached(g: Geometry, n: nat, j: nat)
    requires g.Valid() && j <= g.actCols
    ensures Low(g, Reach(g, Ops(g, n, j)), n, j)
    decreases n, j
  {
    hide Low, Loads, LowWord, Shaped, Apply, Reach;
    if j > 0 {
      LowReached(g, n, j - 1);
      LowQueue(g, Reach(g, Ops(g, n, j - 1)), n, j - 1);
      LastOp(g, Ops(g, n, j - 1), Queue(Mul(j - 1, g.act.per), LowWord(g.act)));
    } else if n > 0 {
      ColsFacts(g);
      LowReached(g, n - 1, g.actCols - 1);
      LowStream(g, Reach(g, Ops(g, n - 1, g.actCols - 1)), n - 1);
      LastOp(g, Ops(g, n - 1, g.actCols - 1), Stream(Mul(g.actCols - 1, g.act.per), LowWord(g.act)));
    } else {
      LowStart(g);
    }
  }

  lemma LastOp(g: Geometry, ops: seq<Op>, op: Op)
    requires g.Valid() && (forall i :: 0 <= i < |ops| ==> Allowed(g, ops[i])) && Allowed(g, op)
    ensures Reach(g, ops + [op]) == Apply(g, Reach(g, ops), op)
  {
    hide Apply;
    assert (ops + [op])[..|ops|] == ops;
  }

  // ----- the sums of this run

  lemma LowWeight(g: Geometry, r: nat, c: nat)
    requires g.Valid() && r < g.k && c < g.k
    ensures At(Elems(g.wgt, LowTile(g)), g.k, r, c) == -Pow2(g.wgt.bits - 1)
  {
    hide Elems, LowWord, Lane, Mul;
    TileRoom(g);
    MulFits(g.k, g.k, r);
    var a, b := MulSplit(|LowTile(g)|, g.wgt.per, Mul(r, g.k) + c);
    ElemsAt(g.wgt, LowTile(g), a, b);
    LowLane(g.wgt, b);
  }

  lemma {:induction false} LowDot(g: Geometry, c: nat, n: nat)
    requires g.Valid() && n <= g.k && c < g.k
    ensures Dot(LowRow(g), Elems(g.wgt, LowTile(g)), g.k, c, n) == Mul(n, MaxProduct(g))
  {
    hide Elems, At, LowTile;
    if n > 0 {
      LowDot(g, c, n - 1);
      LowWeight(g, n - 1, c);
      Negatives(Pow2(g.act.bits - 1), Pow2(g.wgt.bits - 1));
    }
  }

  lemma Negatives(a: int, b: int)
    ensures (-a) * (-b) == a * b
  {
  }

  /** The first row whose sum no longer fits. */
  lemma {:induction false} FirstOverflow(p: nat, k: nat) returns (r: nat)
    requires Mul(k, p) >= 0x8000_0000
    ensures r < k && Mul(r, p) < 0x8000_0000 <= Mul(r + 1, p)
  {
    if Mul(k - 1, p) >= 0x8000_0000 {
      r := FirstOverflow(p, k - 1);
    } else {
      r := k - 1;
    }
  }

  /** In the state with K rows in the array and the next one waiting, cell (r, 0) adds the largest product to r of them. */
  lemma LowCell(g: Geometry, m: State, r: nat)
    requires g.Valid() && Shaped(g, m) && Low(g, m, g.k, g.actCols) && r < g.k
    ensures At(LoadFirst(g.k, m.inp, m.inWait), g.k, r, 0) == -Pow2(g.act.bits - 1)
    ensures At(m.weights, g.k, r, 0) == -Pow2(g.wgt.bits - 1)
    ensures At(m.acc, g.k, r, 0) == Int32(Mul(r, MaxProduct(g)))
  {
    hide Elems, At, LowTile, LoadFirst, MaxProduct;
    InputAt(g, m, LowRows(g, g.k), LowRow(g), r, 0);
    LowWeight(g, r, 0);
    if r == 0 {
      assert Cell(g, m, LowRows(g, g.k), 0, 0);
      MulNone(MaxProduct(g));
    } else {
      assert Cell(g, m, LowRows(g, g.k), r - 1, 0);
      LowDot(g, 0, r);
    }
  }

  /** If K largest products do not fit, a tick of this run wraps around. */
  lemma Wraps(g: Geometry) returns (r: nat)
    requires g.Valid() && !Fits(g)
    ensures r < g.k && !ExactAt(g, Reach(g, Ops(g, g.k, g.actCols)), r, 0)
  {
    hide Low, Reach, Ops, At, Tick, LoadFirst, Shaped, MaxProduct, Mac;
    var m, p := Reach(g, Ops(g, g.k, g.actCols)), MaxProduct(g);
    r := FirstOverflow(p, g.k);
    LowReached(g, g.k, g.actCols);
    LowCell(g, m, r);
    TickSum(g, m, r);
    MulNext(r, p);
    Int32Small(Mul(r, p));
    ProductIs(g);
    MacRange(-Pow2(g.act.bits - 1), -Pow2(g.wgt.bits - 1), Mul(r, p));
  }

  lemma ProductIs(g: Geometry)
    requires g.Valid()
    ensures (-Pow2(g.act.bits - 1)) * (-Pow2(g.wgt.bits - 1)) == MaxProduct(g)
  {
    Negatives(Pow2(g.act.bits - 1), Pow2(g.wgt.bits - 1));
  }

  lemma MacRange(x: int, w: int, a: int)
    ensures Mac(x, w, a) < 0x8000_0000
  {
  }

  lemma TickSum(g: Geometry, m: State, r: nat)
    requires g.Valid() && Shaped(g, m) && r < g.k
    ensures At(Tick(g, m).acc, g.k, r + 1, 0)
         == Mac(At(LoadFirst(g.k, m.inp, m.inWait), g.k, r, 0), At(m.weights, g.k, r, 0), At(m.acc, g.k, r, 0))
  {
    hide At, LoadFirst, ShiftRight, ShiftDown, MacAll, Mac;
    MacAllAt(g.k, m.acc, LoadFirst(g.k, m.inp, m.inWait), m.weights, r, 0);
  }

  // ----- the exact condition

  ghost predicate AllAllowed(g: Geometry, ops: seq<Op>) {
    forall i :: 0 <= i < |ops| ==> Allowed(g, ops[i])
  }

  /** The tick after these calls adds exactly in every cell. */
  ghost predicate AddsExactly(g: Geometry, ops: seq<Op>)
    requires g.Valid()
  {
    AllAllowed(g, ops) ==> forall r, c :: 0 <= r < g.k && 0 <= c < g.k ==> ExactAt(g, Reach(g, ops), r, c)
  }

  /** No sequence of calls leads to a wrap-around if and only if K largest products fit a signed 32-bit number. */
  lemma ExactlyFits(g: Geometry)
    requires g.Valid()
    ensures (forall ops :: AddsExactly(g, ops)) <==> Fits(g)
  {
    hide Reach, ExactAt, Fits, Ops;
    if Fits(g) {
      forall ops | AllAllowed(g, ops)
        ensures AddsExactly(g, ops)
      {
        forall r, c | 0 <= r < g.k && 0 <= c < g.k
          ensures ExactAt(g, Reach(g, ops), r, c)
        {
          NeverWraps(g, ops, r, c);
        }
      }
    } else {
      var r := Wraps(g);
      assert !AddsExactly(g, Ops(g, g.k, g.actCols));
    }
  }

  /** With eight-bit weights and activations: exactly for K below 2^17. */
  lemma EightBitExact(g: Geometry)
    requires g.Valid() && g.act.bits == 8 && g.wgt.bits == 8
    ensures (forall ops :: AddsExactly(g, ops)) <==> g.k < 0x2_0000
  {
    hide AddsExactly;
    ExactlyFits(g);
    EightBitProduct(g);
    MulIs(g.k, MaxProduct(g));
  }

  /** With 32-bit weights and activations: never. */
  lemma WideWraps(g: Geometry)
    requires g.Valid() && g.act.bits == 32 && g.wgt.bits == 32
    ensures !forall ops :: AddsExactly(g, ops)
  {
    hide AddsExactly, Pow2;
    ExactlyFits(g);
    Pow2Table();
    Pow2Add(1, 31);
    OneBit();
    MulFits(g.k, MaxProduct(g), 0);
    MulMono(1, Pow2(31), Pow2(31));
  }

  lemma OneBit()
    ensures Pow2(1) == 2
  {
  }
}
