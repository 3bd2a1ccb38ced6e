/** The accelerator object: five fixed-size memories updated in place, one bus word per call. */
module Systolic {
  import opened Arith
  import opened Words
  import opened Machine
  import opened Feeding

  class SystolicArray {
    const g: Geometry
    const weights: array<int>
    const outputMemory: array<int>
    const inputMemory: array<int>
    const inWaitingMemory: array<int>
    const outWaitingMemory: array<int>
    var nonZeroTile: bool

    ghost predicate Valid()
      reads this, weights, outputMemory, inputMemory, inWaitingMemory, outWaitingMemory
    {
      && g.Valid()
      && Separate()
      && Shaped(g, Now())
    }

    /** No two memories share storage. */
    ghost predicate Separate() {
      && weights != outputMemory && weights != inputMemory && weights != inWaitingMemory
      && weights != outWaitingMemory && outputMemory != inputMemory && outputMemory != inWaitingMemory
      && outputMemory != outWaitingMemory && inputMemory != inWaitingMemory
      && inputMemory != outWaitingMemory && inWaitingMemory != outWaitingMemory
    }

    ghost function Repr(): set<object> {
      {this, weights, outputMemory, inputMemory, inWaitingMemory, outWaitingMemory}
    }

    ghost function Now(): State
      reads this, weights, outputMemory, inputMemory, inWaitingMemory, outWaitingMemory
    {
      State(weights[..], outputMemory[..], inputMemory[..], inWaitingMemory[..], outWaitingMemory[..], nonZeroTile)
    }

    /** All memories start at zero. */
    constructor (g: Geometry)
      requires g.Valid()
      ensures this.g == g && Valid() && fresh(Repr())
      ensures Now() == Blank(g)
    {
      this.g := g;
      weights := new int[Mul(g.k, g.k)](_ => 0);
      outputMemory := new int[Mul(g.k, g.k) + g.k](_ => 0);
      inputMemory := new int[Mul(g.k, g.k)](_ => 0);
      inWaitingMemory := new int[Mul(g.k, g.k)](_ => 0);
      outWaitingMemory := new int[Mul(g.k, g.k)](_ => 0);
      nonZeroTile := false;
      new;
      assert weights[..] == Zeros(Mul(g.k, g.k)) && outputMemory[..] == Zeros(Mul(g.k, g.k) + g.k);
      assert inputMemory[..] == inWaitingMemory[..] == outWaitingMemory[..] == Zeros(Mul(g.k, g.k));
    }

    method LoadWeights(idx: nat, val: Word) returns (nonZero: bool)
      requires Valid()
      modifies this, weights
      ensures Valid()
      ensures nonZero == (old(nonZeroTile) || val != 0)
      ensures Now() == old(Now()).(weights := Loaded(g, old(weights[..]), idx, val, g.wgt.per), nonZeroTile := nonZero)
    {
      hide Wgt, LaneValues, Mul;
      var i := 0;
      while i < g.wgt.per
        invariant 0 <= i <= g.wgt.per
        invariant weights[..] == Loaded(g, old(weights[..]), idx, val, i)
        modifies weights
      {
        var currVal := Wgt(g, val, i);
        if idx + i < Mul(g.k, g.k) {
          weights[idx + i] := currVal;
        }
        i := i + 1;
      }
      if val != 0 {
        nonZeroTile := true;
      }
      nonZero := nonZeroTile;
    }

    method StoreInput(idx: nat, val: Word)
      requires Valid() && idx + g.act.per <= 2 * g.k
      modifies inWaitingMemory
      ensures Valid()
      ensures Now() == old(Now()).(inWait := Stored(g, old(inWaitingMemory[..]), idx, val, g.act.per))
    {
      hide Act, DiagPos, LaneValues, Mul;
      var i := 0;
      while i < g.act.per
        invariant 0 <= i <= g.act.per
        invariant inWaitingMemory[..] == Stored(g, old(inWaitingMemory[..]), idx, val, i)
      {
        var currVal := Act(g, val, i);
        var rowIndex := idx + i;
        inWaitingMemory[DiagPos(g.k, rowIndex)] := currVal;
        i := i + 1;
      }
    }

    method RetrieveOutput(idx: nat) returns (result: Word)
      requires Valid()
      ensures result == Retrieved(g, Now(), idx)
    {
      ColsFacts(g);
      var resultIdx := StartCol(g, idx);
      var lanes: seq<int> := [];
      var i := 0;
      while i < g.act.per
        invariant 0 <= i <= g.act.per
        invariant lanes == RetrievedLanes(g, Now(), resultIdx)[..i]
      {
        lanes := lanes + [outWaitingMemory[OutPos(g.k, resultIdx + i)]];
        i := i + 1;
      }
      assert lanes == RetrievedLanes(g, Now(), resultIdx);
      result := PackByOr(g.act, lanes);
    }

    method InputQueue(idx: nat, val: Word) returns (result: Word)
      requires Valid() && idx + g.act.per <= 2 * g.k
      modifies inWaitingMemory
      ensures Valid()
      ensures Now() == Call(g, old(Now()), idx, val, false)
      ensures result == Retrieved(g, Now(), idx)
    {
      StoreInput(idx, val);
      result := RetrieveOutput(idx);
    }

    /** One row of a table moves right in place, from its last column down. */
    static method ShiftRow(a: array<int>, base: nat, k: nat)
      requires k > 0 && base + k <= a.Length
      modifies a
      ensures RowMoved(base, k, old(a[..]), a[..])
    {
      var j := k - 1;
      while j > 0
        invariant 0 <= j < k
        invariant forall p :: 0 <= p < a.Length ==>
                    a[p] == if base + j < p < base + k then old(a[p - 1]) else old(a[p])
      {
        a[base + j] := a[base + j - 1];
        j := j - 1;
      }
    }

    /** The waiting triangle feeds the first column of the input registers and moves right. */
    method SkewInput()
      requires Valid()
      modifies inputMemory, inWaitingMemory
      ensures inputMemory[..] == LoadFirst(g.k, old(inputMemory[..]), old(inWaitingMemory[..]))
      ensures inWaitingMemory[..] == ShiftRight(g.k, old(inWaitingMemory[..]))
    {
      hide LaneValues, Mul, LoadFirst, ShiftRight, RowsDone;
      ghost var in0, wait0 := inputMemory[..], inWaitingMemory[..];
      RowsStart(g.k, in0, LoadFirst(g.k, in0, wait0));
      RowsStart(g.k, wait0, ShiftRight(g.k, wait0));
      var i := 0;
      while i < g.k
        invariant 0 <= i <= g.k
        invariant RowsDone(Mul(i, g.k), inputMemory[..], in0, LoadFirst(g.k, in0, wait0))
        invariant RowsDone(Mul(i, g.k), inWaitingMemory[..], wait0, ShiftRight(g.k, wait0))
      {
        MulFits(g.k, g.k, i);
        ghost var s, t := inputMemory[..], inWaitingMemory[..];
        inputMemory[Mul(i, g.k)] := inWaitingMemory[Mul(i, g.k) + g.k - 1];
        assert inputMemory[..] == s[Mul(i, g.k) := t[Mul(i, g.k) + g.k - 1]];
        RowsLoad(g.k, i, in0, wait0, s, t);
        ShiftRow(inWaitingMemory, Mul(i, g.k), g.k);
        RowsShift(g.k, i, wait0, t, inWaitingMemory[..]);
        i := i + 1;
      }
      RowsEnd(inputMemory[..], in0, LoadFirst(g.k, in0, wait0));
      RowsEnd(inWaitingMemory[..], wait0, ShiftRight(g.k, wait0));
    }

    /** The input registers move right. */
    method ShiftInput()
      requires Valid()
      modifies inputMemory
      ensures inputMemory[..] == ShiftRight(g.k, old(inputMemory[..]))
    {
      hide LaneValues, Mul, ShiftRight, RowsDone;
      ghost var in0 := inputMemory[..];
      RowsStart(g.k, in0, ShiftRight(g.k, in0));
      var i := 0;
      while i < g.k
        invariant 0 <= i <= g.k
        invariant RowsDone(Mul(i, g.k), inputMemory[..], in0, ShiftRight(g.k, in0))
      {
        MulFits(g.k, g.k, i);
        ghost var s := inputMemory[..];
        ShiftRow(inputMemory, Mul(i, g.k), g.k);
        RowsShift(g.k, i, in0, s, inputMemory[..]);
        i := i + 1;
      }
      RowsEnd(inputMemory[..], in0, ShiftRight(g.k, in0));
    }

    /** Multiply and accumulate in place, from the last cell to the first, so that no sum is read after it moved. */
    method Accumulate()
      requires Valid()
      modifies outputMemory
      ensures outputMemory[..] == MacAll(g.k, old(outputMemory[..]), inputMemory[..], weights[..])
    {
      hide Mac, LaneValues;
      ghost var acc0 := outputMemory[..];
      var i := Mul(g.k, g.k);
      while i > 0
        invariant 0 <= i <= Mul(g.k, g.k)
        invariant forall p :: i + g.k <= p < outputMemory.Length ==>
                    outputMemory[p] == Mac(inputMemory[p - g.k], weights[p - g.k], acc0[p - g.k])
        invariant forall p :: 0 <= p < i + g.k ==> outputMemory[p] == acc0[p]
      {
        i := i - 1;
        outputMemory[i + g.k] := Mac(inputMemory[i], weights[i], outputMemory[i]);
      }
    }

    /** One column of a table moves down in place, from its last row up. */
    static method ShiftColumn(a: array<int>, k: nat, j: nat)
      requires j < k && a.Length == Mul(k, k)
      modifies a
      ensures ColumnShifted(k, j, 0, old(a[..]), a[..])
    {
      hide Col;
      ghost var a0 := a[..];
      ColumnStart(k, j, a0);
      var i := k - 1;
      while i > 0
        invariant 0 <= i < k
        invariant ColumnShifted(k, j, Mul(i, k), a0, a[..])
      {
        ghost var s := a[..];
        MulFits(k, k, i);
        a[Mul(i, k) + j] := a[Mul(i - 1, k) + j];
        assert a[..] == s[Mul(i, k) + j := s[Mul(i - 1, k) + j]];
        ColumnStep(k, j, i, a0, s);
        i := i - 1;
      }
    }

    /** The de-skewing triangle moves down one row, column by column, and takes the finished sums on top. */
    method SkewOutput()
      requires Valid()
      modifies outWaitingMemory
      ensures g.k <= outWaitingMemory.Length
      ensures outWaitingMemory[..] == ShiftDown(g, old(outWaitingMemory[..]), outputMemory[Mul(g.k, g.k)..])
    {
      hide LaneValues, ColumnsDone, ColumnShifted, Mul, ShiftDown;
      MulFits(g.k, g.k, 0);
      ghost var out0, last := outWaitingMemory[..], outputMemory[Mul(g.k, g.k)..];
      ColumnsStart(g, out0, last);
      var j := 0;
      while j < g.k
        invariant 0 <= j <= g.k
        invariant ColumnsDone(g, outWaitingMemory[..], out0, last, j)
      {
        ghost var s := outWaitingMemory[..];
        ShiftColumn(outWaitingMemory, g.k, j);
        ghost var t := outWaitingMemory[..];
        outWaitingMemory[j] := Mask(g, outputMemory[Mul(g.k, g.k) + j]);
        assert outWaitingMemory[..] == t[j := Mask(g, last[j])];
        ColumnsStep(g, s, t, out0, last, j);
        j := j + 1;
      }
      ColumnsEnd(g, outWaitingMemory[..], out0, last);
    }

    /** One clock tick: store the word, shift, multiply and accumulate, shift, read. */
    method StreamInOut(idx: nat, val: Word) returns (result: Word)
      requires Valid() && idx + g.act.per <= 2 * g.k
      modifies this, inWaitingMemory, inputMemory, outputMemory, outWaitingMemory
      ensures Valid()
      ensures Now() == Call(g, old(Now()), idx, val, true)
      ensures result == Retrieved(g, Now(), idx)
    {
      hide LaneValues, Mul, LoadFirst, ShiftRight, MacAll, ShiftDown, Stored, Retrieved;
      nonZeroTile := false;
      StoreInput(idx, val);
      SkewInput();
      Accumulate();
      ShiftInput();
      SkewOutput();
      result := RetrieveOutput(idx);
    }
  }

  /** The row at `base` has moved right; everything else is unchanged. */
  ghost predicate RowMoved(base: nat, k: nat, s: seq<int>, t: seq<int>) {
    |t| == |s| && forall p {:trigger t[p]} :: 0 <= p < |s| ==> t[p] == if base < p < base + k then s[p - 1] else s[p]
  }

  /** The part before `b` holds the new contents, the rest the old. */
  ghost predicate RowsDone(b: nat, s: seq<int>, s0: seq<int>, s1: seq<int>) {
    |s| == |s0| == |s1| && forall p :: 0 <= p < |s| ==> s[p] == if p < b then s1[p] else s0[p]
  }

  lemma RowsStart(k: nat, s0: seq<int>, s1: seq<int>)
    requires |s0| == |s1|
    ensures RowsDone(Mul(0, k), s0, s0, s1)
  {
  }

  lemma RowsEnd(s: seq<int>, s0: seq<int>, s1: seq<int>)
    requires RowsDone(|s|, s, s0, s1)
    ensures s == s1
  {
  }

  lemma RowsShift(k: nat, i: nat, s0: seq<int>, s: seq<int>, t: seq<int>)
    requires k > 0 && Mul(i, k) + k <= |s0|
    requires RowsDone(Mul(i, k), s, s0, ShiftRight(k, s0)) && RowMoved(Mul(i, k), k, s, t)
    ensures RowsDone(Mul(i + 1, k), t, s0, ShiftRight(k, s0))
  {
    hide Col;
    forall p | 0 <= p < |t|
      ensures t[p] == if p < Mul(i + 1, k) then ShiftRight(k, s0)[p] else s0[p]
    {
      if Mul(i, k) <= p < Mul(i, k) + k {
        ColOf(k, i, p - Mul(i, k));
        assert Col(k, p) == p - Mul(i, k);
        assert p > Mul(i, k) ==> s[p - 1] == s0[p - 1];
      }
    }
  }

  lemma RowsLoad(k: nat, i: nat, in0: seq<int>, wait0: seq<int>, s: seq<int>, t: seq<int>)
    requires k > 0 && Mul(i, k) + k <= |in0| == |wait0|
    requires RowsDone(Mul(i, k), s, in0, LoadFirst(k, in0, wait0))
    requires RowsDone(Mul(i, k), t, wait0, ShiftRight(k, wait0))
    ensures RowsDone(Mul(i + 1, k), s[Mul(i, k) := t[Mul(i, k) + k - 1]], in0, LoadFirst(k, in0, wait0))
  {
    hide Col, ShiftRight;
    var u := s[Mul(i, k) := t[Mul(i, k) + k - 1]];
    forall p | 0 <= p < |u|
      ensures u[p] == if p < Mul(i + 1, k) then LoadFirst(k, in0, wait0)[p] else in0[p]
    {
      if Mul(i, k) <= p < Mul(i, k) + k {
        ColOf(k, i, p - Mul(i, k));
      }
    }
  }

  /** Column `j` has moved down in the rows below flat offset `b`; everything else is unchanged. */
  ghost predicate ColumnShifted(k: nat, j: nat, b: nat, s0: seq<int>, s: seq<int>)
    requires k > 0
  {
    |s| == |s0| && forall p {:trigger s[p]} :: 0 <= p < |s| ==> s[p] == if Col(k, p) == j && p >= b + k then s0[p - k] else s0[p]
  }

  lemma ColumnStart(k: nat, j: nat, s: seq<int>)
    requires k > 0 && |s| == Mul(k, k)
    ensures ColumnShifted(k, j, Mul(k - 1, k), s, s)
  {
    hide Col;
  }

  lemma ColumnStep(k: nat, j: nat, i: nat, s0: seq<int>, s: seq<int>)
    requires 0 < i < k && j < k && |s0| == Mul(k, k) && Mul(i, k) + j < |s0|
    requires ColumnShifted(k, j, Mul(i, k), s0, s)
    ensures ColumnShifted(k, j, Mul(i - 1, k), s0, s[Mul(i, k) + j := s[Mul(i - 1, k) + j]])
  {
    hide Col;
    var q := Mul(i, k) + j;
    var t := s[q := s[q - k]];
    ColOf(k, i, j);
    forall p | 0 <= p < |t|
      ensures t[p] == if Col(k, p) == j && p >= Mul(i - 1, k) + k then s0[p - k] else s0[p]
    {
      if Col(k, p) == j {
        ColGap(k, p, q);
      }
      assert s[q - k] == s0[q - k];
    }
  }

  /** Columns left of `j` hold the new contents, the others the old. */
  ghost predicate ColumnsDone(g: Geometry, s: seq<int>, out0: seq<int>, last: seq<int>, j: nat)
    requires g.k > 0 && |last| <= |out0|
  {
    && |s| == |out0|
    && forall p :: 0 <= p < |s| ==> s[p] == if Col(g.k, p) < j then ShiftDown(g, out0, last)[p] else out0[p]
  }

  lemma ColumnsStart(g: Geometry, out0: seq<int>, last: seq<int>)
    requires g.k > 0 && |last| <= |out0|
    ensures ColumnsDone(g, out0, out0, last, 0)
  {
    hide Col, ShiftDown;
  }

  lemma ColumnsStep(g: Geometry, s: seq<int>, t: seq<int>, out0: seq<int>, last: seq<int>, j: nat)
    requires j < g.k == |last| <= |out0|
    requires ColumnsDone(g, s, out0, last, j) && ColumnShifted(g.k, j, 0, s, t)
    ensures ColumnsDone(g, t[j := Mask(g, last[j])], out0, last, j + 1)
  {
    hide Col, LaneValues, MaskRow;
    var u, d := t[j := Mask(g, last[j])], ShiftDown(g, out0, last);
    ColOf(g.k, 0, j);
    forall p | 0 <= p < |u|
      ensures u[p] == if Col(g.k, p) < j + 1 then d[p] else out0[p]
    {
      if p < g.k {
        ColOf(g.k, 0, p);
        assert Col(g.k, p) == p;
      } else {
        ColUp(g.k, p);
        assert d[p] == out0[p - g.k] && (Col(g.k, p) == j ==> s[p - g.k] == out0[p - g.k]);
      }
    }
  }

  lemma ColumnsEnd(g: Geometry, s: seq<int>, out0: seq<int>, last: seq<int>)
    requires g.k > 0 && |last| <= |out0| && ColumnsDone(g, s, out0, last, g.k)
    ensures s == ShiftDown(g, out0, last)
  {
    hide Col, ShiftDown;
  }

  function Zeros(n: nat): (s: seq<int>) {
    seq(n, _ => 0)
  }

  /** The state of a new array object. */
  function Blank(g: Geometry): State {
    var kk := Mul(g.k, g.k);
    State(Zeros(kk), Zeros(kk + g.k), Zeros(kk), Zeros(kk), Zeros(kk), false)
  }
}
