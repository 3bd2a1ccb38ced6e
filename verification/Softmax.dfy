/** The integer softmax: a table of exponentials, and a division that keeps the mass of a row below 256. */
module Softmax {
  import opened Arith
  import opened Words
  import opened Elements
  import opened RowPasses

  const LOOKUP: seq<nat> := [4, 5, 7, 8, 11, 14, 18, 23, 30, 38, 49, 63, 80, 103, 132, 170,
                             0, 0, 0, 0, 0, 0, 0, 0, 1, 1, 1, 1, 1, 2, 2, 3]

  /** Widths the table can be used with: an index is the top five bits, an entry needs eight. */
  ghost predicate Wide(l: Lanes) {
    l.Valid() && l.bits >= 8
  }

  /** The top five bits of an element index the table. */
  lemma LookupIndex(l: Lanes, u: int)
    requires l.bits >= 5 && 0 <= u < Pow2(l.bits)
    ensures 0 <= u / Pow2(l.bits - 5) < |LOOKUP| == 32
  {
    hide Pow2;
    Pow2Table();
    Pow2Add(5, l.bits - 5);
    var d := Pow2(l.bits - 5);
    DivBelow(u, d, 32);
  }

  lemma DivBelow(u: int, d: int, n: int)
    requires d > 0 && 0 <= u < n * d
    ensures 0 <= u / d < n
  {
    var q := u / d;
    MulMono(n, q, d);
    assert q * d <= u;
    assert q >= 0 by { MulMono(q + 1, 0, d); }
  }

  function Weigh(l: Lanes, u: int): (w: int)
    requires l.bits >= 5
    ensures 0 <= w <= 170
  {
    if 0 <= u < Pow2(l.bits) then
      LookupIndex(l, u);
      LOOKUP[u / Pow2(l.bits - 5)]
    else 0
  }

  lemma WeightFits(l: Lanes, w: int)
    requires l.bits >= 8 && 0 <= w <= 170
    ensures w < Pow2(l.bits)
  {
    Pow2Table();
    Pow2Mono(8, l.bits);
  }

  /** What the weights of a row are divided by. */
  function Divisor(sum: int): int {
    (if sum == 0 then sum + 1 else sum) / 256 + 1
  }

  /** Divide by a positive number. */
  function Normalise(d: int, w: int): int {
    if d > 0 then w / d else 0
  }

  lemma NormaliseSmaller(d: int, w: int)
    requires d > 0 && w >= 0
    ensures 0 <= w / d <= w
  {
    MulAtLeast(d, w / d);
  }

  /** The softmax of a row of unsigned elements. */
  ghost function SoftRow(l: Lanes, s: seq<int>): (t: seq<int>)
    requires l.bits >= 5
    ensures |t| == |s|
  {
    Mapped(w => Normalise(Divisor(Mass(l, s)), w), Weights(l, s))
  }

  ghost function Weights(l: Lanes, s: seq<int>): (t: seq<int>)
    requires l.bits >= 5
    ensures |t| == |s| && forall q :: 0 <= q < |t| ==> t[q] == Weigh(l, s[q])
  {
    Mapped(u => Weigh(l, u), s)
  }

  ghost function Mass(l: Lanes, s: seq<int>): int
    requires l.bits >= 5
  {
    Sum(Weights(l, s), |s|)
  }

  // ----- the mass of a row

  lemma {:induction false} WeightsBound(l: Lanes, s: seq<int>, n: nat)
    requires l.bits >= 5 && n <= |s|
    ensures 0 <= Sum(Weights(l, s), n) <= 170 * n
  {
    hide Weigh;
    if n > 0 {
      WeightsBound(l, s, n - 1);
    }
  }

  /** The running sum only grows, so it fits 32 bits at every step if the mass does. */
  lemma {:induction false} RunningMass(l: Lanes, s: seq<int>, m: nat, n: nat)
    requires l.bits >= 5 && m <= n <= |s|
    ensures 0 <= Sum(Weights(l, s), m) <= Sum(Weights(l, s), n)
    decreases n
  {
    hide Weigh;
    WeightsBound(l, s, m);
    if m < n {
      RunningMass(l, s, m, n - 1);
    }
  }

  /** The weights of every row can be added up in a signed 32-bit number. */
  ghost predicate MassesFit(l: Lanes, m: seq<seq<int>>)
    requires l.bits >= 5
  {
    forall i :: 0 <= i < |m| ==> Mass(l, m[i]) < 0x8000_0000
  }

  /** Rows of up to 2^31 / 170 elements always have such weights. */
  lemma ShortRowsFit(l: Lanes, m: seq<seq<int>>, n: nat)
    requires l.bits >= 5 && (forall i :: 0 <= i < |m| ==> |m[i]| == n) && 170 * n < 0x8000_0000
    ensures MassesFit(l, m)
  {
    hide Weights;
    forall i | 0 <= i < |m|
      ensures Mass(l, m[i]) < 0x8000_0000
    {
      WeightsBound(l, m[i], n);
    }
  }

  /** Rounding down each share does not exceed rounding down the whole. */
  lemma {:induction false} SharesBelow(d: int, s: seq<int>, t: seq<int>, n: nat)
    requires d > 0 && n <= |s| == |t| && forall q :: 0 <= q < |s| ==> s[q] >= 0 && t[q] == s[q] / d
    ensures 0 <= d * Sum(t, n) <= Sum(s, n) && Sum(t, n) >= 0
  {
    if n > 0 {
      SharesBelow(d, s, t, n - 1);
      assert d * Sum(t, n) == d * Sum(t, n - 1) + d * (s[n - 1] / d);
      NormaliseSmaller(d, s[n - 1]);
      assert 0 <= d * (s[n - 1] / d) <= s[n - 1];
    }
  }

  lemma MassFits(sum: int, d: int, t: int)
    requires sum >= 0 && d == Divisor(sum) && d * t <= sum && t >= 0
    ensures t <= 255
  {
    assert sum < 256 * d;
    MulMono(256, t, d);
  }

  /** A normalised row has no negative element, and sums to at most 255, whatever its length. */
  lemma MassBound(l: Lanes, s: seq<int>)
    requires l.bits >= 5
    ensures 0 <= Sum(SoftRow(l, s), |s|) <= 255
    ensures forall q :: 0 <= q < |s| ==> 0 <= SoftRow(l, s)[q] <= 170
  {
    hide Weigh;
    var w, t, d := Weights(l, s), SoftRow(l, s), Divisor(Mass(l, s));
    WeightsBound(l, s, |s|);
    forall q | 0 <= q < |s|
      ensures 0 <= t[q] <= 170 && t[q] == w[q] / d
    {
      NormaliseSmaller(d, w[q]);
    }
    SharesBelow(d, w, t, |s|);
    MassFits(Mass(l, s), d, Sum(t, |s|));
  }

  // ----- the two forms

  /** The softmax of every row. */
  ghost function SoftRows(l: Lanes, m: seq<seq<int>>): (r: seq<seq<int>>)
    requires l.bits >= 5
    ensures |r| == |m| && forall i :: 0 <= i < |m| ==> r[i] == SoftRow(l, m[i])
  {
    seq(|m|, i requires 0 <= i < |m| => SoftRow(l, m[i]))
  }

  /** One row: weigh and add up, then divide. */
  method SoftmaxRow(l: Lanes, rows: nat, k: nat, blocks: nat, buf: array<Word>, i: nat)
    requires Wide(l) && Holds(l, rows, k, blocks, buf) && i < rows
    requires Mass(l, BufferRows(l, rows, k, blocks, buf)[i]) < 0x8000_0000
    modifies buf
    ensures BufferRows(l, rows, k, blocks, buf)
         == old(BufferRows(l, rows, k, blocks, buf))[i := SoftRow(l, old(BufferRows(l, rows, k, blocks, buf))[i])]
  {
    hide Mul, BufferRows, Weigh, Divisor;
    ghost var m0 := BufferRows(l, rows, k, blocks, buf);
    forall u | 0 <= u < Pow2(l.bits)
      ensures 0 <= Weigh(l, u) < Pow2(l.bits)
    {
      WeightFits(l, Weigh(l, u));
    }
    var sum := MapRow(l, rows, k, blocks, buf, i, u => Weigh(l, u));
    ghost var w := BufferRows(l, rows, k, blocks, buf)[i];
    assert w == Weights(l, m0[i]);
    WeightsBound(l, m0[i], |m0[i]|);
    assert 0 <= sum < 0x8000_0000;
    var d := Divisor(sum);
    DivisorPositive(sum);
    forall u | 0 <= u < Pow2(l.bits)
      ensures 0 <= Normalise(d, u) < Pow2(l.bits)
    {
      NormaliseSmaller(d, u);
    }
    var _ := MapRow(l, rows, k, blocks, buf, i, w => Normalise(d, w));
    assert BufferRows(l, rows, k, blocks, buf)[i] == SoftRow(l, m0[i]);
  }

  lemma DivisorPositive(sum: int)
    requires sum >= 0
    ensures Divisor(sum) >= 1
  {
  }

  method SoftmaxAll(l: Lanes, rows: nat, k: nat, blocks: nat, buf: array<Word>)
    requires Wide(l) && Holds(l, rows, k, blocks, buf) && MassesFit(l, BufferRows(l, rows, k, blocks, buf))
    modifies buf
    ensures BufferRows(l, rows, k, blocks, buf) == SoftRows(l, old(BufferRows(l, rows, k, blocks, buf)))
  {
    hide Mul, BufferRows, SoftRow;
    ghost var m0 := BufferRows(l, rows, k, blocks, buf);
    var i := 0;
    while i < rows
      invariant 0 <= i <= rows
      invariant forall r :: 0 <= r < rows ==>
                  BufferRows(l, rows, k, blocks, buf)[r] == if r < i then SoftRow(l, m0[r]) else m0[r]
    {
      SoftmaxRow(l, rows, k, blocks, buf, i);
      i := i + 1;
    }
  }

  /** The row-major form: one block as wide as the row. */
  method Compute(l: Lanes, input: array<Word>, seqLen: nat)
    requires Wide(l) && Holds(l, seqLen, seqLen, 1, input) && seqLen % l.per == 0
    requires MassesFit(l, BufferRows(l, seqLen, seqLen, 1, input))
    modifies input
    ensures BufferRows(l, seqLen, seqLen, 1, input) == SoftRows(l, old(BufferRows(l, seqLen, seqLen, 1, input)))
  {
    SoftmaxAll(l, seqLen, seqLen, 1, input);
  }

  /** The blocked form: blocks of K columns, a whole number of which makes a row. */
  method ComputeRearranged(l: Lanes, kernelDim: nat, input: array<Word>, seqLen: nat)
    requires Wide(l) && kernelDim > 0 && Holds(l, seqLen, kernelDim, seqLen / kernelDim, input)
    requires MassesFit(l, BufferRows(l, seqLen, kernelDim, seqLen / kernelDim, input))
    modifies input
    ensures BufferRows(l, seqLen, kernelDim, seqLen / kernelDim, input)
         == SoftRows(l, old(BufferRows(l, seqLen, kernelDim, seqLen / kernelDim, input)))
  {
    SoftmaxAll(l, seqLen, kernelDim, seqLen / kernelDim, input);
  }

  // ----- after the second product

  /** Division that truncates toward zero. */
  function TruncDiv(x: int, d: int): int
    requires d > 0
  {
    if x >= 0 then x / d else -((-x) / d)
  }

  /** An element, read as signed, divided by 64. */
  function Scale(l: Lanes, u: int): (v: int)
    requires l.bits >= 1
    ensures 0 <= v < Pow2(l.bits)
  {
    TruncDiv(Signed(l, u), 64) % Pow2(l.bits)
  }

  method PostSoftmax(l: Lanes, input: array<Word>, seqLen: nat, headSize: nat)
    requires l.Valid() && Mul(seqLen, headSize) <= Mul(input.Length, l.per)
    modifies input
    ensures var f0, f := Flat(l, old(input[..])), Flat(l, input[..]);
            && |f| == |f0|
            && forall e :: 0 <= e < |f| ==> f[e] == if e < Mul(seqLen, headSize) then Scale(l, f0[e]) else f0[e]
  {
    hide Mul, Flat, Scale;
    ghost var f0 := Flat(l, input[..]);
    var i := 0;
    while i < Mul(seqLen, headSize)
      invariant 0 <= i <= Mul(seqLen, headSize)
      invariant forall e :: 0 <= e < |f0| ==> Flat(l, input[..])[e] == if e < i then Scale(l, f0[e]) else f0[e]
    {
      var u := Load(l, input, i);
      Store(l, input, i, Scale(l, u));
      i := i + 1;
    }
  }
}
