/**
 * What the kernels compute, said without the functions that compute it: the exponential that the softmax table
 * rounds, the division that normalises a row, the division of the final scaling, and the normalised residual.
 */
module KernelLaws {
  import opened Arith
  import opened Words
  import opened Elements
  import opened Matrices
  import opened Softmax
  import opened MatrixKernels
  import opened AddNorm

  // ----- the softmax table

  ghost function RealPow(r: real, n: nat): real {
    if n == 0 then 1.0 else RealPow(r, n - 1) * r
  }

  /** A fourth root of e, by the digits of e. */
  ghost predicate RootOfE(r: real) {
    r > 0.0 && 2.71828 <= r * r * r * r <= 2.71829
  }

  /** The integer `t` is less than one half away from four times the s-th power of `r`. */
  ghost predicate Rounds(t: int, r: real, s: int) {
    if s >= 0 then Twice(t) - 1.0 < 8.0 * RealPow(r, s) < Twice(t) + 1.0
    else Times(Twice(t) - 1.0, RealPow(r, -s)) < 8.0 < Times(Twice(t) + 1.0, RealPow(r, -s))
  }

  ghost function Times(a: real, b: real): real {
    a * b
  }

  ghost function Twice(t: int): real {
    (2 * t) as real
  }

  lemma RealMono(a: real, b: real, c: real, d: real)
    ensures 0.0 <= a <= b && 0.0 <= c <= d ==> a * c <= b * d
  {
    if 0.0 <= a <= b && 0.0 <= c <= d {
      assert a * c <= b * c;
      assert b * c <= b * d;
    }
  }

  lemma RootRange(r: real)
    requires RootOfE(r)
    ensures 1.28402 <= r <= 1.28403
  {
    var q := r * r;
    assert q * q == r * r * r * r;
    if r < 1.28402 {
      RealMono(r, 1.28402, r, 1.28402);
      RealMono(q, 1.28402 * 1.28402, q, 1.28402 * 1.28402);
    } else if r > 1.28403 {
      RealMono(1.28403, r, 1.28403, r);
      RealMono(1.28403 * 1.28403, q, 1.28403 * 1.28403, q);
    }
  }

  lemma NextPower(r: real, n: nat, lo: real, hi: real, lo': real, hi': real)
    requires 1.28402 <= r <= 1.28403 && 0.0 < lo <= RealPow(r, n) <= hi
    requires 0.0 < lo' <= lo * 1.28402 && hi * 1.28403 <= hi'
    ensures lo' <= RealPow(r, n + 1) <= hi'
  {
    RealMono(lo, RealPow(r, n), 1.28402, r);
    RealMono(RealPow(r, n), hi, r, 1.28403);
  }

  /** The first powers of the fourth root of e. */
  lemma Powers(r: real)
    requires 1.28402 <= r <= 1.28403
    ensures 1.28402 <= RealPow(r, 1) <= 1.28403 && 1.64870 <= RealPow(r, 2) <= 1.64874
    ensures 2.11696 <= RealPow(r, 3) <= 2.11704 && 2.71821 <= RealPow(r, 4) <= 2.71835
    ensures 3.49023 <= RealPow(r, 5) <= 3.49045 && 4.48152 <= RealPow(r, 6) <= 4.48185
    ensures 5.75436 <= RealPow(r, 7) <= 5.75483 && 7.38871 <= RealPow(r, 8) <= 7.38938
    ensures 9.48725 <= RealPow(r, 9) <= 9.48819 && 12.18181 <= RealPow(r, 10) <= 12.18313
    ensures 15.64168 <= RealPow(r, 11) <= 15.64351 && 20.08422 <= RealPow(r, 12) <= 20.08674
    ensures 25.78854 <= RealPow(r, 13) <= 25.79198 && 33.11300 <= RealPow(r, 14) <= 33.11768
    ensures 42.51775 <= RealPow(r, 15) <= 42.52410 && 54.59364 <= RealPow(r, 16) <= 54.60223
  {
    hide RealPow;
    NoPower(r);
    NextPower(r, 0, 1.0, 1.0, 1.28402, 1.28403);
    NextPower(r, 1, 1.28402, 1.28403, 1.64870, 1.64874);
    NextPower(r, 2, 1.64870, 1.64874, 2.11696, 2.11704);
    NextPower(r, 3, 2.11696, 2.11704, 2.71821, 2.71835);
    NextPower(r, 4, 2.71821, 2.71835, 3.49023, 3.49045);
    NextPower(r, 5, 3.49023, 3.49045, 4.48152, 4.48185);
    NextPower(r, 6, 4.48152, 4.48185, 5.75436, 5.75483);
    NextPower(r, 7, 5.75436, 5.75483, 7.38871, 7.38938);
    NextPower(r, 8, 7.38871, 7.38938, 9.48725, 9.48819);
    NextPower(r, 9, 9.48725, 9.48819, 12.18181, 12.18313);
    NextPower(r, 10, 12.18181, 12.18313, 15.64168, 15.64351);
    NextPower(r, 11, 15.64168, 15.64351, 20.08422, 20.08674);
    NextPower(r, 12, 20.08422, 20.08674, 25.78854, 25.79198);
    NextPower(r, 13, 25.78854, 25.79198, 33.11300, 33.11768);
    NextPower(r, 14, 33.11300, 33.11768, 42.51775, 42.52410);
    NextPower(r, 15, 42.51775, 42.52410, 54.59364, 54.60223);
  }

  lemma NoPower(r: real)
    ensures RealPow(r, 0) == 1.0
  {
  }

  /** Entry `i` is the nearest integer to 4 * e^(s / 4), where s is the index read as a signed five-bit number. */
  lemma TableRounds(r: real, i: nat)
    requires RootOfE(r) && i < 32
    ensures Rounds(LOOKUP[i], r, if i < 16 then i else i - 32)
  {
    hide RealPow;
    RootRange(r);
    Powers(r);
    NoPower(r);
    if i < 16 {
      TableLow(r, i);
    } else {
      TableHigh(r, i);
    }
  }

  lemma TableLow(r: real, i: nat)
    requires i < 16 && RealPow(r, 0) == 1.0
    requires 1.28402 <= RealPow(r, 1) <= 1.28403 && 1.64870 <= RealPow(r, 2) <= 1.64874
    requires 2.11696 <= RealPow(r, 3) <= 2.11704 && 2.71821 <= RealPow(r, 4) <= 2.71835
    requires 3.49023 <= RealPow(r, 5) <= 3.49045 && 4.48152 <= RealPow(r, 6) <= 4.48185
    requires 5.75436 <= RealPow(r, 7) <= 5.75483 && 7.38871 <= RealPow(r, 8) <= 7.38938
    requires 9.48725 <= RealPow(r, 9) <= 9.48819 && 12.18181 <= RealPow(r, 10) <= 12.18313
    requires 15.64168 <= RealPow(r, 11) <= 15.64351 && 20.08422 <= RealPow(r, 12) <= 20.08674
    requires 25.78854 <= RealPow(r, 13) <= 25.79198 && 33.11300 <= RealPow(r, 14) <= 33.11768
    requires 42.51775 <= RealPow(r, 15) <= 42.52410 && 54.59364 <= RealPow(r, 16) <= 54.60223
    ensures Rounds(LOOKUP[i], r, i)
  {
    hide RealPow;
    if i < 8 {
      assert i == 0 || i == 1 || i == 2 || i == 3 || i == 4 || i == 5 || i == 6 || i == 7;
    } else {
      assert i == 8 || i == 9 || i == 10 || i == 11 || i == 12 || i == 13 || i == 14 || i == 15;
    }
  }

  lemma TableHigh(r: real, i: nat)
    requires 16 <= i < 32
    requires 1.28402 <= RealPow(r, 1) <= 1.28403 && 1.64870 <= RealPow(r, 2) <= 1.64874
    requires 2.11696 <= RealPow(r, 3) <= 2.11704 && 2.71821 <= RealPow(r, 4) <= 2.71835
    requires 3.49023 <= RealPow(r, 5) <= 3.49045 && 4.48152 <= RealPow(r, 6) <= 4.48185
    requires 5.75436 <= RealPow(r, 7) <= 5.75483 && 7.38871 <= RealPow(r, 8) <= 7.38938
    requires 9.48725 <= RealPow(r, 9) <= 9.48819 && 12.18181 <= RealPow(r, 10) <= 12.18313
    requires 15.64168 <= RealPow(r, 11) <= 15.64351 && 20.08422 <= RealPow(r, 12) <= 20.08674
    requires 25.78854 <= RealPow(r, 13) <= 25.79198 && 33.11300 <= RealPow(r, 14) <= 33.11768
    requires 42.51775 <= RealPow(r, 15) <= 42.52410 && 54.59364 <= RealPow(r, 16) <= 54.60223
    ensures Rounds(LOOKUP[i], r, i - 32)
  {
    hide RealPow;
    if i < 24 {
      assert i == 16 || i == 17 || i == 18 || i == 19 || i == 20 || i == 21 || i == 22 || i == 23;
    } else {
      assert i == 24 || i == 25 || i == 26 || i == 27 || i == 28 || i == 29 || i == 30 || i == 31;
    }
  }

  /** There is only one such integer. */
  lemma RoundsOnce(t: int, t': int, r: real, s: int)
    requires r > 0.0 && Rounds(t, r, s) && Rounds(t', r, s)
    ensures t == t'
  {
    hide RealPow, Twice, Times;
    if s < 0 {
      PowerPositive(r, -s);
      Smaller(Twice(t) - 1.0, Twice(t') + 1.0, RealPow(r, -s));
      Smaller(Twice(t') - 1.0, Twice(t) + 1.0, RealPow(r, -s));
    }
    WithinOne(t, t');
  }

  lemma Smaller(a: real, b: real, p: real)
    requires p > 0.0 && Times(a, p) < Times(b, p)
    ensures a < b
  {
    Larger(b, a, p);
  }

  lemma WithinOne(t: int, t': int)
    requires Twice(t) - 1.0 < Twice(t') + 1.0 && Twice(t') - 1.0 < Twice(t) + 1.0
    ensures t == t'
  {
  }

  lemma {:induction false} PowerPositive(r: real, n: nat)
    requires r > 0.0
    ensures RealPow(r, n) > 0.0
  {
    if n > 0 {
      PowerPositive(r, n - 1);
      Positive(RealPow(r, n - 1), r);
    }
  }

  lemma Larger(a: real, b: real, p: real)
    ensures a <= b && p > 0.0 ==> a * p <= b * p
  {
  }

  /** The five most significant bits of an element, as a signed number. */
  ghost function Exponent(l: Lanes, u: int): int
    requires l.bits >= 5
  {
    Signed(l, u) / Pow2(l.bits - 5)
  }

  /** The weight of an element is the nearest integer to 4 * e^(s / 4), s its five most significant bits, signed. */
  lemma WeightRounds(l: Lanes, u: int, r: real)
    requires l.bits >= 5 && 0 <= u < Pow2(l.bits) && RootOfE(r)
    ensures -16 <= Exponent(l, u) < 16 && Rounds(Weigh(l, u), r, Exponent(l, u))
  {
    hide Rounds, Pow2, RootOfE;
    LookupIndex(l, u);
    Pow2Table();
    Pow2Add(5, l.bits - 5);
    Pow2Add(4, l.bits - 5);
    Sixteen();
    SignedQuotient(u, Pow2(l.bits - 5));
    TableRounds(r, u / Pow2(l.bits - 5));
  }

  lemma SignedQuotient(u: int, d: int)
    requires d > 0 && 0 <= u < 32 * d
    ensures 0 <= u / d < 32
    ensures (if u < 16 * d then u else u - 32 * d) / d == if u / d < 16 then u / d else u / d - 32
  {
    DivBelow(u, d, 32);
    if u < 16 * d {
      DivBelow(u, d, 16);
    } else {
      DivModUnique(u - 32 * d, d, u / d - 32, u % d);
      DivAbove(u, d, 16);
    }
  }

  lemma Sixteen()
    ensures Pow2(4) == 16
  {
  }

  lemma DivAbove(u: int, d: int, n: int)
    requires d > 0 && u >= n * d
    ensures u / d >= n
  {
    MulMono(u / d + 1, n, d);
    assert u < (u / d + 1) * d;
  }

  /**
   * The softmax of a row of unsigned elements. Whatever integers `w` round the exponentials of the elements, with
   * sum m, each result is the quotient of its weight by m / 256 + 1.
   */
  lemma SoftmaxLaw(l: Lanes, s: seq<int>, r: real, w: seq<int>)
    requires l.bits >= 5 && RootOfE(r) && |w| == |s|
    requires forall q :: 0 <= q < |s| ==> 0 <= s[q] < Pow2(l.bits) && Rounds(w[q], r, Exponent(l, s[q]))
    ensures var t, m := SoftRow(l, s), Sum(w, |w|);
            && m >= 0
            && (forall q :: 0 <= q < |s| ==> t[q] * (m / 256 + 1) <= w[q] < (t[q] + 1) * (m / 256 + 1))
            && (m < 256 ==> t == w)
  {
    hide Rounds, Exponent, Weigh, Pow2;
    forall q | 0 <= q < |s|
      ensures w[q] == Weigh(l, s[q])
    {
      WeightRounds(l, s[q], r);
      RoundsOnce(w[q], Weigh(l, s[q]), r, Exponent(l, s[q]));
    }
    assert w == Weights(l, s);
    WeightsBound(l, s, |s|);
    QuotientLaw(l, s);
  }

  lemma QuotientLaw(l: Lanes, s: seq<int>)
    requires l.bits >= 5
    ensures var t, w, m := SoftRow(l, s), Weights(l, s), Mass(l, s);
            && (forall q :: 0 <= q < |s| ==> t[q] * (m / 256 + 1) <= w[q] < (t[q] + 1) * (m / 256 + 1))
            && (m < 256 ==> t == w)
  {
    hide Weigh, Sum;
    WeightsBound(l, s, |s|);
    var t, w, d := SoftRow(l, s), Weights(l, s), Mass(l, s) / 256 + 1;
    forall q | 0 <= q < |s|
      ensures t[q] * d <= w[q] < (t[q] + 1) * d
      ensures d == 1 ==> t[q] == w[q]
    {
      assert t[q] == w[q] / d;
      QuotientIs(w[q], d);
    }
  }

  lemma QuotientIs(x: int, d: int)
    requires d > 0
    ensures x / d * d <= x < (x / d + 1) * d
  {
    assert (x / d + 1) * d == x / d * d + d;
  }

  /** The digits describe a number. */
  lemma RootExists()
    ensures RootOfE(1.284026)
  {
  }

  // ----- division toward zero

  function Abs(x: int): nat {
    if x < 0 then -x else x
  }

  /** `q` is the quotient of `x` by `d`, rounded toward zero. */
  predicate Truncates(x: int, d: int, q: int) {
    Abs(q) * d <= Abs(x) < (Abs(q) + 1) * d && (q > 0 ==> x > 0) && (q < 0 ==> x < 0)
  }

  lemma TruncDivExact(x: int, d: int, q: int)
    requires d > 0
    ensures q == TruncDiv(x, d) <==> Truncates(x, d, q)
  {
    var t := TruncDiv(x, d);
    QuotientIs(Abs(x), d);
    assert Abs(x) / d >= 0 by { MulMono(Abs(x) / d + 1, 0, d); }
    assert Abs(t) == Abs(x) / d;
    assert Truncates(x, d, t) by {
      assert Abs(x) < d ==> t == 0 by { DivBelowOne(Abs(x), d); }
    }
    if Truncates(x, d, q) {
      SameQuotient(Abs(x), d, Abs(q), Abs(t));
    }
  }

  lemma DivBelowOne(x: int, d: int)
    requires d > 0 && x >= 0
    ensures x < d ==> x / d == 0
  {
    if x < d {
      DivModUnique(x, d, 0, x);
    }
  }

  lemma SameQuotient(x: int, d: int, p: int, q: int)
    requires d > 0 && p * d <= x < (p + 1) * d && q * d <= x < (q + 1) * d
    ensures p == q
  {
    MulMono(p + 1, q, d);
    MulMono(q + 1, p, d);
  }

  /** Negating the dividend negates the quotient. */
  lemma TruncDivOdd(x: int, d: int)
    requires d > 0
    ensures TruncDiv(-x, d) == -TruncDiv(x, d)
  {
    TruncDivExact(x, d, TruncDiv(x, d));
    TruncDivExact(-x, d, -TruncDiv(x, d));
  }

  /** The final scaling: every element of a matrix that fits its lanes is divided by 64, rounded toward zero. */
  lemma ScaledLaw(l: Lanes, n: nat, m: nat, a: Matrix, i: nat, e: nat)
    requires l.Valid() && IsMatrix(n, m, a) && InRange(l, a) && i < n && e < m
    ensures Truncates(a[i][e], 64, ScaledMatrix(l, n, m, a)[i][e])
  {
    hide Pow2, Signed;
    var x := a[i][e];
    TruncDivExact(x, 64, TruncDiv(x, 64));
    assert Abs(TruncDiv(x, 64)) <= Abs(x);
    assert -Pow2(l.bits - 1) <= x < Pow2(l.bits - 1);
    SignedOfResidue(l, TruncDiv(x, 64));
  }

  /** One stored element, read as signed before and after. */
  lemma ScaleLaw(l: Lanes, u: int)
    requires l.Valid() && 0 <= u < Pow2(l.bits)
    ensures Truncates(Signed(l, u), 64, Signed(l, Scale(l, u)))
  {
    hide Pow2, Signed;
    var x := Signed(l, u);
    SignedRange(l, u);
    TruncDivExact(x, 64, TruncDiv(x, 64));
    assert Abs(TruncDiv(x, 64)) <= Abs(x);
    SignedOfResidue(l, TruncDiv(x, 64));
  }

  /** A product with its elements wrapped to the lanes fits them. */
  lemma ProductInRange(l: Lanes, a: Matrix, x: Matrix, w: Matrix, n: nat, k: nat, m: nat)
    requires l.Valid() && IsMatrix(n, m, a) && IsMatrix(n, k, x) && IsMatrix(k, m, w)
    ensures InRange(l, MatMulAdd(l, a, x, w, n, k, m))
  {
    hide RowDot, Signed, Pow2;
    var r := MatMulAdd(l, a, x, w, n, k, m);
    forall i, e | 0 <= i < |r| && 0 <= e < |r[i]|
      ensures -Pow2(l.bits - 1) <= r[i][e] < Pow2(l.bits - 1)
    {
      SignedRange(l, (a[i][e] + RowDot(x[i], w, e, k)) % Pow2(l.bits));
    }
  }

  // ----- the normalisation

  /** The mean as the program computes it: the low 32 bits of the quotient of the sum as an unsigned 64-bit number. */
  lemma MeanLaw(sum: int, dim: nat, q: int)
    requires dim > 0 && -0x8000_0000 <= sum < 0x8000_0000
    requires var u := if sum < 0 then sum + 0x1_0000_0000_0000_0000 else sum; q * dim <= u < (q + 1) * dim
    ensures -0x8000_0000 <= MeanOf(sum, dim) < 0x8000_0000 && MeanOf(sum, dim) % 0x1_0000_0000 == q % 0x1_0000_0000
  {
    hide Int32;
    var u := if sum < 0 then sum + 0x1_0000_0000_0000_0000 else sum;
    DivModUnique(sum, 0x1_0000_0000_0000_0000, if sum < 0 then -1 else 0, u);
    DivModUnique(u, dim, q, u - q * dim);
  }

  /** It is the mean rounded down for sums that are not negative, and for dimensions that divide 2^32. */
  lemma MeanIs(sum: int, dim: nat, mean: int)
    requires dim > 0 && -0x8000_0000 <= sum < 0x8000_0000 && (sum >= 0 || 0x1_0000_0000 % dim == 0)
    requires mean * dim <= sum < (mean + 1) * dim
    ensures MeanOf(sum, dim) == mean && -0x8000_0000 <= mean < 0x8000_0000
  {
    DivModUnique(sum, dim, mean, sum - mean * dim);
    SmallQuotient(sum, dim);
    if sum >= 0 {
      DivModUnique(sum, 0x1_0000_0000_0000_0000, 0, sum);
      Int32Small(mean);
    } else {
      MeanGood(sum, dim);
    }
  }

  /** `e` is `d` exclusive-ored with 2. */
  ghost predicate IsXor2(d: int, e: int) {
    e % 4 == (d + 2) % 4 && e / 4 == d / 4
  }

  /** Everything a row is normalised with, by the conditions that define it. */
  datatype Normal = Normal(xs: seq<int>, mean: int, spread: seq<int>, variance: nat, sd: real, scale: int) {
    /** `xs` are the signed elements, `mean` is their mean, and no 32-bit sum overflows. */
    ghost predicate HasMean(l: Lanes, s: seq<int>)
      requires l.Valid()
    {
      && |s| == |xs| > 0 && (forall q :: 0 <= q < |s| ==> xs[q] == Signed(l, s[q]))
      && var sum := Sum(xs, |xs|);
         -0x8000_0000 <= sum < 0x8000_0000 && (sum >= 0 || 0x1_0000_0000 % |xs| == 0)
         && mean * |xs| <= sum < (mean + 1) * |xs|
    }

    /** `spread` are the deviations exclusive-ored with 2, and `variance` is their mean, rounded toward zero. */
    ghost predicate HasVariance() {
      && |spread| == |xs| > 0
      && (forall q :: 0 <= q < |xs| ==> -0x8000_0000 <= xs[q] - mean < 0x8000_0000 && IsXor2(xs[q] - mean, spread[q]))
      && var sum := Sum(spread, |spread|);
         -0x8000_0000 <= sum < 0x8000_0000 && Truncates(sum, |xs|, variance)
    }

    /** `scale` is the integer part of 4 / (sqrt(variance) + 1). */
    ghost predicate HasScale() {
      sd >= 0.0 && sd * sd == variance as real && scale as real <= 4.0 / (sd + 1.0) < scale as real + 1.0
    }
  }

  /**
   * A row is normalised to its deviations from the mean times the scale, divided by the elements per word and rounded
   * toward zero, modulo the lane width.
   */
  lemma NormLaw(l: Lanes, nan: int, s: seq<int>, c: Normal, q: nat) returns (y: int)
    requires l.Valid() && c.HasMean(l, s) && c.HasVariance() && c.HasScale() && q < |s|
    requires -0x8000_0000 <= (c.xs[q] - c.mean) * c.scale < 0x8000_0000
    ensures NormRow(l, |s|, nan, s)[q] == y % Pow2(l.bits)
    ensures Truncates((c.xs[q] - c.mean) * c.scale, l.per, y)
  {
    hide Pow2, Signed, Int32, MeanOf, SdInv, TruncDiv, Truncates;
    NormMean(l, s, c);
    NormVariance(l, s, c);
    NormScale(nan, c);
    var d := (c.xs[q] - c.mean) * c.scale;
    y := TruncDiv(d, l.per);
    TruncDivExact(d, l.per, y);
    Int32Small(c.xs[q] - c.mean);
    Int32Small(d);
    assert NormRow(l, |s|, nan, s)[q] == Rescale(l, c.mean, c.scale, s[q]);
  }

  lemma NormMean(l: Lanes, s: seq<int>, c: Normal)
    requires l.Valid() && c.HasMean(l, s)
    ensures MeanOf(RowSum(l, s), |s|) == c.mean
  {
    hide Signed, Int32, MeanOf;
    SumSame(Mapped(u => Signed(l, u), s), c.xs, |s|);
    Int32Small(Sum(c.xs, |c.xs|));
    MeanIs(Sum(c.xs, |c.xs|), |s|, c.mean);
  }

  lemma NormVariance(l: Lanes, s: seq<int>, c: Normal)
    requires l.Valid() && c.HasMean(l, s) && c.HasVariance()
    ensures RowVariance(l, c.mean, s, |s|) == c.variance
  {
    hide Signed, Int32, TruncDiv, Xor2, Truncates;
    var d := Mapped(u => Deviation(l, c.mean, u), s);
    forall q | 0 <= q < |s|
      ensures d[q] == c.spread[q]
    {
      Int32Small(c.xs[q] - c.mean);
      XorOnce(c.xs[q] - c.mean, c.spread[q]);
    }
    SumSame(d, c.spread, |s|);
    var sum := Sum(c.spread, |s|);
    Int32Small(sum);
    TruncDivExact(sum, |s|, c.variance);
  }

  lemma XorOnce(d: int, e: int)
    requires IsXor2(d, e)
    ensures Xor2(d) == e
  {
  }

  lemma NormScale(nan: int, c: Normal)
    requires c.HasScale()
    ensures SdInv(nan, c.variance) == c.scale
  {
    SdInvIsRoot(nan, c.variance, c.sd);
  }
}
