/**
 * Residual addition and normalisation with the program's integer arithmetic: 32-bit accumulators, a mean that
 * is divided as an unsigned 64-bit number, deviations that are exclusive-ored with 2, and truncating divisions.
 */
module AddNorm {
  import opened Arith
  import opened Words
  import opened Elements
  import opened RowPasses
  import opened Softmax

  function AddElement(l: Lanes, u: int, v: int): (r: int)
    requires l.bits >= 1
    ensures 0 <= r < Pow2(l.bits)
  {
    (Signed(l, u) + Signed(l, v)) % Pow2(l.bits)
  }

  /** The division of a signed 32-bit sum by an unsigned 64-bit dimension. */
  function MeanOf(sum: int, dim: nat): (m: int)
    requires dim > 0
    ensures -0x8000_0000 <= m < 0x8000_0000
  {
    Int32((sum % 0x1_0000_0000_0000_0000) / dim)
  }

  /** Exclusive or with 2, for a two's-complement number. */
  function Xor2(x: int): (r: int)
    ensures r % 4 == (x + 2) % 4 && r / 4 == x / 4
  {
    if x % 4 >= 2 then x - 2 else x + 2
  }

  /** The exclusive or stands where a square is meant. It is smaller than the square except for 0 and 1. */
  lemma XorBelowSquare(x: int)
    ensures Xor2(x) < x * x <==> x != 0 && x != 1
    ensures Xor2(x) != x * x
  {
    if x >= 3 || x <= -2 {
      MulMono(3, x, x);
      MulMono(2, -x, -x);
      assert x * x >= x + 3;
    }
  }

  ghost function Squares(s: seq<int>): (t: seq<int>)
    ensures |t| == |s| && forall q :: 0 <= q < |s| ==> t[q] == s[q] * s[q]
  {
    seq(|s|, q requires 0 <= q < |s| => s[q] * s[q])
  }

  /** So the spread of a row whose deviations avoid 0 and 1 is underestimated. */
  lemma {:induction false} SpreadUnderestimated(d: seq<int>, n: nat)
    requires n <= |d| && forall q :: 0 <= q < |d| ==> d[q] != 0 && d[q] != 1
    ensures Sum(Mapped(x => Xor2(x), d), n) <= Sum(Squares(d), n)
    ensures n > 0 ==> Sum(Mapped(x => Xor2(x), d), n) < Sum(Squares(d), n)
  {
    hide Xor2;
    if n > 0 {
      SpreadUnderestimated(d, n - 1);
      XorBelowSquare(d[n - 1]);
    }
  }

  function Deviation(l: Lanes, mean: int, u: int): int
    requires l.bits >= 1
  {
    Xor2(Int32(Signed(l, u) - mean))
  }

  /**
   * The integer part of 4 / (sd + 1), where sd is the square root of the variance. A negative variance has no
   * square root; `nan` stands for what the conversion of that to an integer gives.
   */
  function SdInv(nan: int, variance: int): int {
    if variance < 0 then nan
    else if variance == 0 then 4
    else if variance == 1 then 2
    else if variance <= 9 then 1
    else 0
  }

  /** The table is the formula, over the reals. */
  lemma SdInvIsRoot(nan: int, variance: int, sd: real)
    requires variance >= 0 && sd >= 0.0 && sd * sd == variance as real
    ensures SdInv(nan, variance) == (4.0 / (sd + 1.0)).Floor
  {
    SquareLess(0.0, sd);
    SquareLess(1.0, sd);
    SquareLess(sd, 1.0);
    SquareLess(3.0, sd);
    SquareLess(sd, 3.0);
    QuotientFloor(sd, SdInv(nan, variance));
  }

  lemma SquareLess(a: real, b: real)
    ensures 0.0 <= a < b ==> a * a < b * b
  {
    if 0.0 <= a < b {
      Positive(b - a, b + a);
      assert (b - a) * (b + a) == b * b - a * a;
    }
  }

  lemma QuotientFloor(sd: real, n: int)
    requires sd >= 0.0 && n as real * (sd + 1.0) <= 4.0 < (n + 1) as real * (sd + 1.0)
    ensures (4.0 / (sd + 1.0)).Floor == n
  {
    var q, m, d := 4.0 / (sd + 1.0), sd + 1.0, n as real;
    assert q * m == 4.0;
    assert (q - d) * m == q * m - d * m;
    assert ((d + 1.0) - q) * m == (d + 1.0) * m - q * m;
    NotNegative(q - d, m);
    NotNegative((d + 1.0) - q, m);
  }

  lemma Positive(x: real, y: real)
    ensures x > 0.0 && y > 0.0 ==> x * y > 0.0
  {
  }

  lemma NotNegative(x: real, m: real)
    ensures m > 0.0 && x * m >= 0.0 ==> x >= 0.0
    ensures m > 0.0 && x * m > 0.0 ==> x > 0.0
  {
  }

  function Rescale(l: Lanes, mean: int, sdInv: int, u: int): (v: int)
    requires l.bits >= 1 && l.per >= 1
    ensures 0 <= v < Pow2(l.bits)
  {
    TruncDiv(Int32(Int32(Signed(l, u) - mean) * sdInv), l.per) % Pow2(l.bits)
  }

  // ----- the specification, row by row

  ghost function AddRow(l: Lanes, s: seq<int>, t: seq<int>): (r: seq<int>)
    requires l.bits >= 1 && |s| == |t|
    ensures |r| == |s| && forall q :: 0 <= q < |s| ==> r[q] == AddElement(l, s[q], t[q])
  {
    seq(|s|, q requires 0 <= q < |s| => AddElement(l, s[q], t[q]))
  }

  ghost function RowSum(l: Lanes, s: seq<int>): int
    requires l.bits >= 1
  {
    Int32(Sum(Mapped(u => Signed(l, u), s), |s|))
  }

  ghost function RowVariance(l: Lanes, mean: int, s: seq<int>, dim: nat): int
    requires l.bits >= 1 && dim > 0
  {
    TruncDiv(Int32(Sum(Mapped(u => Deviation(l, mean, u), s), |s|)), dim)
  }

  ghost function NormRow(l: Lanes, dim: nat, nan: int, s: seq<int>): (t: seq<int>)
    requires l.bits >= 1 && l.per >= 1 && dim > 0
    ensures |t| == |s|
  {
    var mean := MeanOf(RowSum(l, s), dim);
    var sdInv := SdInv(nan, RowVariance(l, mean, s, dim));
    Mapped(u => Rescale(l, mean, sdInv, u), s)
  }

  ghost function AddNormRows(l: Lanes, dim: nat, nan: int, out: seq<seq<int>>, input: seq<seq<int>>): (r: seq<seq<int>>)
    requires l.bits >= 1 && l.per >= 1 && dim > 0 && |out| == |input|
    requires forall i :: 0 <= i < |out| ==> |out[i]| == |input[i]|
    ensures |r| == |out| && forall i :: 0 <= i < |r| ==> r[i] == NormRow(l, dim, nan, AddRow(l, out[i], input[i]))
  {
    seq(|out|, i requires 0 <= i < |out| => NormRow(l, dim, nan, AddRow(l, out[i], input[i])))
  }

  // ----- when the mean is a mean

  /** The mean of a row with this sum is the sum divided by the dimension, rounded down. */
  predicate MeanRight(sum: int, dim: nat)
    requires dim > 0
  {
    MeanOf(sum, dim) == sum / dim
  }

  /**
   * The sum is converted to an unsigned number before it is divided. The result is right for every sum exactly if
   * the dimension divides 2^32; for every other dimension there are negative sums for which it is not.
   */
  lemma MeanExact(dim: nat)
    requires 1 <= dim <= 0x8000_0000
    ensures (forall sum :: -0x8000_0000 <= sum < 0x8000_0000 ==> MeanRight(sum, dim)) <==> 0x1_0000_0000 % dim == 0
  {
    hide MeanRight;
    if 0x1_0000_0000 % dim == 0 {
      forall sum | -0x8000_0000 <= sum < 0x8000_0000
        ensures MeanRight(sum, dim)
      {
        MeanGood(sum, dim);
      }
    } else {
      MeanBad(dim);
    }
  }

  lemma SmallQuotient(sum: int, dim: nat)
    requires dim >= 1 && -0x8000_0000 <= sum < 0x8000_0000
    ensures -0x8000_0000 <= sum / dim < 0x8000_0000
  {
    var q := sum / dim;
    assert q * dim <= sum < q * dim + dim;
    MulMono(0x8000_0000, q, dim);
    MulAtLeast(dim, 0x8000_0000);
    MulMono(q, -0x8000_0001, dim);
  }

  lemma MeanGood(sum: int, dim: nat)
    requires 1 <= dim && 0x1_0000_0000 % dim == 0 && -0x8000_0000 <= sum < 0x8000_0000
    ensures MeanRight(sum, dim)
  {
    hide Int32;
    SmallQuotient(sum, dim);
    var m, x := 0x1_0000_0000, sum / dim;
    if sum >= 0 {
    } else {
      var h := m / dim;
      assert sum % (m * m) == sum + m * m;
      assert sum + m * m == (x + m * h) * dim + sum % dim by { Distribute(sum, dim, x, m, h); }
      DivModUnique(sum + m * m, dim, x + m * h, sum % dim);
      AddMultiple(x, h, m);
      Int32Same(x + m * h, x);
    }
  }

  lemma Distribute(sum: int, dim: int, x: int, m: int, h: int)
    requires dim > 0 && sum == x * dim + sum % dim && m == h * dim
    ensures sum + m * m == (x + m * h) * dim + sum % dim
  {
    assert (x + m * h) * dim == x * dim + m * (h * dim);
  }

  /** Numbers with the same low 32 bits wrap to the same number. */
  lemma Int32Same(x: int, y: int)
    requires x % 0x1_0000_0000 == y % 0x1_0000_0000
    ensures Int32(x) == Int32(y)
  {
    ModAdd(x, 0x8000_0000, 0x1_0000_0000);
    ModAdd(y, 0x8000_0000, 0x1_0000_0000);
  }

  /** The sums -1 and -dim cannot both come out right. */
  lemma MeanBad(dim: nat)
    requires 1 <= dim <= 0x8000_0000 && 0x1_0000_0000 % dim != 0
    ensures !MeanRight(-1, dim) || !MeanRight(0 - dim, dim)
  {
    hide MeanRight;
    var m := 0x1_0000_0000;
    var q, r := (m * m) / dim, (m * m) % dim;
    if MeanRight(-1, dim) && MeanRight(0 - dim, dim) {
      MinusDim(dim, q, r);
      MinusOne(dim, q, r);
      if r == 0 {
        DividesLow(dim, q);
      }
    }
  }

  lemma MinusDim(dim: nat, q: int, r: int)
    requires 1 <= dim <= 0x8000_0000 && 0 <= r < dim && q * dim + r == 0x1_0000_0000_0000_0000
    requires MeanRight(0 - dim, dim)
    ensures q % 0x1_0000_0000 == 0
  {
    hide Int32;
    var m := 0x1_0000_0000_0000_0000;
    DivModUnique(0 - dim, m, -1, m - dim);
    DivModUnique(0 - dim, dim, -1, 0);
    DivModUnique(m - dim, dim, q - 1, r);
    LowBits(q - 1);
  }

  lemma MinusOne(dim: nat, q: int, r: int)
    requires 1 <= dim && 0 <= r < dim && q * dim + r == 0x1_0000_0000_0000_0000
    requires MeanRight(-1, dim)
    ensures r == 0 || (q + 1) % 0x1_0000_0000 == 0
  {
    hide Int32;
    var m := 0x1_0000_0000_0000_0000;
    if r != 0 {
      DivModUnique(-1, m, -1, m - 1);
      DivModUnique(-1, dim, -1, dim - 1);
      DivModUnique(m - 1, dim, q, r - 1);
      LowBits(q);
    }
  }

  lemma LowBits(x: int)
    requires Int32(x) == -1
    ensures (x + 1) % 0x1_0000_0000 == 0
  {
    ModAdd(x, 1, 0x1_0000_0000);
    ModAdd(Int32(x), 1, 0x1_0000_0000);
  }

  lemma DividesLow(dim: nat, q: int)
    requires dim >= 1 && q * dim == 0x1_0000_0000_0000_0000 && q % 0x1_0000_0000 == 0
    ensures 0x1_0000_0000 % dim == 0
  {
    var m := 0x1_0000_0000;
    var h := q / m;
    assert q == h * m;
    assert (h * dim) * m == m * m;
    DivModUnique(m, dim, h, 0);
  }

  /** A dimension of 12 and a sum of -1. */
  lemma MeanOfMinusOne()
    ensures MeanOf(-1, 12) == 0x5555_5555 && (-1) / 12 == -1
  {
    assert (-1) % 0x1_0000_0000_0000_0000 == 0xFFFF_FFFF_FFFF_FFFF;
    DivModUnique(0xFFFF_FFFF_FFFF_FFFF, 12, 0x1555_5555_5555_5555, 3);
    Int32Same(0x1555_5555_5555_5555, 0x5555_5555);
  }

  // ----- rows without variation

  lemma {:induction false} ConstantSum(s: seq<int>, v: int, n: nat)
    requires n <= |s| && forall q :: 0 <= q < |s| ==> s[q] == v
    ensures Sum(s, n) == n * v
  {
    if n > 0 {
      ConstantSum(s, v, n - 1);
      assert n * v == (n - 1) * v + v;
    }
  }

  /** The mean of equal elements is that element, if the sum fits and is not negative or the dimension divides 2^32. */
  lemma ConstantMean(v: int, dim: nat)
    requires 1 <= dim && -0x8000_0000 <= dim * v < 0x8000_0000 && (v >= 0 || 0x1_0000_0000 % dim == 0)
    ensures MeanOf(Int32(dim * v), dim) == v
  {
    hide Int32;
    var sum := dim * v;
    Int32Small(sum);
    DivModUnique(sum, dim, v, 0);
    SmallQuotient(sum, dim);
    if v >= 0 {
      DivModUnique(sum, 0x1_0000_0000_0000_0000, 0, sum) by { MulMono(0, v, dim); }
      Int32Small(v);
    } else {
      MeanGood(sum, dim);
    }
  }

  /** A row of equal elements is normalised to zeros, whatever the scale. */
  lemma ConstantRow(l: Lanes, dim: nat, nan: int, s: seq<int>, u: int)
    requires l.Valid() && |s| == dim >= 1 && forall q :: 0 <= q < |s| ==> s[q] == u
    requires -0x8000_0000 <= dim * Signed(l, u) < 0x8000_0000 && (Signed(l, u) >= 0 || 0x1_0000_0000 % dim == 0)
    ensures forall q :: 0 <= q < |s| ==> NormRow(l, dim, nan, s)[q] == 0
  {
    hide Signed, Int32, MeanOf;
    var v := Signed(l, u);
    ConstantSum(Mapped(u => Signed(l, u), s), v, dim);
    ConstantMean(v, dim);
    Int32Small(0);
    DivModUnique(0, Pow2(l.bits), 0, 0);
    var mean := MeanOf(RowSum(l, s), dim);
    var sdInv := SdInv(nan, RowVariance(l, mean, s, dim));
    assert Int32(v - mean) * sdInv == 0;
    assert Rescale(l, mean, sdInv, u) == 0;
  }

  /** A row with a variance of ten or more is normalised to zeros as well. */
  lemma WideRowVanishes(l: Lanes, dim: nat, nan: int, s: seq<int>)
    requires l.Valid() && dim > 0 && RowVariance(l, MeanOf(RowSum(l, s), dim), s, dim) >= 10
    ensures forall q :: 0 <= q < |s| ==> NormRow(l, dim, nan, s)[q] == 0
  {
    hide Int32, MeanOf, RowVariance, RowSum, Signed;
    Int32Small(0);
    DivModUnique(0, Pow2(l.bits), 0, 0);
    var mean := MeanOf(RowSum(l, s), dim);
    forall q | 0 <= q < |s|
      ensures Rescale(l, mean, 0, s[q]) == 0
    {
      assert Int32(Signed(l, s[q]) - mean) * 0 == 0;
    }
  }

  // ----- the two forms

  /** Elements `from` to `to` are sums, the others are as before. */
  ghost predicate Added(l: Lanes, f0: seq<int>, x: seq<int>, f: seq<int>, from: nat, to: nat)
    requires l.bits >= 1
  {
    && |f| == |f0| == |x| && from <= to <= |f|
    && forall e :: 0 <= e < |f| ==> f[e] == if from <= e < to then AddElement(l, f0[e], x[e]) else f0[e]
  }

  /** The elements that are added are added as lanes of their words, the others keep their lane. */
  lemma AddedLanes(l: Lanes, s: seq<Word>, x: seq<Word>, t: seq<Word>, from: nat, to: nat, w: nat, n: nat)
    requires l.Valid() && |s| == |x| == |t| && Added(l, Flat(l, s), Flat(l, x), Flat(l, t), from, to) && w < |s| && n < l.per
    ensures Lane(l, t[w], n)
         == if from <= Mul(w, l.per) + (l.per - 1 - n) < to then Lane(l, AddLanes(l, s[w], x[w]), n) else Lane(l, s[w], n)
  {
    hide Lane, Flat, AddLanes, Mul, Signed;
    FlatAt(l, s, w, n);
    FlatAt(l, x, w, n);
    FlatAt(l, t, w, n);
    LaneOfAdd(l, s[w], x[w], n);
    SignedSum(l, Lane(l, s[w], n), Lane(l, x[w], n));
  }

  /** If all elements are added, every word becomes the lane-wise sum of the two words. */
  lemma AddedWords(l: Lanes, s: seq<Word>, x: seq<Word>, t: seq<Word>)
    requires l.Valid() && |s| == |x| == |t| && Added(l, Flat(l, s), Flat(l, x), Flat(l, t), 0, Mul(|s|, l.per))
    ensures forall w :: 0 <= w < |s| ==> t[w] == AddLanes(l, s[w], x[w])
  {
    hide Lane, Flat, AddLanes, Mul, Added;
    forall w | 0 <= w < |s|
      ensures t[w] == AddLanes(l, s[w], x[w])
    {
      MulFits(|s|, l.per, w);
      forall n | 0 <= n < l.per
        ensures Lane(l, t[w], n) == Lane(l, AddLanes(l, s[w], x[w]), n)
      {
        AddedLanes(l, s, x, t, 0, Mul(|s|, l.per), w, n);
      }
      SameLanes(l, t[w], AddLanes(l, s[w], x[w]));
    }
  }

  lemma AddedNone(l: Lanes, f: seq<int>, x: seq<int>, from: nat)
    requires l.bits >= 1 && |f| == |x| && from <= |f|
    ensures Added(l, f, x, f, from, from)
  {
    hide AddElement;
  }

  lemma AddedNext(l: Lanes, f0: seq<int>, x: seq<int>, f: seq<int>, from: nat, to: nat)
    requires l.bits >= 1 && Added(l, f0, x, f, from, to) && to < |f|
    ensures |f| == |f0| == |x| && Added(l, f0, x, f[to := AddElement(l, f[to], x[to])], from, to + 1)
  {
    hide AddElement;
  }

  /** Add `count` consecutive elements of one buffer to another, and add up the results. */
  method AddInto(l: Lanes, input: array<Word>, output: array<Word>, from: nat, count: nat) returns (sum: int)
    requires l.Valid() && input != output && input.Length == output.Length && from + count <= Mul(output.Length, l.per)
    modifies output
    ensures Added(l, Flat(l, old(output[..])), Flat(l, input[..]), Flat(l, output[..]), from, from + count)
    ensures sum == RowSum(l, Flat(l, output[..])[from..from + count])
    ensures from == 0 && count == Mul(output.Length, l.per) ==>
              forall w :: 0 <= w < output.Length ==> output[w] == AddLanes(l, old(output[w]), input[w])
  {
    hide Mul, Flat, AddElement, Int32, Signed, AddLanes, RowSum, Added;
    AddedNone(l, Flat(l, output[..]), Flat(l, input[..]), from);
    ghost var before, f0, x := output[..], Flat(l, output[..]), Flat(l, input[..]);
    sum := 0;
    RowSumNone(l, Flat(l, output[..]), from);
    var j := 0;
    while j < count
      invariant 0 <= j <= count && Flat(l, input[..]) == x
      invariant Added(l, f0, x, Flat(l, output[..]), from, from + j)
      invariant sum == RowSum(l, Flat(l, output[..])[from..from + j])
    {
      ghost var f := Flat(l, output[..]);
      var u := Load(l, output, from + j);
      var v := Load(l, input, from + j);
      var w := AddElement(l, u, v);
      AddedNext(l, f0, x, f, from, from + j);
      Store(l, output, from + j, w);
      RowSumNext(l, f, Flat(l, output[..]), from, j);
      sum := Int32(sum + Signed(l, w));
      j := j + 1;
    }
    if from == 0 && count == Mul(output.Length, l.per) {
      AddedWords(l, before, input[..], output[..]);
    }
  }

  lemma RowSumNone(l: Lanes, f: seq<int>, from: nat)
    requires l.bits >= 1 && from <= |f|
    ensures RowSum(l, f[from..from]) == 0
  {
  }

  lemma RowSumNext(l: Lanes, f0: seq<int>, f: seq<int>, from: nat, j: nat)
    requires l.bits >= 1 && |f| == |f0| && from + j < |f| && f == f0[from + j := f[from + j]]
    ensures RowSum(l, f[from..from + j + 1]) == Int32(RowSum(l, f0[from..from + j]) + Signed(l, f[from + j]))
  {
    hide Int32, Signed;
    var s, t := f0[from..from + j], f[from..from + j + 1];
    assert t == s + [f[from + j]];
    var a, b := Mapped(u => Signed(l, u), s), Mapped(u => Signed(l, u), t);
    SumSame(a, b, j);
    assert Sum(b, j + 1) == Sum(b, j) + b[j];
    Int32Step(Sum(a, j), Signed(l, f[from + j]));
  }

  /** Mean, variance and scaling of one row whose sum is known. */
  method NormaliseRow(l: Lanes, rows: nat, k: nat, blocks: nat, buf: array<Word>, i: nat, sum: int, dim: nat, nan: int)
    requires Holds(l, rows, k, blocks, buf) && i < rows && 0 < dim
    requires sum == RowSum(l, BufferRows(l, rows, k, blocks, buf)[i])
    modifies buf
    ensures var m0 := old(BufferRows(l, rows, k, blocks, buf));
            BufferRows(l, rows, k, blocks, buf) == m0[i := NormRow(l, dim, nan, m0[i])]
  {
    hide Mul, BufferRows, Deviation, Rescale, Int32, MeanOf, TruncDiv;
    ghost var m0 := BufferRows(l, rows, k, blocks, buf);
    var mean := MeanOf(sum, dim);
    var variance := SumRow(l, rows, k, blocks, buf, i, u => Deviation(l, mean, u));
    variance := TruncDiv(variance, dim);
    assert variance == RowVariance(l, mean, m0[i], dim);
    var sdInv := SdInv(nan, variance);
    var _ := MapRow(l, rows, k, blocks, buf, i, u => Rescale(l, mean, sdInv, u));
    assert BufferRows(l, rows, k, blocks, buf)[i] == NormRow(l, dim, nan, m0[i]);
  }

  /** Consecutive elements of a row-major buffer are a row. */
  lemma AddedRow(l: Lanes, rows: nat, k: nat, f0: seq<int>, x: seq<int>, f: seq<int>, i: nat)
    requires l.bits >= 1 && i < rows && |f0| == Mul(1, Mul(rows, k))
    requires Added(l, f0, x, f, Mul(i, k), Mul(i, k) + k)
    ensures f[Mul(i, k)..Mul(i, k) + k] == Rows(rows, k, 1, f)[i]
    ensures |Rows(rows, k, 1, f0)[i]| == |Rows(rows, k, 1, x)[i]|
    ensures Rows(rows, k, 1, f)
         == Rows(rows, k, 1, f0)[i := AddRow(l, Rows(rows, k, 1, f0)[i], Rows(rows, k, 1, x)[i])]
  {
    hide Mul, RowView, AddElement, Slot;
    MulFits(rows, k, i);
    MulNext(0, k);
    MulNone(k);
    var m, m0 := Rows(rows, k, 1, f), Rows(rows, k, 1, f0);
    var added := AddRow(l, m0[i], Rows(rows, k, 1, x)[i]);
    forall r | 0 <= r < rows
      ensures m[r] == if r == i then added else m0[r]
    {
      forall c | 0 <= c < k
        ensures m[r][c] == (if r == i then added else m0[r])[c]
      {
        RowMajorCell(rows, k, f, r, c, i);
        RowMajorCell(rows, k, f0, r, c, i);
        RowMajorCell(rows, k, x, r, c, i);
      }
    }
    RowSlice(rows, k, f, i);
  }

  lemma RowSlice(rows: nat, k: nat, f: seq<int>, i: nat)
    requires |f| == Mul(1, Mul(rows, k)) && i < rows && Mul(i, k) + k <= |f|
    ensures f[Mul(i, k)..Mul(i, k) + k] == Rows(rows, k, 1, f)[i]
  {
    hide Mul, RowView, Slot;
    MulNext(0, k);
    MulNone(k);
    forall c | 0 <= c < k
      ensures f[Mul(i, k)..Mul(i, k) + k][c] == Rows(rows, k, 1, f)[i][c]
    {
      RowMajorCell(rows, k, f, i, c, i);
    }
  }

  lemma RowMajorCell(rows: nat, k: nat, f: seq<int>, r: nat, c: nat, i: nat)
    requires |f| == Mul(1, Mul(rows, k)) && r < rows && c < k && i < rows
    ensures Mul(r, k) + c < |f| && c < |Rows(rows, k, 1, f)[r]| && Rows(rows, k, 1, f)[r][c] == f[Mul(r, k) + c]
    ensures Mul(i, k) <= Mul(r, k) + c < Mul(i, k) + k <==> r == i
  {
    hide Mul, RowView;
    RowViewAt(rows, k, 1, f, r, 0, c);
    MulNone(k);
    MulNone(Mul(rows, k));
    MulNext(r, k);
    MulNext(i, k);
    MulLe(i + 1, if r > i then r else i + 1, k);
    MulLe(r + 1, if r < i then i else r + 1, k);
  }

  lemma AddedAll(l: Lanes, rows: nat, k: nat, blocks: nat, f0: seq<int>, x: seq<int>, f: seq<int>, r: nat)
    requires l.bits >= 1 && |f0| == Mul(blocks, Mul(rows, k)) && r < rows && Added(l, f0, x, f, 0, |f0|)
    ensures |Rows(rows, k, blocks, f0)[r]| == |Rows(rows, k, blocks, x)[r]|
    ensures Rows(rows, k, blocks, f)[r] == AddRow(l, Rows(rows, k, blocks, f0)[r], Rows(rows, k, blocks, x)[r])
  {
    hide Mul, Slot, AddElement, RowView;
    forall q | 0 <= q < Mul(blocks, k)
      ensures Rows(rows, k, blocks, f)[r][q] == AddElement(l, Rows(rows, k, blocks, f0)[r][q], Rows(rows, k, blocks, x)[r][q])
    {
      var b, c := MulSplit(blocks, k, q);
      RowViewAt(rows, k, blocks, f, r, b, c);
      RowViewAt(rows, k, blocks, f0, r, b, c);
      RowViewAt(rows, k, blocks, x, r, b, c);
    }
  }

  /** The row-major form. */
  method Compute(l: Lanes, input: array<Word>, output: array<Word>, seqLen: nat, inputDim: nat, nan: int)
    requires Holds(l, seqLen, inputDim, 1, output) && Holds(l, seqLen, inputDim, 1, input)
    requires input != output && input.Length == output.Length && inputDim > 0 && inputDim % l.per == 0
    modifies output
    ensures BufferRows(l, seqLen, inputDim, 1, output)
         == AddNormRows(l, inputDim, nan, old(BufferRows(l, seqLen, inputDim, 1, output)),
                        BufferRows(l, seqLen, inputDim, 1, input))
  {
    hide Mul, NormRow, RowSum, Rows, Flat, AddElement;
    ghost var m0, x := BufferRows(l, seqLen, inputDim, 1, output), BufferRows(l, seqLen, inputDim, 1, input);
    MulNext(0, Mul(seqLen, inputDim));
    MulNone(Mul(seqLen, inputDim));
    var i := 0;
    while i < seqLen
      invariant 0 <= i <= seqLen && BufferRows(l, seqLen, inputDim, 1, input) == x
      invariant forall r :: 0 <= r < seqLen ==>
                  BufferRows(l, seqLen, inputDim, 1, output)[r]
                  == if r < i then NormRow(l, inputDim, nan, AddRow(l, m0[r], x[r])) else m0[r]
    {
      ghost var f0 := Flat(l, output[..]);
      MulFits(seqLen, inputDim, i);
      var sum := AddInto(l, input, output, Mul(i, inputDim), inputDim);
      AddedRow(l, seqLen, inputDim, f0, Flat(l, input[..]), Flat(l, output[..]), i);
      NormaliseRow(l, seqLen, inputDim, 1, output, i, sum, inputDim, nan);
      i := i + 1;
    }
  }

  /** The blocked form: all additions first, then row by row with a stride. */
  method ComputeRearranged(l: Lanes, kernelDim: nat, input: array<Word>, output: array<Word>, seqLen: nat, inputDim: nat,
                           nan: int)
    requires kernelDim > 0 && inputDim > 0 && Mul(inputDim / kernelDim, kernelDim) == inputDim
    requires Holds(l, seqLen, kernelDim, inputDim / kernelDim, output) && Holds(l, seqLen, kernelDim, inputDim / kernelDim, input)
    requires input != output && input.Length == output.Length
    modifies output
    ensures BufferRows(l, seqLen, kernelDim, inputDim / kernelDim, output)
         == AddNormRows(l, inputDim, nan, old(BufferRows(l, seqLen, kernelDim, inputDim / kernelDim, output)),
                        BufferRows(l, seqLen, kernelDim, inputDim / kernelDim, input))
  {
    hide Mul, NormRow, RowSum, Rows, Flat, AddElement;
    var blocks := inputDim / kernelDim;
    ghost var m0, x := BufferRows(l, seqLen, kernelDim, blocks, output), BufferRows(l, seqLen, kernelDim, blocks, input);
    ghost var f0 := Flat(l, output[..]);
    MulMul(seqLen, blocks, kernelDim);
    MulSwap(seqLen, blocks);
    MulMul(blocks, seqLen, kernelDim);
    var _ := AddInto(l, input, output, 0, Mul(seqLen, inputDim));
    forall r | 0 <= r < seqLen
      ensures BufferRows(l, seqLen, kernelDim, blocks, output)[r] == AddRow(l, m0[r], x[r])
    {
      AddedAll(l, seqLen, kernelDim, blocks, f0, Flat(l, input[..]), Flat(l, output[..]), r);
    }
    var i := 0;
    while i < seqLen
      invariant 0 <= i <= seqLen && BufferRows(l, seqLen, kernelDim, blocks, input) == x
      invariant forall r :: 0 <= r < seqLen ==>
                  BufferRows(l, seqLen, kernelDim, blocks, output)[r]
                  == if r < i then NormRow(l, inputDim, nan, AddRow(l, m0[r], x[r])) else AddRow(l, m0[r], x[r])
    {
      var sum := SumRow(l, seqLen, kernelDim, blocks, output, i, u => Signed(l, u));
      RowSumIs(l, BufferRows(l, seqLen, kernelDim, blocks, output)[i]);
      NormaliseRow(l, seqLen, kernelDim, blocks, output, i, sum, inputDim, nan);
      i := i + 1;
    }
  }

  lemma RowSumIs(l: Lanes, s: seq<int>)
    requires l.bits >= 1
    ensures RowSum(l, s) == Int32(Sum(Mapped(u => Signed(l, u), s), |s|))
  {
  }
}
