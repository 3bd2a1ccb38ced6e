/** Softmax rows have bounded mass, so their products with the values stay in range. */
module AttentionBounds {
  import opened Arith
  import opened Words
  import opened Matrices
  import opened Elements
  import opened Softmax
  import opened MatrixKernels

  /** With lanes wider than eight bits a softmax row read as signed numbers is the softmax row. */
  lemma SoftSignedIs(l: Lanes, r: seq<int>)
    requires l.bits >= 9
    ensures SoftSigned(l, r) == SoftRow(l, UnsignedRow(l, r))
  {
    hide SoftRow, Pow2;
    var u := UnsignedRow(l, r);
    MassBound(l, u);
    Pow2Table();
    Pow2Mono(8, l.bits - 1);
  }

  lemma {:induction false} SumGrows(s: seq<int>, m: nat, n: nat)
    requires m <= n <= |s| && forall q :: 0 <= q < |s| ==> s[q] >= 0
    ensures 0 <= Sum(s, m) <= Sum(s, n)
    decreases n
  {
    if n > 0 {
      SumGrows(s, if m < n then m else n - 1, n - 1);
    }
  }

  /** Every partial sum of a product is bounded by the mass of the row so far. */
  lemma {:induction false} DotBound(x: seq<int>, w: Matrix, e: nat, n: nat, bound: int)
    requires bound >= 0 && n <= |x| && n <= |w| && forall t :: 0 <= t < n ==> x[t] >= 0 && e < |w[t]| && -bound <= w[t][e] <= bound
    ensures -(bound * Sum(x, n)) <= RowDot(x, w, e, n) <= bound * Sum(x, n)
  {
    if n > 0 {
      DotBound(x, w, e, n - 1, bound);
      TermBound(x[n - 1], w[n - 1][e], bound);
      assert bound * Sum(x, n) == bound * Sum(x, n - 1) + bound * x[n - 1];
    }
  }

  lemma TermBound(a: int, b: int, bound: int)
    requires bound >= 0 && a >= 0 && -bound <= b <= bound
    ensures -(bound * a) <= a * b <= bound * a
  {
    MulMono(b, bound, a);
    MulMono(-bound, b, a);
  }

  /**
   * With lanes wider than eight bits, every row of scores sums to at most 255, and every partial sum of scores times
   * values is at most 255 times the largest value in magnitude.
   */
  lemma ScoresBound(l: Lanes, n: nat, m: nat, a: Matrix, v: Matrix, h: nat, bound: int, i: nat, e: nat, t: nat)
    requires l.bits >= 9 && IsMatrix(n, m, a) && IsMatrix(m, h, v) && i < n && e < h && t <= m && bound >= 0
    requires forall r :: 0 <= r < m ==> -bound <= v[r][e] <= bound
    ensures 0 <= Sum(SoftmaxMatrix(l, n, m, a)[i], m) <= 255
    ensures -(255 * bound) <= RowDot(SoftmaxMatrix(l, n, m, a)[i], v, e, t) <= 255 * bound
  {
    hide SoftRow, SoftSigned, RowDot, Sum;
    var x := SoftmaxMatrix(l, n, m, a)[i];
    SoftSignedIs(l, a[i]);
    MassBound(l, UnsignedRow(l, a[i]));
    SumGrows(x, t, m);
    DotBound(x, v, e, t, bound);
    MulMono(Sum(x, t), 255, bound);
  }

  /** So the product with the values never wraps if 255 times the largest value fits a lane. */
  lemma ProductExact(l: Lanes, n: nat, m: nat, a: Matrix, v: Matrix, h: nat, bound: int, i: nat, e: nat)
    requires l.bits >= 9 && IsMatrix(n, m, a) && IsMatrix(m, h, v) && i < n && e < h && bound >= 0
    requires (forall r :: 0 <= r < m ==> -bound <= v[r][e] <= bound) && 255 * bound < Pow2(l.bits - 1)
    ensures MatMul(l, SoftmaxMatrix(l, n, m, a), v, n, m, h)[i][e] == RowDot(SoftmaxMatrix(l, n, m, a)[i], v, e, m)
  {
    hide SoftmaxMatrix, RowDot, Pow2, Signed;
    ScoresBound(l, n, m, a, v, h, bound, i, e, m);
    SignedOfResidue(l, RowDot(SoftmaxMatrix(l, n, m, a)[i], v, e, m));
  }

  /** With eight-bit lanes this fails: the largest weight, alone in its row, reads as a negative number. */
  lemma NarrowScore(l: Lanes)
    requires l.bits == 8
    ensures SoftRow(l, UnsignedRow(l, [127])) == [170] && SoftSigned(l, [127]) == [-86]
  {
    Pow2Table();
    var u := UnsignedRow(l, [127]);
    DivModUnique(127, 256, 0, 127);
    assert u == [127];
    NarrowWeight(l);
    assert Weights(l, u) == [170];
    SumNext([170], 0);
    SoftElement(l, u, 0);
    assert Pow2(8) == 2 * Pow2(7);
  }

  lemma NarrowWeight(l: Lanes)
    requires l.bits == 8
    ensures Weigh(l, 127) == 170
  {
    assert Pow2(3) == 8;
    Pow2Table();
    DivModUnique(127, 8, 15, 7);
  }

  /** Reading scores as signed numbers is harmless exactly with lanes wider than eight bits. */
  lemma SignedScoresExact(l: Lanes)
    requires l.bits >= 8
    ensures (forall r :: SoftSigned(l, r) == SoftRow(l, UnsignedRow(l, r))) <==> l.bits >= 9
  {
    hide SoftRow, SoftSigned;
    if l.bits >= 9 {
      forall r: seq<int>
        ensures SoftSigned(l, r) == SoftRow(l, UnsignedRow(l, r))
      {
        SoftSignedIs(l, r);
      }
    } else {
      NarrowScore(l);
      assert SoftSigned(l, [127])[0] != SoftRow(l, UnsignedRow(l, [127]))[0];
    }
  }
}
