/** The element-wise kernels, said of the matrix in the buffer rather than of the elements in memory order. */
module MatrixKernels {
  import opened Arith
  import opened Words
  import opened Matrices
  import opened Elements
  import opened Softmax

  // ----- memory order and column order

  lemma BufferElements(y: Layout, rows: nat, blocks: nat)
    requires y.Valid()
    ensures Mul(Mul(blocks, Mul(rows, y.cols)), y.l.per) == Mul(blocks, Mul(rows, y.k))
  {
    hide Mul;
    MulMul(blocks, Mul(rows, y.cols), y.l.per);
    MulMul(rows, y.cols, y.l.per);
  }

  /** Within a word, memory order is the reverse of column order. */
  lemma MemoryOrder(y: Layout, rows: nat, blocks: nat, s: seq<Word>, i: nat, b: nat, j: nat, n: nat)
    requires y.Valid() && IsBuffer(y, rows, blocks, s) && i < rows && b < blocks && j < y.cols && n < y.l.per
    ensures |Flat(y.l, s)| == Mul(blocks, Mul(rows, y.k))
    ensures ColumnOf(y, b, j, n) < Mul(blocks, y.k) && ColumnOf(y, b, j, y.l.per - 1 - n) < Mul(blocks, y.k)
    ensures 0 <= RowView(rows, y.k, blocks, Flat(y.l, s), i)[ColumnOf(y, b, j, y.l.per - 1 - n)] < Pow2(y.l.bits)
    ensures MatrixOf(y, rows, blocks, s)[i][ColumnOf(y, b, j, n)]
         == Signed(y.l, RowView(rows, y.k, blocks, Flat(y.l, s), i)[ColumnOf(y, b, j, y.l.per - 1 - n)])
  {
    hide Mul, MatrixOf, RowView, Lane, Flat, Signed, Pow2;
    BufferElements(y, rows, blocks);
    ColumnFits(y, blocks, b, j, n);
    ColumnFits(y, blocks, b, j, y.l.per - 1 - n);
    MatrixAt(y, rows, blocks, s, b, i, j, n);
    FlatAt(y.l, s, Pos(y, rows, b, i, j), n);
    SlotOfWord(y.l, y.cols, y.k, rows, b, i, j, y.l.per - 1 - n);
    RowViewAt(rows, y.k, blocks, Flat(y.l, s), i, b, Mul(j, y.l.per) + (y.l.per - 1 - n));
    FlatRange(y.l, s, Mul(Pos(y, rows, b, i, j), y.l.per) + (y.l.per - 1 - n));
  }

  /** Each group of `per` elements of `t` is that of `s` in reverse. */
  ghost predicate ReversedGroups(per: nat, words: nat, s: seq<int>, t: seq<int>) {
    && |s| == |t| == Mul(words, per)
    && forall w, e :: 0 <= w < words && 0 <= e < per ==> ReversedAt(per, s, t, w, e)
  }

  ghost predicate ReversedAt(per: nat, s: seq<int>, t: seq<int>, w: nat, e: nat) {
    e < per && Mul(w, per) + per <= |s| && |s| == |t| && t[Mul(w, per) + e] == s[Mul(w, per) + (per - 1 - e)]
  }

  lemma {:induction false} GroupSum(per: nat, words: nat, s: seq<int>, t: seq<int>, w: nat, e: nat)
    requires ReversedGroups(per, words, s, t) && w < words && e <= per
    ensures Mul(w, per) + per <= |s|
    ensures Sum(t, Mul(w, per) + e) - Sum(t, Mul(w, per)) == Sum(s, Mul(w, per) + per) - Sum(s, Mul(w, per) + (per - e))
    decreases e
  {
    hide Mul;
    MulFits(words, per, w);
    if e > 0 {
      GroupSum(per, words, s, t, w, e - 1);
      assert ReversedAt(per, s, t, w, e - 1);
      SumNext(t, Mul(w, per) + (e - 1));
      SumNext(s, Mul(w, per) + (per - e));
    }
  }

  lemma {:induction false} ReversedSum(per: nat, words: nat, s: seq<int>, t: seq<int>, w: nat)
    requires ReversedGroups(per, words, s, t) && w <= words
    ensures Mul(w, per) <= |s| && Sum(t, Mul(w, per)) == Sum(s, Mul(w, per))
    decreases w
  {
    hide Sum;
    if w > 0 {
      ReversedSum(per, words, s, t, w - 1);
      GroupSum(per, words, s, t, w - 1, per);
    } else {
      SumStart(s);
      SumStart(t);
    }
  }

  // ----- softmax of a matrix

  /** The elements of a row as unsigned numbers. */
  ghost function UnsignedRow(l: Lanes, r: seq<int>): (u: seq<int>)
    ensures |u| == |r| && forall q :: 0 <= q < |r| ==> u[q] == r[q] % Pow2(l.bits)
  {
    seq(|r|, q requires 0 <= q < |r| => r[q] % Pow2(l.bits))
  }

  /** The softmax of a row of signed elements. */
  ghost function SoftSigned(l: Lanes, r: seq<int>): (t: seq<int>)
    requires l.bits >= 5
    ensures |t| == |r| && forall q :: 0 <= q < |r| ==> t[q] == Signed(l, SoftRow(l, UnsignedRow(l, r))[q])
  {
    seq(|r|, q requires 0 <= q < |r| => Signed(l, SoftRow(l, UnsignedRow(l, r))[q]))
  }

  ghost function SoftmaxMatrix(l: Lanes, n: nat, m: nat, a: Matrix): (r: Matrix)
    requires l.bits >= 5 && IsMatrix(n, m, a)
    ensures IsMatrix(n, m, r) && forall i :: 0 <= i < n ==> r[i] == SoftSigned(l, a[i])
  {
    seq(n, i requires 0 <= i < n => SoftSigned(l, a[i]))
  }

  /** Column `e` as a word of the row and a lane. */
  lemma ColumnGroup(y: Layout, b: nat, j: nat, n: nat)
    requires y.Valid()
    ensures ColumnOf(y, b, j, n) == Mul(Mul(b, y.cols) + j, y.l.per) + n
  {
    hide Mul;
    MulAdd(Mul(b, y.cols), j, y.l.per);
    MulMul(b, y.cols, y.l.per);
  }

  /** The row of the matrix, unsigned, is the row in memory with each word reversed. */
  lemma RowReversed(y: Layout, rows: nat, blocks: nat, s: seq<Word>, i: nat)
    requires y.Valid() && IsBuffer(y, rows, blocks, s) && i < rows && |Flat(y.l, s)| == Mul(blocks, Mul(rows, y.k))
    ensures ReversedGroups(y.l.per, Mul(blocks, y.cols), RowView(rows, y.k, blocks, Flat(y.l, s), i),
                           UnsignedRow(y.l, MatrixOf(y, rows, blocks, s)[i]))
  {
    hide Mul, MatrixOf, RowView, Flat, Signed;
    var l, words := y.l, Mul(blocks, y.cols);
    var m, u := RowView(rows, y.k, blocks, Flat(l, s), i), UnsignedRow(l, MatrixOf(y, rows, blocks, s)[i]);
    MulMul(blocks, y.cols, l.per);
    forall w, e | 0 <= w < words && 0 <= e < l.per
      ensures ReversedAt(l.per, m, u, w, e)
    {
      MulFits(words, l.per, w);
      var b, j := MulSplit(blocks, y.cols, w);
      MemoryOrder(y, rows, blocks, s, i, b, j, e);
      ColumnGroup(y, b, j, e);
      ColumnGroup(y, b, j, l.per - 1 - e);
      SignedRange(l, m[ColumnOf(y, b, j, l.per - 1 - e)]);
    }
  }

  lemma WeightsReversed(l: Lanes, per: nat, words: nat, s: seq<int>, t: seq<int>)
    requires l.bits >= 5 && ReversedGroups(per, words, s, t)
    ensures ReversedGroups(per, words, Weights(l, s), Weights(l, t)) && Mass(l, s) == Mass(l, t)
  {
    hide Mul, Weigh;
    forall w, e | 0 <= w < words && 0 <= e < per
      ensures ReversedAt(per, Weights(l, s), Weights(l, t), w, e)
    {
      assert ReversedAt(per, s, t, w, e);
    }
    ReversedSum(per, words, Weights(l, s), Weights(l, t), words);
  }

  lemma SoftElement(l: Lanes, s: seq<int>, q: nat)
    requires l.bits >= 5 && q < |s|
    ensures SoftRow(l, s)[q] == Normalise(Divisor(Mass(l, s)), Weigh(l, s[q]))
  {
  }

  /** Softmax of the rows in memory order is softmax of the rows of the matrix. */
  lemma SoftmaxOfRow(y: Layout, rows: nat, blocks: nat, s: seq<Word>, s': seq<Word>, i: nat, e: nat)
    requires y.Valid() && y.l.bits >= 8 && IsBuffer(y, rows, blocks, s) && IsBuffer(y, rows, blocks, s') && i < rows
    requires |Flat(y.l, s)| == |Flat(y.l, s')| == Mul(blocks, Mul(rows, y.k)) && e < Mul(blocks, y.k)
    requires RowView(rows, y.k, blocks, Flat(y.l, s'), i) == SoftRow(y.l, RowView(rows, y.k, blocks, Flat(y.l, s), i))
    ensures MatrixOf(y, rows, blocks, s')[i][e] == SoftSigned(y.l, MatrixOf(y, rows, blocks, s)[i])[e]
  {
    hide Mul, MatrixOf, RowView, Flat, Signed, SoftRow, Mass, Weigh;
    var l, words := y.l, Mul(blocks, y.cols);
    var m, u := RowView(rows, y.k, blocks, Flat(l, s), i), UnsignedRow(l, MatrixOf(y, rows, blocks, s)[i]);
    RowReversed(y, rows, blocks, s, i);
    WeightsReversed(l, l.per, words, m, u);
    var b, j, n := ColumnSplit(y, blocks, e);
    MemoryOrder(y, rows, blocks, s', i, b, j, n);
    ColumnGroup(y, b, j, n);
    ColumnGroup(y, b, j, l.per - 1 - n);
    MulFits(blocks, y.cols, b);
    assert ReversedAt(l.per, m, u, Mul(b, y.cols) + j, n);
    SoftElement(l, m, ColumnOf(y, b, j, l.per - 1 - n));
    SoftElement(l, u, e);
  }

  lemma SoftmaxOfBuffer(y: Layout, rows: nat, blocks: nat, s: seq<Word>, s': seq<Word>)
    requires y.Valid() && y.l.bits >= 8 && IsBuffer(y, rows, blocks, s) && IsBuffer(y, rows, blocks, s')
    requires |Flat(y.l, s)| == |Flat(y.l, s')| == Mul(blocks, Mul(rows, y.k))
    requires Rows(rows, y.k, blocks, Flat(y.l, s')) == SoftRows(y.l, Rows(rows, y.k, blocks, Flat(y.l, s)))
    ensures MatrixOf(y, rows, blocks, s') == SoftmaxMatrix(y.l, rows, Mul(blocks, y.k), MatrixOf(y, rows, blocks, s))
  {
    hide Mul, MatrixOf, RowView, Flat, SoftRow, SoftSigned;
    var a, a' := MatrixOf(y, rows, blocks, s), MatrixOf(y, rows, blocks, s');
    forall i | 0 <= i < rows
      ensures a'[i] == SoftSigned(y.l, a[i])
    {
      assert Rows(rows, y.k, blocks, Flat(y.l, s'))[i] == SoftRow(y.l, Rows(rows, y.k, blocks, Flat(y.l, s))[i]);
      SoftSize(y.l, a[i]);
      forall e | 0 <= e < Mul(blocks, y.k)
        ensures a'[i][e] == SoftSigned(y.l, a[i])[e]
      {
        SoftmaxOfRow(y, rows, blocks, s, s', i, e);
      }
    }
  }

  /** The weights of every row of the matrix can be added up in a signed 32-bit number. */
  ghost predicate ScoresFit(l: Lanes, a: Matrix)
    requires l.bits >= 5
  {
    forall i :: 0 <= i < |a| ==> Mass(l, UnsignedRow(l, a[i])) < 0x8000_0000
  }

  /** Matrices of up to 2^31 / 170 columns always have such weights. */
  lemma NarrowScoresFit(l: Lanes, n: nat, m: nat, a: Matrix)
    requires l.bits >= 5 && IsMatrix(n, m, a) && 170 * m < 0x8000_0000
    ensures ScoresFit(l, a)
  {
    hide Weights;
    forall i | 0 <= i < n
      ensures Mass(l, UnsignedRow(l, a[i])) < 0x8000_0000
    {
      WeightsBound(l, UnsignedRow(l, a[i]), m);
    }
  }

  /** Rows in memory order have the same mass. */
  lemma MassesOfBuffer(y: Layout, rows: nat, blocks: nat, s: seq<Word>)
    requires y.Valid() && y.l.bits >= 5 && IsBuffer(y, rows, blocks, s) && ScoresFit(y.l, MatrixOf(y, rows, blocks, s))
    ensures |Flat(y.l, s)| == Mul(blocks, Mul(rows, y.k))
    ensures MassesFit(y.l, Rows(rows, y.k, blocks, Flat(y.l, s)))
  {
    hide Mul, MatrixOf, RowView, Flat, Mass;
    BufferElements(y, rows, blocks);
    forall i | 0 <= i < rows
      ensures Mass(y.l, Rows(rows, y.k, blocks, Flat(y.l, s))[i]) < 0x8000_0000
    {
      RowReversed(y, rows, blocks, s, i);
      WeightsReversed(y.l, y.l.per, Mul(blocks, y.cols), RowView(rows, y.k, blocks, Flat(y.l, s), i),
                      UnsignedRow(y.l, MatrixOf(y, rows, blocks, s)[i]));
    }
  }

  lemma SoftSize(l: Lanes, r: seq<int>)
    requires l.bits >= 5
    ensures |SoftSigned(l, r)| == |r|
  {
  }

  // ----- the final scaling

  ghost function ScaledMatrix(l: Lanes, n: nat, m: nat, a: Matrix): (r: Matrix)
    requires l.bits >= 1 && IsMatrix(n, m, a)
    ensures IsMatrix(n, m, r) && forall i, e :: 0 <= i < n && 0 <= e < m ==> r[i][e] == Wrap(l, TruncDiv(a[i][e], 64))
  {
    seq(n, i requires 0 <= i < n => ScaledRow(l, m, a[i]))
  }

  ghost function ScaledRow(l: Lanes, m: nat, x: seq<int>): (r: seq<int>)
    requires l.bits >= 1 && |x| == m
    ensures |r| == m && forall e :: 0 <= e < m ==> r[e] == Wrap(l, TruncDiv(x[e], 64))
  {
    seq(m, e requires 0 <= e < m => Wrap(l, TruncDiv(x[e], 64)))
  }

  lemma ScaledBuffer(y: Layout, rows: nat, blocks: nat, s: seq<Word>, s': seq<Word>)
    requires y.Valid() && IsBuffer(y, rows, blocks, s) && IsBuffer(y, rows, blocks, s')
    requires forall p :: 0 <= p < |Flat(y.l, s')| ==> Flat(y.l, s')[p] == Scale(y.l, Flat(y.l, s)[p])
    ensures MatrixOf(y, rows, blocks, s') == ScaledMatrix(y.l, rows, Mul(blocks, y.k), MatrixOf(y, rows, blocks, s))
  {
    hide Mul, MatrixOf, Flat, Wrap, TruncDiv, Scale;
    var a, a' := MatrixOf(y, rows, blocks, s), MatrixOf(y, rows, blocks, s');
    forall i | 0 <= i < rows
      ensures a'[i] == ScaledRow(y.l, Mul(blocks, y.k), a[i])
    {
      forall e | 0 <= e < Mul(blocks, y.k)
        ensures a'[i][e] == Wrap(y.l, TruncDiv(a[i][e], 64))
      {
        ScaledElement(y, rows, blocks, s, s', i, e);
      }
    }
  }

  lemma ScaledElement(y: Layout, rows: nat, blocks: nat, s: seq<Word>, s': seq<Word>, i: nat, e: nat)
    requires y.Valid() && IsBuffer(y, rows, blocks, s) && IsBuffer(y, rows, blocks, s') && i < rows && e < Mul(blocks, y.k)
    requires forall p :: 0 <= p < |Flat(y.l, s')| ==> Flat(y.l, s')[p] == Scale(y.l, Flat(y.l, s)[p])
    ensures MatrixOf(y, rows, blocks, s')[i][e] == Wrap(y.l, TruncDiv(MatrixOf(y, rows, blocks, s)[i][e], 64))
  {
    hide Mul, MatrixOf, Flat, Lane, TruncDiv;
    var b, j, n := ColumnSplit(y, blocks, e);
    MatrixAt(y, rows, blocks, s, b, i, j, n);
    MatrixAt(y, rows, blocks, s', b, i, j, n);
    FlatAt(y.l, s, Pos(y, rows, b, i, j), n);
    FlatAt(y.l, s', Pos(y, rows, b, i, j), n);
  }
}
