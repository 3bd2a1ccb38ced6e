/** Packed, blocked buffers read as ordinary matrices. */
module Matrices {
  import opened Arith
  import opened Words

  type Matrix = seq<seq<int>>

  ghost predicate IsMatrix(n: nat, m: nat, a: Matrix) {
    |a| == n && forall i :: 0 <= i < n ==> |a[i]| == m
  }

  /** Blocks of K columns; a row of a block is `cols` words of packed elements. */
  datatype Layout = Layout(l: Lanes, cols: nat, k: nat) {
    ghost predicate Valid() {
      l.Valid() && Mul(cols, l.per) == k
    }
  }

  /** The word with row `i`, word `j` of block `b`, in a buffer of `rows` rows. */
  function Pos(y: Layout, rows: nat, b: nat, i: nat, j: nat): nat {
    Slot(rows, y.cols, b, i, j)
  }

  ghost predicate IsBuffer(y: Layout, rows: nat, blocks: nat, buf: seq<Word>) {
    |buf| == Mul(blocks, Mul(rows, y.cols))
  }

  lemma PosFits(y: Layout, rows: nat, blocks: nat, b: nat, i: nat, j: nat)
    requires b < blocks && i < rows && j < y.cols
    ensures Pos(y, rows, b, i, j) < Mul(blocks, Mul(rows, y.cols))
  {
    SlotFits(rows, y.cols, blocks, b, i, j);
  }

  /** Every word of a buffer is a word of some row of some block. */
  lemma PosSplit(y: Layout, rows: nat, blocks: nat, p: nat) returns (b: nat, i: nat, j: nat)
    requires p < Mul(blocks, Mul(rows, y.cols))
    ensures b < blocks && i < rows && j < y.cols && p == Pos(y, rows, b, i, j)
  {
    b, i, j := SlotSplit(rows, y.cols, blocks, p);
  }

  /** Lane `n` of a word as an element of the matrix. */
  ghost function ElemOf(y: Layout, x: Word, n: nat): int
    requires y.Valid() && n < y.l.per
  {
    Signed(y.l, Lane(y.l, x, n))
  }

  /** Column `c` of row `i` of block `b`. */
  ghost function Entry(y: Layout, rows: nat, buf: seq<Word>, b: nat, i: nat, c: nat): int
    requires y.Valid() && c < y.k && Mul(b, Mul(rows, y.cols)) + Mul(i, y.cols) + y.cols <= |buf|
  {
    DivMul(y.cols, y.l.per, c);
    ElemOf(y, buf[Pos(y, rows, b, i, c / y.l.per)], c % y.l.per)
  }

  ghost function RowOf(y: Layout, rows: nat, blocks: nat, buf: seq<Word>, i: nat): (r: seq<int>)
    requires y.Valid() && IsBuffer(y, rows, blocks, buf) && i < rows
    ensures |r| == Mul(blocks, y.k)
  {
    seq(Mul(blocks, y.k), e requires 0 <= e < Mul(blocks, y.k) => EntryAt(y, rows, blocks, buf, i, e))
  }

  ghost function EntryAt(y: Layout, rows: nat, blocks: nat, buf: seq<Word>, i: nat, e: nat): int
    requires y.Valid() && IsBuffer(y, rows, blocks, buf) && i < rows && e < Mul(blocks, y.k)
  {
    DivMul(blocks, y.k, e);
    MulFits(blocks, Mul(rows, y.cols), e / y.k);
    MulFits(rows, y.cols, i);
    Entry(y, rows, buf, e / y.k, i, e % y.k)
  }

  /** The matrix in a buffer: `rows` rows of `blocks` blocks of K columns. */
  ghost function MatrixOf(y: Layout, rows: nat, blocks: nat, buf: seq<Word>): (a: Matrix)
    requires y.Valid() && IsBuffer(y, rows, blocks, buf)
    ensures IsMatrix(rows, Mul(blocks, y.k), a)
  {
    seq(rows, i requires 0 <= i < rows => RowOf(y, rows, blocks, buf, i))
  }

  /** The column of lane `n` of word `j` of block `b`. */
  function ColumnOf(y: Layout, b: nat, j: nat, n: nat): nat {
    Mul(b, y.k) + Mul(j, y.l.per) + n
  }

  lemma ColumnFits(y: Layout, blocks: nat, b: nat, j: nat, n: nat)
    requires y.Valid() && b < blocks && j < y.cols && n < y.l.per
    ensures Mul(j, y.l.per) + n < y.k && ColumnOf(y, b, j, n) < Mul(blocks, y.k)
  {
    MulFits(blocks, y.k, b);
    MulFits(y.cols, y.l.per, j);
  }

  lemma ColumnSplit(y: Layout, blocks: nat, e: nat) returns (b: nat, j: nat, n: nat)
    requires y.Valid() && e < Mul(blocks, y.k)
    ensures b < blocks && j < y.cols && n < y.l.per && e == ColumnOf(y, b, j, n)
  {
    var c;
    b, c := MulSplit(blocks, y.k, e);
    j, n := MulSplit(y.cols, y.l.per, c);
  }

  /** The matrix element in lane `n` of word `j` of row `i` of block `b`. */
  lemma MatrixAt(y: Layout, rows: nat, blocks: nat, buf: seq<Word>, b: nat, i: nat, j: nat, n: nat)
    requires y.Valid() && IsBuffer(y, rows, blocks, buf)
    requires b < blocks && i < rows && j < y.cols && n < y.l.per
    ensures Pos(y, rows, b, i, j) < |buf| && ColumnOf(y, b, j, n) < Mul(blocks, y.k)
    ensures MatrixOf(y, rows, blocks, buf)[i][ColumnOf(y, b, j, n)] == ElemOf(y, buf[Pos(y, rows, b, i, j)], n)
  {
    hide Mul, ElemOf;
    PosFits(y, rows, blocks, b, i, j);
    ColumnFits(y, blocks, b, j, n);
    MulDiv(y.k, b, Mul(j, y.l.per) + n);
    MulDiv(y.l.per, j, n);
  }

  /** A buffer is determined by its matrix. */
  lemma MatrixInjective(y: Layout, rows: nat, blocks: nat, s: seq<Word>, t: seq<Word>)
    requires y.Valid() && IsBuffer(y, rows, blocks, s) && IsBuffer(y, rows, blocks, t)
    requires MatrixOf(y, rows, blocks, s) == MatrixOf(y, rows, blocks, t)
    ensures s == t
  {
    hide Mul, MatrixOf, Lane, ElemOf;
    forall p | 0 <= p < |s|
      ensures s[p] == t[p]
    {
      var b, i, j := PosSplit(y, rows, blocks, p);
      forall n | 0 <= n < y.l.per
        ensures Lane(y.l, s[p], n) == Lane(y.l, t[p], n)
      {
        MatrixAt(y, rows, blocks, s, b, i, j, n);
        MatrixAt(y, rows, blocks, t, b, i, j, n);
        ElemInjective(y, s[p], t[p], n);
      }
      SameLanes(y.l, s[p], t[p]);
    }
  }

  lemma ElemInjective(y: Layout, s: Word, t: Word, n: nat)
    requires y.Valid() && n < y.l.per && ElemOf(y, s, n) == ElemOf(y, t, n)
    ensures Lane(y.l, s, n) == Lane(y.l, t, n)
  {
    hide Lane, Signed;
    SignedRange(y.l, Lane(y.l, s, n));
    SignedRange(y.l, Lane(y.l, t, n));
  }

  // ----- the buffer of a matrix

  /** The elements fit the lanes. */
  ghost predicate InRange(l: Lanes, a: Matrix)
    requires l.bits > 0
  {
    forall i, e :: 0 <= i < |a| && 0 <= e < |a[i]| ==> -Pow2(l.bits - 1) <= a[i][e] < Pow2(l.bits - 1)
  }

  ghost function EncodeWord(y: Layout, rows: nat, blocks: nat, a: Matrix, b: nat, i: nat, j: nat): Word
    requires y.Valid() && IsMatrix(rows, Mul(blocks, y.k), a) && b < blocks && i < rows && j < y.cols
  {
    Pack(y.l, seq(y.l.per, n requires 0 <= n < y.l.per => ColumnFits(y, blocks, b, j, n); a[i][ColumnOf(y, b, j, n)] % Pow2(y.l.bits)))
  }

  ghost function EncodeAt(y: Layout, rows: nat, blocks: nat, a: Matrix, p: nat): Word
    requires y.Valid() && IsMatrix(rows, Mul(blocks, y.k), a) && p < Mul(blocks, Mul(rows, y.cols))
  {
    DivMul(blocks, Mul(rows, y.cols), p);
    DivMul(rows, y.cols, p % Mul(rows, y.cols));
    EncodeWord(y, rows, blocks, a, p / Mul(rows, y.cols), p % Mul(rows, y.cols) / y.cols, p % Mul(rows, y.cols) % y.cols)
  }

  /** The buffer that holds a matrix. */
  ghost function Encode(y: Layout, rows: nat, blocks: nat, a: Matrix): (s: seq<Word>)
    requires y.Valid() && IsMatrix(rows, Mul(blocks, y.k), a)
    ensures IsBuffer(y, rows, blocks, s)
  {
    var n := Mul(blocks, Mul(rows, y.cols));
    seq<Word>(n, p requires 0 <= p < n => EncodeAt(y, rows, blocks, a, p))
  }

  lemma EncodePos(y: Layout, rows: nat, blocks: nat, a: Matrix, b: nat, i: nat, j: nat)
    requires y.Valid() && IsMatrix(rows, Mul(blocks, y.k), a) && b < blocks && i < rows && j < y.cols
    ensures Pos(y, rows, b, i, j) < Mul(blocks, Mul(rows, y.cols))
    ensures Encode(y, rows, blocks, a)[Pos(y, rows, b, i, j)] == EncodeWord(y, rows, blocks, a, b, i, j)
  {
    hide Mul, EncodeWord;
    PosFits(y, rows, blocks, b, i, j);
    MulFits(rows, y.cols, i);
    MulDiv(Mul(rows, y.cols), b, Mul(i, y.cols) + j);
    MulDiv(y.cols, i, j);
  }

  lemma LaneOfEncode(y: Layout, rows: nat, blocks: nat, a: Matrix, b: nat, i: nat, j: nat, n: nat)
    requires y.Valid() && IsMatrix(rows, Mul(blocks, y.k), a) && b < blocks && i < rows && j < y.cols && n < y.l.per
    ensures ColumnOf(y, b, j, n) < Mul(blocks, y.k)
    ensures Lane(y.l, EncodeWord(y, rows, blocks, a, b, i, j), n) == a[i][ColumnOf(y, b, j, n)] % Pow2(y.l.bits)
  {
    hide Mul, Lane;
    ColumnFits(y, blocks, b, j, n);
    LaneOfPack(y.l, seq(y.l.per, n requires 0 <= n < y.l.per => ColumnFits(y, blocks, b, j, n); a[i][ColumnOf(y, b, j, n)] % Pow2(y.l.bits)), n);
  }

  /** Signed values are recovered from their residues. */
  lemma SignedOfResidue(l: Lanes, v: int)
    requires l.bits > 0 && -Pow2(l.bits - 1) <= v < Pow2(l.bits - 1)
    ensures Signed(l, v % Pow2(l.bits)) == v
  {
    assert Pow2(l.bits) == 2 * Pow2(l.bits - 1);
    if v >= 0 {
      DivModUnique(v, Pow2(l.bits), 0, v);
    } else {
      DivModUnique(v, Pow2(l.bits), -1, v + Pow2(l.bits));
    }
  }

  lemma MatrixInRange(y: Layout, rows: nat, blocks: nat, buf: seq<Word>)
    requires y.Valid() && IsBuffer(y, rows, blocks, buf)
    ensures InRange(y.l, MatrixOf(y, rows, blocks, buf))
  {
    hide Mul, MatrixOf, Lane, Signed, Pow2;
    var a := MatrixOf(y, rows, blocks, buf);
    forall i, e | 0 <= i < |a| && 0 <= e < |a[i]|
      ensures -Pow2(y.l.bits - 1) <= a[i][e] < Pow2(y.l.bits - 1)
    {
      var b, j, n := ColumnSplit(y, blocks, e);
      MatrixAt(y, rows, blocks, buf, b, i, j, n);
      SignedRange(y.l, Lane(y.l, buf[Pos(y, rows, b, i, j)], n));
    }
  }

  /** Encoding and reading back. */
  lemma MatrixOfEncode(y: Layout, rows: nat, blocks: nat, a: Matrix)
    requires y.Valid() && IsMatrix(rows, Mul(blocks, y.k), a) && InRange(y.l, a)
    ensures MatrixOf(y, rows, blocks, Encode(y, rows, blocks, a)) == a
  {
    hide Mul, MatrixOf, Lane, Encode, EncodeWord, Signed, Pow2;
    var m := MatrixOf(y, rows, blocks, Encode(y, rows, blocks, a));
    forall i | 0 <= i < rows
      ensures m[i] == a[i]
    {
      forall e | 0 <= e < Mul(blocks, y.k)
        ensures m[i][e] == a[i][e]
      {
        var b, j, n := ColumnSplit(y, blocks, e);
        MatrixAt(y, rows, blocks, Encode(y, rows, blocks, a), b, i, j, n);
        EncodePos(y, rows, blocks, a, b, i, j);
        LaneOfEncode(y, rows, blocks, a, b, i, j, n);
        SignedOfResidue(y.l, a[i][e]);
      }
    }
  }

  lemma EncodeMatrix(y: Layout, rows: nat, blocks: nat, buf: seq<Word>)
    requires y.Valid() && IsBuffer(y, rows, blocks, buf)
    ensures Encode(y, rows, blocks, MatrixOf(y, rows, blocks, buf)) == buf
  {
    hide Mul, MatrixOf, Encode, InRange;
    MatrixInRange(y, rows, blocks, buf);
    MatrixOfEncode(y, rows, blocks, MatrixOf(y, rows, blocks, buf));
    MatrixInjective(y, rows, blocks, Encode(y, rows, blocks, MatrixOf(y, rows, blocks, buf)), buf);
  }

  /** Rows and columns exchanged. */
  ghost function Transposed(n: nat, m: nat, a: Matrix): (t: Matrix)
    requires IsMatrix(n, m, a)
    ensures IsMatrix(m, n, t)
    ensures forall i, e :: 0 <= i < m && 0 <= e < n ==> t[i][e] == a[e][i]
  {
    seq(m, i requires 0 <= i < m => ColumnSeq(n, m, a, i))
  }

  ghost function ColumnSeq(n: nat, m: nat, a: Matrix, i: nat): (c: seq<int>)
    requires IsMatrix(n, m, a) && i < m
    ensures |c| == n && forall e :: 0 <= e < n ==> c[e] == a[e][i]
  {
    seq(n, e requires 0 <= e < n => a[e][i])
  }

  // ----- wrapped matrix arithmetic

  /** A value kept in an element: reduced to the lane width, read as signed. */
  ghost function Wrap(l: Lanes, v: int): int
    requires l.bits > 0
  {
    Signed(l, v % Pow2(l.bits))
  }

  /** The one value of the signed range that differs from `v` by a multiple of 2^bits. */
  lemma WrapIs(l: Lanes, v: int, r: int, q: int)
    requires l.bits > 0 && v == q * Pow2(l.bits) + r
    ensures -Pow2(l.bits - 1) <= Wrap(l, v) < Pow2(l.bits - 1)
    ensures Wrap(l, v) == r <==> -Pow2(l.bits - 1) <= r < Pow2(l.bits - 1)
  {
    hide Pow2;
    var b, h := Pow2(l.bits), Pow2(l.bits - 1);
    Doubled(l.bits);
    SignedRange(l, v % b);
    if 0 <= r < h {
      DivModUnique(v, b, q, r);
    } else if -h <= r < 0 {
      assert v == (q - 1) * b + (r + b);
      DivModUnique(v, b, q - 1, r + b);
    }
  }

  lemma Doubled(bits: nat)
    requires bits > 0
    ensures Pow2(bits) == 2 * Pow2(bits - 1) > 0
  {
  }

  /** Sum of the first `n` products of a row with column `e` of a matrix. */
  ghost function RowDot(x: seq<int>, w: Matrix, e: nat, n: nat): int
    requires n <= |x| && n <= |w| && forall r :: 0 <= r < n ==> e < |w[r]|
  {
    if n == 0 then 0 else RowDot(x, w, e, n - 1) + x[n - 1] * w[n - 1][e]
  }

  /** A matrix plus a matrix product, each element wrapped to the lane width. */
  ghost function MatMulAdd(l: Lanes, a: Matrix, x: Matrix, w: Matrix, n: nat, k: nat, m: nat): (r: Matrix)
    requires l.bits > 0 && IsMatrix(n, m, a) && IsMatrix(n, k, x) && IsMatrix(k, m, w)
    ensures IsMatrix(n, m, r)
    ensures forall i, e :: 0 <= i < n && 0 <= e < m ==> r[i][e] == Wrap(l, a[i][e] + RowDot(x[i], w, e, k))
  {
    seq(n, i requires 0 <= i < n => MulAddRow(l, a[i], x[i], w, k, m))
  }

  ghost function MulAddRow(l: Lanes, a: seq<int>, x: seq<int>, w: Matrix, k: nat, m: nat): (r: seq<int>)
    requires l.bits > 0 && |a| == m && |x| == k && IsMatrix(k, m, w)
    ensures |r| == m && forall e :: 0 <= e < m ==> r[e] == Wrap(l, a[e] + RowDot(x, w, e, k))
  {
    seq(m, e requires 0 <= e < m => Wrap(l, a[e] + RowDot(x, w, e, k)))
  }

  lemma SameEntries(n: nat, m: nat, a: Matrix, b: Matrix)
    requires IsMatrix(n, m, a) && IsMatrix(n, m, b)
    requires forall i, e :: 0 <= i < n && 0 <= e < m ==> a[i][e] == b[i][e]
    ensures a == b
  {
    forall i | 0 <= i < n
      ensures a[i] == b[i]
    {
      assert forall e :: 0 <= e < m ==> a[i][e] == b[i][e];
    }
  }

  ghost function ZeroMatrix(n: nat, m: nat): (a: Matrix)
    ensures IsMatrix(n, m, a) && forall i, e :: 0 <= i < n && 0 <= e < m ==> a[i][e] == 0
  {
    seq(n, _ => seq(m, _ => 0))
  }

  /** The matrix product, each element wrapped to the lane width. */
  ghost function MatMul(l: Lanes, x: Matrix, w: Matrix, n: nat, k: nat, m: nat): (a: Matrix)
    requires l.bits > 0 && IsMatrix(n, k, x) && IsMatrix(k, m, w)
    ensures IsMatrix(n, m, a)
    ensures forall i, e :: 0 <= i < n && 0 <= e < m ==> a[i][e] == Wrap(l, RowDot(x[i], w, e, k))
  {
    MatMulAdd(l, ZeroMatrix(n, m), x, w, n, k, m)
  }
}
