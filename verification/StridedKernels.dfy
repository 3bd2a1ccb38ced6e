/** The strided kernels do to blocked data what the row-major ones do to row-major data. */
module StridedKernels {
  import opened Arith
  import opened Words
  import opened Elements
  import opened Layouts
  import opened RowPasses
  import opened Matrices
  import opened Transpose
  import Softmax
  import AddNorm

  /** `blocks` blocks of `cols` words make a row of the row-major buffer. */
  ghost predicate RowMajor(l: Lanes, cols: nat, rows: nat, blocks: nat, s: seq<Word>) {
    l.Valid() && cols > 0 && |s| == Mul(rows, Mul(blocks, cols))
  }

  lemma WholeBlocks(cols: nat, blocks: nat)
    requires cols > 0
    ensures Blocks(cols, Mul(blocks, cols)) == blocks && Mul(blocks, cols) % cols == 0
  {
    MulDiv(cols, blocks, 0);
  }

  /** The blocked image of a row-major buffer. */
  ghost function Blocked(l: Lanes, cols: nat, rows: nat, blocks: nat, s: seq<Word>): (t: seq<Word>)
    requires RowMajor(l, cols, rows, blocks, s)
    ensures |t| == Mul(blocks, Mul(rows, cols))
  {
    WholeBlocks(cols, blocks);
    ToBlockWise(cols, rows, Mul(blocks, cols), s)
  }

  lemma {:induction false} ElementCounts(l: Lanes, cols: nat, rows: nat, blocks: nat)
    ensures Mul(Mul(rows, Mul(blocks, cols)), l.per) == Mul(1, Mul(rows, Mul(blocks, Mul(cols, l.per))))
    ensures Mul(Mul(blocks, Mul(rows, cols)), l.per) == Mul(blocks, Mul(rows, Mul(cols, l.per)))
  {
    hide Mul;
    var k := Mul(cols, l.per);
    MulNext(0, Mul(rows, Mul(blocks, k)));
    MulNone(Mul(rows, Mul(blocks, k)));
    MulMul(rows, Mul(blocks, cols), l.per);
    MulMul(blocks, cols, l.per);
    MulMul(blocks, Mul(rows, cols), l.per);
    MulMul(rows, cols, l.per);
  }

  /** The rows of elements of a row-major buffer. */
  ghost function PlainRows(l: Lanes, cols: nat, rows: nat, blocks: nat, s: seq<Word>): (m: seq<seq<int>>)
    requires RowMajor(l, cols, rows, blocks, s)
    ensures |m| == rows && forall i :: 0 <= i < rows ==> |m[i]| == Mul(blocks, Mul(cols, l.per))
  {
    ElementCounts(l, cols, rows, blocks);
    assert Mul(1, Mul(blocks, Mul(cols, l.per))) == Mul(blocks, Mul(cols, l.per));
    Rows(rows, Mul(blocks, Mul(cols, l.per)), 1, Flat(l, s))
  }

  /** The rows of elements of a blocked buffer. */
  ghost function BlockedRows(l: Lanes, cols: nat, rows: nat, blocks: nat, t: seq<Word>): (m: seq<seq<int>>)
    requires l.Valid() && |t| == Mul(blocks, Mul(rows, cols))
    ensures |m| == rows && forall i :: 0 <= i < rows ==> |m[i]| == Mul(blocks, Mul(cols, l.per))
  {
    ElementCounts(l, cols, rows, blocks);
    Rows(rows, Mul(cols, l.per), blocks, Flat(l, t))
  }

  /** Element (b, c) of row `i` is the same element in both orders. */
  lemma SameElement(l: Lanes, cols: nat, rows: nat, blocks: nat, s: seq<Word>, i: nat, q: nat)
    requires RowMajor(l, cols, rows, blocks, s) && i < rows && q < Mul(blocks, Mul(cols, l.per))
    ensures BlockedRows(l, cols, rows, blocks, Blocked(l, cols, rows, blocks, s))[i][q] == PlainRows(l, cols, rows, blocks, s)[i][q]
  {
    hide Mul, Blocks, Flat, RowView, ToBlockWise, Slot, RowPos, Lane;
    var k, t := Mul(cols, l.per), Blocked(l, cols, rows, blocks, s);
    var n := Mul(blocks, k);
    ElementCounts(l, cols, rows, blocks);
    WholeBlocks(cols, blocks);
    var b, c := MulSplit(blocks, k, q);
    var j, e := MulSplit(cols, l.per, c);
    RowViewAt(rows, k, blocks, Flat(l, t), i, b, c);
    SlotOfWord(l, cols, k, rows, b, i, j, e);
    ToBlockWiseAt(cols, rows, Mul(blocks, cols), s, b, i, j);
    FlatAt(l, t, Slot(rows, cols, b, i, j), l.per - 1 - e);
    FlatAt(l, s, RowPos(cols, Mul(blocks, cols), b, i, j), l.per - 1 - e);
    RowMajorElement(l, cols, rows, blocks, b, i, j, e);
    MulNone(n);
    RowViewAt(rows, n, 1, Flat(l, s), i, 0, q);
  }

  lemma RowMajorElement(l: Lanes, cols: nat, rows: nat, blocks: nat, b: nat, i: nat, j: nat, e: nat)
    ensures var k := Mul(cols, l.per);
            Mul(RowPos(cols, Mul(blocks, cols), b, i, j), l.per) + e == Slot(rows, Mul(blocks, k), 0, i, Mul(b, k) + Mul(j, l.per) + e)
  {
    hide Mul;
    var k := Mul(cols, l.per);
    MulAdd(Mul(i, Mul(blocks, cols)), Mul(b, cols) + j, l.per);
    MulAdd(Mul(b, cols), j, l.per);
    MulMul(i, Mul(blocks, cols), l.per);
    MulMul(blocks, cols, l.per);
    MulMul(b, cols, l.per);
    MulNone(Mul(rows, Mul(blocks, k)));
  }

  lemma SameRows(l: Lanes, cols: nat, rows: nat, blocks: nat, s: seq<Word>)
    requires RowMajor(l, cols, rows, blocks, s)
    ensures BlockedRows(l, cols, rows, blocks, Blocked(l, cols, rows, blocks, s)) == PlainRows(l, cols, rows, blocks, s)
  {
    hide Mul, BlockedRows, PlainRows, Blocked;
    var m, p := BlockedRows(l, cols, rows, blocks, Blocked(l, cols, rows, blocks, s)), PlainRows(l, cols, rows, blocks, s);
    forall i | 0 <= i < rows
      ensures m[i] == p[i]
    {
      forall q | 0 <= q < Mul(blocks, Mul(cols, l.per))
        ensures m[i][q] == p[i][q]
      {
        SameElement(l, cols, rows, blocks, s, i, q);
      }
    }
  }

  /** A blocked buffer is determined by its rows. */
  lemma BlockedInjective(l: Lanes, cols: nat, rows: nat, blocks: nat, s: seq<Word>, t: seq<Word>)
    requires l.Valid() && |s| == |t| == Mul(blocks, Mul(rows, cols))
    requires BlockedRows(l, cols, rows, blocks, s) == BlockedRows(l, cols, rows, blocks, t)
    ensures s == t
  {
    hide Mul, Flat, Rows;
    ElementCounts(l, cols, rows, blocks);
    RowsInjective(rows, Mul(cols, l.per), blocks, Flat(l, s), Flat(l, t));
    FlatInjective(l, s, t);
  }

  /** A blocked buffer with the rows of a row-major one is its blocked image. */
  lemma SameImage(l: Lanes, cols: nat, rows: nat, blocks: nat, s: seq<Word>, t: seq<Word>)
    requires RowMajor(l, cols, rows, blocks, s) && |t| == Mul(blocks, Mul(rows, cols))
    requires BlockedRows(l, cols, rows, blocks, t) == PlainRows(l, cols, rows, blocks, s)
    ensures t == Blocked(l, cols, rows, blocks, s)
  {
    hide Mul, BlockedRows, PlainRows, Blocked;
    SameRows(l, cols, rows, blocks, s);
    BlockedInjective(l, cols, rows, blocks, t, Blocked(l, cols, rows, blocks, s));
  }

  /** Sizes of both buffers in the terms of the kernels. */
  lemma KernelSizes(l: Lanes, cols: nat, rows: nat, blocks: nat, plain: array<Word>, blocked: array<Word>)
    requires RowMajor(l, cols, rows, blocks, plain[..]) && blocked.Length == Mul(blocks, Mul(rows, cols))
    ensures var k := Mul(cols, l.per);
            && k > 0 && Mul(blocks, k) / k == blocks && Mul(blocks, k) % l.per == 0
            && Holds(l, rows, Mul(blocks, k), 1, plain) && Holds(l, rows, k, blocks, blocked)
            && BufferRows(l, rows, Mul(blocks, k), 1, plain) == PlainRows(l, cols, rows, blocks, plain[..])
            && BufferRows(l, rows, k, blocks, blocked) == BlockedRows(l, cols, rows, blocks, blocked[..])
  {
    hide Mul, Flat, Rows;
    var k := Mul(cols, l.per);
    ElementCounts(l, cols, rows, blocks);
    MulFits(cols, l.per, 0);
    MulNone(l.per);
    MulDiv(k, blocks, 0);
    MulMul(blocks, cols, l.per);
    MulDiv(l.per, Mul(blocks, cols), 0);
  }

  /** The strided softmax does to the blocked image of a buffer what the row-major softmax does to the buffer. */
  method SoftmaxBothForms(l: Lanes, cols: nat, blocks: nat, n: nat, plain: array<Word>, blocked: array<Word>)
    requires Softmax.Wide(l) && n == Mul(blocks, Mul(cols, l.per)) && plain != blocked
    requires RowMajor(l, cols, n, blocks, plain[..]) && blocked[..] == Blocked(l, cols, n, blocks, plain[..])
    requires Softmax.MassesFit(l, PlainRows(l, cols, n, blocks, plain[..]))
    modifies plain, blocked
    ensures PlainRows(l, cols, n, blocks, plain[..]) == Softmax.SoftRows(l, old(PlainRows(l, cols, n, blocks, plain[..])))
    ensures blocked[..] == Blocked(l, cols, n, blocks, plain[..])
  {
    hide Mul, BlockedRows, PlainRows, Blocked, BufferRows, Softmax.SoftRows, Softmax.MassesFit;
    KernelSizes(l, cols, n, blocks, plain, blocked);
    SameRows(l, cols, n, blocks, plain[..]);
    Softmax.Compute(l, plain, n);
    KernelSizes(l, cols, n, blocks, plain, blocked);
    Softmax.ComputeRearranged(l, Mul(cols, l.per), blocked, n);
    KernelSizes(l, cols, n, blocks, plain, blocked);
    SameImage(l, cols, n, blocks, plain[..], blocked[..]);
  }

  /** The strided add-and-normalise does to blocked images what the row-major one does to the buffers. */
  method AddNormBothForms(l: Lanes, cols: nat, blocks: nat, n: nat, dim: nat, nan: int,
                          input: array<Word>, plain: array<Word>, blockedInput: array<Word>, blocked: array<Word>)
    requires l.Valid() && dim == Mul(blocks, Mul(cols, l.per)) && dim > 0
    requires input != plain && blockedInput != blocked && blocked !in {input, plain} && blockedInput != plain
    requires RowMajor(l, cols, n, blocks, plain[..]) && blocked[..] == Blocked(l, cols, n, blocks, plain[..])
    requires RowMajor(l, cols, n, blocks, input[..]) && blockedInput[..] == Blocked(l, cols, n, blocks, input[..])
    modifies plain, blocked
    ensures PlainRows(l, cols, n, blocks, plain[..])
         == AddNorm.AddNormRows(l, dim, nan, old(PlainRows(l, cols, n, blocks, plain[..])),
                                PlainRows(l, cols, n, blocks, input[..]))
    ensures blocked[..] == Blocked(l, cols, n, blocks, plain[..])
  {
    hide Mul, BlockedRows, PlainRows, Blocked, BufferRows, AddNorm.AddNormRows;
    KernelSizes(l, cols, n, blocks, plain, blocked);
    KernelSizes(l, cols, n, blocks, input, blockedInput);
    SameRows(l, cols, n, blocks, plain[..]);
    SameRows(l, cols, n, blocks, input[..]);
    AddNorm.Compute(l, input, plain, n, dim, nan);
    KernelSizes(l, cols, n, blocks, plain, blocked);
    KernelSizes(l, cols, n, blocks, input, blockedInput);
    AddNorm.ComputeRearranged(l, Mul(cols, l.per), blockedInput, blocked, n, dim, nan);
    KernelSizes(l, cols, n, blocks, plain, blocked);
    SameImage(l, cols, n, blocks, plain[..], blocked[..]);
  }

  // ----- transposition

  ghost predicate PlainBuffer(y: Layout, rows: nat, blocks: nat, s: seq<Word>) {
    y.Valid() && RowMajor(y.l, y.cols, rows, blocks, s)
  }

  /** A row-major buffer in the terms of layouts. */
  lemma {:induction false} PlainLayout(y: Layout, rows: nat, blocks: nat)
    requires y.Valid()
    ensures Plain(y.l, Mul(blocks, y.cols)).Valid() && Mul(1, Plain(y.l, Mul(blocks, y.cols)).k) == Mul(blocks, y.k)
    ensures Mul(1, Mul(rows, Mul(blocks, y.cols))) == Mul(rows, Mul(blocks, y.cols))
  {
    hide Mul;
    MulMul(blocks, y.cols, y.l.per);
    MulNext(0, Mul(blocks, y.k));
    MulNone(Mul(blocks, y.k));
    MulNext(0, Mul(rows, Mul(blocks, y.cols)));
    MulNone(Mul(rows, Mul(blocks, y.cols)));
  }

  /** A row-major buffer and its blocked image hold the same matrix. */
  lemma SameMatrix(y: Layout, rows: nat, blocks: nat, s: seq<Word>)
    requires PlainBuffer(y, rows, blocks, s)
    ensures IsBuffer(y, rows, blocks, Blocked(y.l, y.cols, rows, blocks, s))
    ensures Plain(y.l, Mul(blocks, y.cols)).Valid() && IsBuffer(Plain(y.l, Mul(blocks, y.cols)), rows, 1, s)
    ensures MatrixOf(y, rows, blocks, Blocked(y.l, y.cols, rows, blocks, s))
         == MatrixOf(Plain(y.l, Mul(blocks, y.cols)), rows, 1, s)
  {
    hide Mul, MatrixOf, Blocked;
    PlainLayout(y, rows, blocks);
    var a := MatrixOf(y, rows, blocks, Blocked(y.l, y.cols, rows, blocks, s));
    var a' := MatrixOf(Plain(y.l, Mul(blocks, y.cols)), rows, 1, s);
    forall i | 0 <= i < rows
      ensures a[i] == a'[i]
    {
      forall e | 0 <= e < Mul(blocks, y.k)
        ensures a[i][e] == a'[i][e]
      {
        SameEntry(y, rows, blocks, s, i, e);
      }
    }
  }

  lemma SameEntry(y: Layout, rows: nat, blocks: nat, s: seq<Word>, i: nat, e: nat)
    requires PlainBuffer(y, rows, blocks, s) && i < rows && e < Mul(blocks, y.k)
    ensures Plain(y.l, Mul(blocks, y.cols)).Valid() && IsBuffer(Plain(y.l, Mul(blocks, y.cols)), rows, 1, s)
    ensures e < Mul(1, Plain(y.l, Mul(blocks, y.cols)).k)
    ensures MatrixOf(y, rows, blocks, Blocked(y.l, y.cols, rows, blocks, s))[i][e]
         == MatrixOf(Plain(y.l, Mul(blocks, y.cols)), rows, 1, s)[i][e]
  {
    hide Mul, MatrixOf, Lane, Blocks, ToBlockWise, Signed;
    PlainLayout(y, rows, blocks);
    WholeBlocks(y.cols, blocks);
    var b, j, n := ColumnSplit(y, blocks, e);
    MatrixAt(y, rows, blocks, Blocked(y.l, y.cols, rows, blocks, s), b, i, j, n);
    ToBlockWiseAt(y.cols, rows, Mul(blocks, y.cols), s, b, i, j);
    RowPosFits(y.cols, rows, Mul(blocks, y.cols), b, i, j);
    var w := Mul(b, y.cols) + j;
    MatrixAt(Plain(y.l, Mul(blocks, y.cols)), rows, 1, s, 0, i, w, n);
    PlainPos(y.l, Mul(blocks, y.cols), rows, i, w);
    PlainColumn(y.l, Mul(blocks, y.cols), w, n);
    MulAdd(Mul(b, y.cols), j, y.l.per);
    MulMul(b, y.cols, y.l.per);
  }

  /** Transposing the blocked image gives the blocked image of the transpose. */
  lemma TransposeRefines(y: Layout, bi: nat, bo: nat, s: seq<Word>)
    requires PlainBuffer(y, Mul(bo, y.k), bi, s)
    ensures Transposable(Plain(y.l, Mul(bi, y.cols)), 1, Plain(y.l, Mul(bo, y.cols)), 1, s)
    ensures Transposable(y, bi, y, bo, Blocked(y.l, y.cols, Mul(bo, y.k), bi, s))
    ensures var t := TransposedBuffer(Plain(y.l, Mul(bi, y.cols)), 1, Plain(y.l, Mul(bo, y.cols)), 1, s);
            PlainBuffer(y, Mul(bi, y.k), bo, t)
            && TransposedBuffer(y, bi, y, bo, Blocked(y.l, y.cols, Mul(bo, y.k), bi, s))
               == Blocked(y.l, y.cols, Mul(bi, y.k), bo, t)
  {
    hide Mul, MatrixOf, TransposedBuffer, Blocked;
    var h, w := Mul(bo, y.k), Mul(bi, y.k);
    PlainLayout(y, h, bi);
    PlainLayout(y, w, bo);
    var yi, yo := Plain(y.l, Mul(bi, y.cols)), Plain(y.l, Mul(bo, y.cols));
    var t, r := TransposedBuffer(yi, 1, yo, 1, s), Blocked(y.l, y.cols, h, bi, s);
    SameMatrix(y, h, bi, s);
    SameMatrix(y, w, bo, t);
    TransposeCommutes(yi, 1, yo, 1, s, y, bi, y, bo, r);
    MatrixInjective(y, w, bo, TransposedBuffer(y, bi, y, bo, r), Blocked(y.l, y.cols, w, bo, t));
  }

  lemma TransposeSizes(y: Layout, b: nat)
    requires y.Valid() && y.k > 0
    ensures Mul(b, y.k) / y.k == b && Mul(b, y.k) / y.l.per == Mul(b, y.cols)
  {
    hide Mul;
    MulDiv(y.k, b, 0);
    MulMul(b, y.cols, y.l.per);
    MulDiv(y.l.per, Mul(b, y.cols), 0);
  }

  /** The blocked transposition does to the blocked image of a buffer what the row-major one does to the buffer. */
  method TransposeBothForms(y: Layout, bi: nat, bo: nat, input: array<Word>, output: array<Word>,
                            blockedInput: array<Word>, blockedOutput: array<Word>)
    requires y.k > 0 && PlainBuffer(y, Mul(bo, y.k), bi, input[..])
    requires blockedInput[..] == Blocked(y.l, y.cols, Mul(bo, y.k), bi, input[..])
    requires output.Length == input.Length && blockedOutput.Length == Mul(bo, Mul(Mul(bi, y.k), y.cols))
    requires output !in {input, blockedInput, blockedOutput} && blockedOutput !in {input, blockedInput}
    modifies output, blockedOutput
    ensures PlainBuffer(y, Mul(bi, y.k), bo, output[..])
    ensures blockedOutput[..] == Blocked(y.l, y.cols, Mul(bi, y.k), bo, output[..])
  {
    hide Mul, MatrixOf, TransposedBuffer, Blocked;
    TransposeSizes(y, bi);
    TransposeSizes(y, bo);
    PlainLayout(y, Mul(bo, y.k), bi);
    PlainLayout(y, Mul(bi, y.k), bo);
    TransposeRefines(y, bi, bo, input[..]);
    SameCount(y, bi, bo);
    TransposeRowMajor(y.l, input, output, Mul(bi, y.k), Mul(bo, y.k));
    TransposeRearranged(y, blockedInput, blockedOutput, Mul(bi, y.k), Mul(bo, y.k));
  }

  /** A matrix and its transpose have as many words. */
  lemma SameCount(y: Layout, bi: nat, bo: nat)
    ensures Mul(Mul(bi, y.k), Mul(bo, y.cols)) == Mul(Mul(bo, y.k), Mul(bi, y.cols))
  {
    hide Mul;
    MulMul(bi, y.k, Mul(bo, y.cols));
    MulSwap(y.k, Mul(bo, y.cols));
    MulMul(bo, y.cols, y.k);
    MulSwap(y.cols, y.k);
    MulMul(bo, y.k, y.cols);
    MulSwap(bi, Mul(Mul(bo, y.k), y.cols));
    MulMul(Mul(bo, y.k), y.cols, bi);
    MulSwap(y.cols, bi);
  }
}
