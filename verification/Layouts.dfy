/** Conversion of a buffer of words between row-major and blocked order. */
module Layouts {
  import opened Arith
  import opened Words

  /** Whole blocks in a row. */
  function Blocks(cols: nat, nCol: nat): nat
    requires cols > 0
  {
    nCol / cols
  }

  lemma BlocksFit(cols: nat, nCol: nat)
    requires cols > 0
    ensures Mul(Blocks(cols, nCol), cols) <= nCol
  {
    MulIs(Blocks(cols, nCol), cols);
  }

  /** Word `j` of block `b` of row `i` in row-major order. */
  function RowPos(cols: nat, nCol: nat, b: nat, i: nat, j: nat): nat {
    Mul(i, nCol) + (Mul(b, cols) + j)
  }

  lemma RowPosFits(cols: nat, nRow: nat, nCol: nat, b: nat, i: nat, j: nat)
    requires cols > 0 && b < Blocks(cols, nCol) && i < nRow && j < cols
    ensures Mul(b, cols) + j < Mul(Blocks(cols, nCol), cols) <= nCol
    ensures RowPos(cols, nCol, b, i, j) < Mul(nRow, nCol)
    ensures Slot(nRow, cols, b, i, j) < Mul(Blocks(cols, nCol), Mul(nRow, cols))
  {
    hide Blocks;
    BlocksFit(cols, nCol);
    MulFits(Blocks(cols, nCol), cols, b);
    MulFits(nRow, nCol, i);
    SlotFits(nRow, cols, Blocks(cols, nCol), b, i, j);
  }

  /** The buffers have the sizes the conversions work with. */
  ghost predicate Sizes(cols: nat, nRow: nat, nCol: nat, rowWise: seq<Word>, blockWise: seq<Word>) {
    cols > 0 && |rowWise| == Mul(nRow, nCol) && |blockWise| == Mul(Blocks(cols, nCol), Mul(nRow, cols))
  }

  /** The word of the blocked buffer that belongs at position `p` of the row-major buffer, if any does. */
  ghost function RowWord(cols: nat, nRow: nat, nCol: nat, rowWise: seq<Word>, blockWise: seq<Word>, p: nat): Word
    requires Sizes(cols, nRow, nCol, rowWise, blockWise) && p < |rowWise|
  {
    DivMul(nRow, nCol, p);
    var i, e := p / nCol, p % nCol;
    if e < Mul(Blocks(cols, nCol), cols) then
      DivMul(Blocks(cols, nCol), cols, e);
      SlotFits(nRow, cols, Blocks(cols, nCol), e / cols, i, e % cols);
      blockWise[Slot(nRow, cols, e / cols, i, e % cols)]
    else rowWise[p]
  }

  /** The row-major buffer after its whole blocks have been taken from the blocked buffer. */
  ghost function ToRowWise(cols: nat, nRow: nat, nCol: nat, rowWise: seq<Word>, blockWise: seq<Word>): (r: seq<Word>)
    requires Sizes(cols, nRow, nCol, rowWise, blockWise)
    ensures |r| == |rowWise|
  {
    seq<Word>(|rowWise|, p requires 0 <= p < |rowWise| => RowWord(cols, nRow, nCol, rowWise, blockWise, p))
  }

  ghost function BlockWord(cols: nat, nRow: nat, nCol: nat, rowWise: seq<Word>, p: nat): Word
    requires cols > 0 && |rowWise| == Mul(nRow, nCol) && p < Mul(Blocks(cols, nCol), Mul(nRow, cols))
  {
    DivMul(Blocks(cols, nCol), Mul(nRow, cols), p);
    var b, q := p / Mul(nRow, cols), p % Mul(nRow, cols);
    DivMul(nRow, cols, q);
    RowPosFits(cols, nRow, nCol, b, q / cols, q % cols);
    rowWise[RowPos(cols, nCol, b, q / cols, q % cols)]
  }

  /** The whole blocks of a row-major buffer. */
  ghost function ToBlockWise(cols: nat, nRow: nat, nCol: nat, rowWise: seq<Word>): (r: seq<Word>)
    requires cols > 0 && |rowWise| == Mul(nRow, nCol)
    ensures |r| == Mul(Blocks(cols, nCol), Mul(nRow, cols))
  {
    var n := Mul(Blocks(cols, nCol), Mul(nRow, cols));
    seq<Word>(n, p requires 0 <= p < n => BlockWord(cols, nRow, nCol, rowWise, p))
  }

  lemma ToBlockWiseAt(cols: nat, nRow: nat, nCol: nat, rowWise: seq<Word>, b: nat, i: nat, j: nat)
    requires cols > 0 && |rowWise| == Mul(nRow, nCol) && b < Blocks(cols, nCol) && i < nRow && j < cols
    ensures RowPos(cols, nCol, b, i, j) < |rowWise| && Slot(nRow, cols, b, i, j) < |ToBlockWise(cols, nRow, nCol, rowWise)|
    ensures ToBlockWise(cols, nRow, nCol, rowWise)[Slot(nRow, cols, b, i, j)] == rowWise[RowPos(cols, nCol, b, i, j)]
  {
    hide Mul, Blocks, RowPos;
    RowPosFits(cols, nRow, nCol, b, i, j);
    MulFits(nRow, cols, i);
    MulDiv(Mul(nRow, cols), b, Mul(i, cols) + j);
    MulDiv(cols, i, j);
  }

  lemma ToRowWiseAt(cols: nat, nRow: nat, nCol: nat, rowWise: seq<Word>, blockWise: seq<Word>, b: nat, i: nat, j: nat)
    requires Sizes(cols, nRow, nCol, rowWise, blockWise) && b < Blocks(cols, nCol) && i < nRow && j < cols
    ensures RowPos(cols, nCol, b, i, j) < |rowWise| && Slot(nRow, cols, b, i, j) < |blockWise|
    ensures ToRowWise(cols, nRow, nCol, rowWise, blockWise)[RowPos(cols, nCol, b, i, j)]
         == blockWise[Slot(nRow, cols, b, i, j)]
  {
    hide Mul, Blocks, Slot;
    RowPosFits(cols, nRow, nCol, b, i, j);
    MulDiv(nCol, i, Mul(b, cols) + j);
    MulDiv(cols, b, j);
  }

  /** A position of the row-major buffer is in a whole block, or behind the last one in its row and then untouched. */
  lemma RowSplit(cols: nat, nRow: nat, nCol: nat, rowWise: seq<Word>, blockWise: seq<Word>, p: nat)
    returns (b: nat, i: nat, j: nat, inBlock: bool)
    requires Sizes(cols, nRow, nCol, rowWise, blockWise) && p < |rowWise|
    ensures inBlock ==> b < Blocks(cols, nCol) && i < nRow && j < cols && p == RowPos(cols, nCol, b, i, j)
    ensures !inBlock ==> ToRowWise(cols, nRow, nCol, rowWise, blockWise)[p] == rowWise[p] && nCol % cols != 0
  {
    hide Mul, Blocks, Slot;
    var e;
    i, e := MulSplit(nRow, nCol, p);
    inBlock := e < Mul(Blocks(cols, nCol), cols);
    b, j := 0, 0;
    if inBlock {
      b, j := MulSplit(Blocks(cols, nCol), cols, e);
    } else {
      MulDiv(nCol, i, e);
      BlocksExact(cols, nCol);
    }
  }

  lemma BlocksExact(cols: nat, nCol: nat)
    requires cols > 0
    ensures nCol % cols == 0 ==> Mul(Blocks(cols, nCol), cols) == nCol
  {
    MulIs(Blocks(cols, nCol), cols);
  }

  /** To row-major order and back: the blocked buffer is unchanged, whatever the target held before. */
  lemma BlockRoundTrip(cols: nat, nRow: nat, nCol: nat, rowWise: seq<Word>, blockWise: seq<Word>)
    requires Sizes(cols, nRow, nCol, rowWise, blockWise)
    ensures ToBlockWise(cols, nRow, nCol, ToRowWise(cols, nRow, nCol, rowWise, blockWise)) == blockWise
  {
    hide Mul, Blocks, Slot, RowPos, ToBlockWise, ToRowWise;
    var r := ToRowWise(cols, nRow, nCol, rowWise, blockWise);
    forall p | 0 <= p < |blockWise|
      ensures ToBlockWise(cols, nRow, nCol, r)[p] == blockWise[p]
    {
      var b, i, j := SlotSplit(nRow, cols, Blocks(cols, nCol), p);
      ToBlockWiseAt(cols, nRow, nCol, r, b, i, j);
      ToRowWiseAt(cols, nRow, nCol, rowWise, blockWise, b, i, j);
    }
  }

  /** To blocked order and back: the row-major buffer is unchanged if its rows are whole blocks, or if it is the target. */
  lemma RowRoundTrip(cols: nat, nRow: nat, nCol: nat, rowWise: seq<Word>, target: seq<Word>)
    requires cols > 0 && |rowWise| == |target| == Mul(nRow, nCol)
    requires nCol % cols == 0 || target == rowWise
    ensures ToRowWise(cols, nRow, nCol, target, ToBlockWise(cols, nRow, nCol, rowWise)) == rowWise
  {
    hide Mul, Blocks, Slot, RowPos, ToBlockWise, ToRowWise;
    var s := ToBlockWise(cols, nRow, nCol, rowWise);
    forall p | 0 <= p < |rowWise|
      ensures ToRowWise(cols, nRow, nCol, target, s)[p] == rowWise[p]
    {
      var b, i, j, inBlock := RowSplit(cols, nRow, nCol, target, s, p);
      if inBlock {
        ToRowWiseAt(cols, nRow, nCol, target, s, b, i, j);
        ToBlockWiseAt(cols, nRow, nCol, rowWise, b, i, j);
      }
    }
  }

  // ----- the conversions

  ghost predicate SamePrefix(s: seq<Word>, t: seq<Word>, n: nat) {
    n <= |s| == |t| && forall p :: 0 <= p < n ==> s[p] == t[p]
  }

  lemma SamePrefixNone(s: seq<Word>, t: seq<Word>)
    requires |s| == |t|
    ensures SamePrefix(s, t, 0)
  {
  }

  lemma SamePrefixNext(s: seq<Word>, t: seq<Word>, n: nat)
    requires SamePrefix(s, t, n) && n < |s|
    ensures |t| == |s| && SamePrefix(s[n := t[n]], t, n + 1)
  {
  }

  lemma SamePrefixAll(s: seq<Word>, t: seq<Word>)
    requires SamePrefix(s, t, |t|)
    ensures s == t
  {
  }

  method RowWise2BlockWise(cols: nat, rowWise: array<Word>, blockWise: array<Word>, nRow: nat, nCol: nat)
    requires Sizes(cols, nRow, nCol, rowWise[..], blockWise[..]) && rowWise != blockWise
    modifies blockWise
    ensures blockWise[..] == ToBlockWise(cols, nRow, nCol, rowWise[..])
  {
    hide Mul, Blocks, ToBlockWise, SamePrefix;
    ghost var src, t := rowWise[..], ToBlockWise(cols, nRow, nCol, rowWise[..]);
    BlocksFit(cols, nCol);
    MulNone(Mul(nRow, cols));
    MulNone(cols);
    MulNone(nCol);
    SamePrefixNone(blockWise[..], t);
    var dst, col := 0, 0;
    while col < Blocks(cols, nCol)
      invariant 0 <= col <= Blocks(cols, nCol) && rowWise[..] == src
      invariant dst == Mul(col, Mul(nRow, cols)) && SamePrefix(blockWise[..], t, dst)
    {
      MulFits(Blocks(cols, nCol), Mul(nRow, cols), col);
      MulNext(col, Mul(nRow, cols));
      var from, row := Mul(col, cols), 0;
      while row < nRow
        invariant 0 <= row <= nRow && rowWise[..] == src && from == Mul(row, nCol) + Mul(col, cols)
        invariant dst == Slot(nRow, cols, col, row, 0) && SamePrefix(blockWise[..], t, dst)
      {
        MulNext(row, cols);
        MulNext(row, nCol);
        var i := 0;
        while i < cols
          invariant 0 <= i <= cols && rowWise[..] == src && SamePrefix(blockWise[..], t, dst + i)
        {
          ToBlockWiseAt(cols, nRow, nCol, src, col, row, i);
          SamePrefixNext(blockWise[..], t, dst + i);
          ghost var s := blockWise[..];
          blockWise[dst + i] := rowWise[from + i];
          assert blockWise[..] == s[dst + i := t[dst + i]];
          i := i + 1;
        }
        from, dst := from + nCol, dst + cols;
        row := row + 1;
      }
      col := col + 1;
    }
    SamePrefixAll(blockWise[..], t);
  }

  /** The words of the first `n` cells of the blocked buffer are in place, and no other word has changed. */
  ghost predicate Placed(cols: nat, nRow: nat, nCol: nat, before: seq<Word>, t: seq<Word>, s: seq<Word>, n: nat)
    requires cols > 0
  {
    && |s| == |t| == |before| == Mul(nRow, nCol)
    && (forall p :: 0 <= p < |s| ==> s[p] == t[p] || s[p] == before[p])
    && forall b, i, j :: 0 <= b < Blocks(cols, nCol) && 0 <= i < nRow && 0 <= j < cols && Slot(nRow, cols, b, i, j) < n ==>
         PlacedAt(cols, nCol, t, s, b, i, j)
  }

  ghost predicate PlacedAt(cols: nat, nCol: nat, t: seq<Word>, s: seq<Word>, b: nat, i: nat, j: nat) {
    RowPos(cols, nCol, b, i, j) < |s| == |t| && s[RowPos(cols, nCol, b, i, j)] == t[RowPos(cols, nCol, b, i, j)]
  }

  lemma PlacedNext(cols: nat, nRow: nat, nCol: nat, before: seq<Word>, t: seq<Word>, s: seq<Word>, b: nat, i: nat, j: nat)
    requires cols > 0 && Placed(cols, nRow, nCol, before, t, s, Slot(nRow, cols, b, i, j))
    requires b < Blocks(cols, nCol) && i < nRow && j < cols
    ensures RowPos(cols, nCol, b, i, j) < |s| == |t|
    ensures var p := RowPos(cols, nCol, b, i, j);
            Placed(cols, nRow, nCol, before, t, s[p := t[p]], Slot(nRow, cols, b, i, j) + 1)
  {
    hide Mul, Blocks, RowPos, Slot;
    RowPosFits(cols, nRow, nCol, b, i, j);
    var p := RowPos(cols, nCol, b, i, j);
    var s' := s[p := t[p]];
    forall d, r, c | 0 <= d < Blocks(cols, nCol) && 0 <= r < nRow && 0 <= c < cols
                     && Slot(nRow, cols, d, r, c) < Slot(nRow, cols, b, i, j) + 1
      ensures PlacedAt(cols, nCol, t, s', d, r, c)
    {
      if Slot(nRow, cols, d, r, c) == Slot(nRow, cols, b, i, j) {
        SlotUnique(nRow, cols, d, r, c, b, i, j);
      } else {
        assert PlacedAt(cols, nCol, t, s, d, r, c);
      }
    }
  }

  lemma PlacedAll(cols: nat, nRow: nat, nCol: nat, before: seq<Word>, blockWise: seq<Word>, s: seq<Word>)
    requires Sizes(cols, nRow, nCol, before, blockWise)
    requires Placed(cols, nRow, nCol, before, ToRowWise(cols, nRow, nCol, before, blockWise), s, |blockWise|)
    ensures s == ToRowWise(cols, nRow, nCol, before, blockWise)
  {
    hide Mul, Blocks, RowPos, Slot, ToRowWise;
    var t := ToRowWise(cols, nRow, nCol, before, blockWise);
    forall p | 0 <= p < |s|
      ensures s[p] == t[p]
    {
      var b, i, j, inBlock := RowSplit(cols, nRow, nCol, before, blockWise, p);
      if inBlock {
        RowPosFits(cols, nRow, nCol, b, i, j);
        assert PlacedAt(cols, nCol, t, s, b, i, j);
      }
    }
  }

  method BlockWise2RowWise(cols: nat, blockWise: array<Word>, rowWise: array<Word>, nRow: nat, nCol: nat)
    requires Sizes(cols, nRow, nCol, rowWise[..], blockWise[..]) && rowWise != blockWise
    modifies rowWise
    ensures rowWise[..] == ToRowWise(cols, nRow, nCol, old(rowWise[..]), blockWise[..])
  {
    hide Mul, Blocks, ToRowWise, Placed;
    ghost var src, before := blockWise[..], rowWise[..];
    ghost var t := ToRowWise(cols, nRow, nCol, before, src);
    PlacedNone(cols, nRow, nCol, before, t);
    MulNone(Mul(nRow, cols));
    MulNone(cols);
    MulNone(nCol);
    var from, col := 0, 0;
    while col < Blocks(cols, nCol)
      invariant 0 <= col <= Blocks(cols, nCol) && blockWise[..] == src && from == Mul(col, Mul(nRow, cols))
      invariant Placed(cols, nRow, nCol, before, t, rowWise[..], from)
    {
      MulFits(Blocks(cols, nCol), Mul(nRow, cols), col);
      MulNext(col, Mul(nRow, cols));
      var dst, row := Mul(col, cols), 0;
      while row < nRow
        invariant 0 <= row <= nRow && blockWise[..] == src && dst == Mul(row, nCol) + Mul(col, cols)
        invariant from == Slot(nRow, cols, col, row, 0)
        invariant Placed(cols, nRow, nCol, before, t, rowWise[..], from)
      {
        MulNext(row, cols);
        MulNext(row, nCol);
        var i := 0;
        while i < cols
          invariant 0 <= i <= cols && blockWise[..] == src
          invariant Placed(cols, nRow, nCol, before, t, rowWise[..], from + i)
        {
          ToRowWiseAt(cols, nRow, nCol, before, src, col, row, i);
          PlacedNext(cols, nRow, nCol, before, t, rowWise[..], col, row, i);
          ghost var s := rowWise[..];
          rowWise[dst + i] := blockWise[from + i];
          assert rowWise[..] == s[dst + i := t[dst + i]];
          i := i + 1;
        }
        from, dst := from + cols, dst + nCol;
        row := row + 1;
      }
      col := col + 1;
    }
    PlacedAll(cols, nRow, nCol, before, src, rowWise[..]);
  }

  lemma PlacedNone(cols: nat, nRow: nat, nCol: nat, s: seq<Word>, t: seq<Word>)
    requires cols > 0 && |s| == |t| == Mul(nRow, nCol)
    ensures Placed(cols, nRow, nCol, s, t, s, 0)
  {
    hide Mul, Blocks, Slot, RowPos;
  }
}
