/**
 * A buffer of words read through a pointer to elements. The machine is little-endian, so the elements of a word
 * come least significant lane first.
 */
module Elements {
  import opened Arith
  import opened Words

  // ----- single elements

  ghost function Element(l: Lanes, ws: seq<Word>, e: nat): (v: int)
    requires l.Valid() && e < Mul(|ws|, l.per)
    ensures 0 <= v < Pow2(l.bits)
  {
    DivMul(|ws|, l.per, e);
    Lane(l, ws[e / l.per], l.per - 1 - e % l.per)
  }

  /** The elements in memory order, as unsigned values. */
  ghost function Flat(l: Lanes, ws: seq<Word>): (f: seq<int>)
    requires l.Valid()
    ensures |f| == Mul(|ws|, l.per)
  {
    seq(Mul(|ws|, l.per), e requires 0 <= e < Mul(|ws|, l.per) => Element(l, ws, e))
  }

  lemma FlatRange(l: Lanes, ws: seq<Word>, e: nat)
    requires l.Valid() && e < Mul(|ws|, l.per)
    ensures 0 <= Flat(l, ws)[e] < Pow2(l.bits)
  {
    hide Element;
  }

  method Load(l: Lanes, buf: array<Word>, e: nat) returns (v: int)
    requires l.Valid() && e < Mul(buf.Length, l.per)
    ensures v == Flat(l, buf[..])[e]
  {
    hide Lane;
    DivMul(buf.Length, l.per, e);
    v := Lane(l, buf[e / l.per], l.per - 1 - e % l.per);
  }

  method Store(l: Lanes, buf: array<Word>, e: nat, v: int)
    requires l.Valid() && e < Mul(buf.Length, l.per) && 0 <= v < Pow2(l.bits)
    modifies buf
    ensures Flat(l, buf[..]) == Flat(l, old(buf[..]))[e := v]
  {
    hide Lane, WithLane, Flat;
    DivMul(buf.Length, l.per, e);
    var w, n := e / l.per, l.per - 1 - e % l.per;
    ghost var ws := buf[..];
    buf[w] := WithLane(l, buf[w], n, v);
    assert buf[..] == ws[w := WithLane(l, ws[w], n, v)];
    FlatSet(l, ws, e, v);
  }

  lemma FlatSet(l: Lanes, ws: seq<Word>, e: nat, v: int)
    requires l.Valid() && e < Mul(|ws|, l.per) && 0 <= v < Pow2(l.bits)
    ensures 0 <= e / l.per < |ws| && 0 <= e % l.per < l.per
    ensures Flat(l, ws[e / l.per := WithLane(l, ws[e / l.per], l.per - 1 - e % l.per, v)]) == Flat(l, ws)[e := v]
  {
    hide Lane, WithLane, Mul;
    DivMul(|ws|, l.per, e);
    var w, n := e / l.per, l.per - 1 - e % l.per;
    var ws' := ws[w := WithLane(l, ws[w], n, v)];
    forall d | 0 <= d < Mul(|ws|, l.per)
      ensures Flat(l, ws')[d] == Flat(l, ws)[e := v][d]
    {
      DivMul(|ws|, l.per, d);
      if d / l.per == w {
        LaneOfWithLane(l, ws[w], n, v, l.per - 1 - d % l.per);
      }
    }
  }

  lemma FlatInjective(l: Lanes, s: seq<Word>, t: seq<Word>)
    requires l.Valid() && |s| == |t| && Flat(l, s) == Flat(l, t)
    ensures s == t
  {
    hide Lane, Mul, Flat;
    forall w | 0 <= w < |s|
      ensures s[w] == t[w]
    {
      forall n | 0 <= n < l.per
        ensures Lane(l, s[w], n) == Lane(l, t[w], n)
      {
        FlatAt(l, s, w, n);
        FlatAt(l, t, w, n);
      }
      SameLanes(l, s[w], t[w]);
    }
  }

  /** Lane `n` of word `w`. */
  lemma FlatAt(l: Lanes, ws: seq<Word>, w: nat, n: nat)
    requires l.Valid() && w < |ws| && n < l.per
    ensures Mul(w, l.per) + (l.per - 1 - n) < Mul(|ws|, l.per)
    ensures Flat(l, ws)[Mul(w, l.per) + (l.per - 1 - n)] == Lane(l, ws[w], n)
  {
    hide Lane, Mul;
    MulFits(|ws|, l.per, w);
    MulDiv(l.per, w, l.per - 1 - n);
  }

  // ----- rows of a blocked buffer

  /** The element in lane `n` of word `j` of a row of `cols` words. */
  lemma SlotOfWord(l: Lanes, cols: nat, k: nat, rows: nat, b: nat, i: nat, j: nat, e: nat)
    requires k == Mul(cols, l.per)
    ensures Mul(Slot(rows, cols, b, i, j), l.per) + e == Slot(rows, k, b, i, Mul(j, l.per) + e)
  {
    hide Mul;
    var t := Mul(rows, cols);
    MulAdd(Mul(b, t) + Mul(i, cols), j, l.per);
    MulAdd(Mul(b, t), Mul(i, cols), l.per);
    MulMul(b, t, l.per);
    MulMul(rows, cols, l.per);
    MulMul(i, cols, l.per);
  }

  /** Row `i`: its cells in all blocks, one block after the other. */
  ghost function RowView(rows: nat, k: nat, blocks: nat, f: seq<int>, i: nat): (r: seq<int>)
    requires |f| == Mul(blocks, Mul(rows, k)) && i < rows
    ensures |r| == Mul(blocks, k)
  {
    seq(Mul(blocks, k), q requires 0 <= q < Mul(blocks, k) => CellView(rows, k, blocks, f, i, q))
  }

  ghost function CellView(rows: nat, k: nat, blocks: nat, f: seq<int>, i: nat, q: nat): int
    requires |f| == Mul(blocks, Mul(rows, k)) && i < rows && q < Mul(blocks, k)
  {
    DivMul(blocks, k, q);
    SlotFits(rows, k, blocks, q / k, i, q % k);
    f[Slot(rows, k, q / k, i, q % k)]
  }

  lemma RowViewAt(rows: nat, k: nat, blocks: nat, f: seq<int>, i: nat, b: nat, c: nat)
    requires |f| == Mul(blocks, Mul(rows, k)) && i < rows && b < blocks && c < k
    ensures Mul(b, k) + c < Mul(blocks, k) && Slot(rows, k, b, i, c) < |f|
    ensures RowView(rows, k, blocks, f, i)[Mul(b, k) + c] == f[Slot(rows, k, b, i, c)]
  {
    hide Mul, Slot;
    MulFits(blocks, k, b);
    SlotFits(rows, k, blocks, b, i, c);
    MulDiv(k, b, c);
  }

  /** Storing one cell changes one place of one row. */
  lemma RowViewSet(rows: nat, k: nat, blocks: nat, f: seq<int>, i: nat, b: nat, c: nat, v: int, r: nat)
    requires |f| == Mul(blocks, Mul(rows, k)) && i < rows && b < blocks && c < k && r < rows
    ensures Mul(b, k) + c < Mul(blocks, k) && Slot(rows, k, b, i, c) < |f|
    ensures RowView(rows, k, blocks, f[Slot(rows, k, b, i, c) := v], r)
         == if r == i then RowView(rows, k, blocks, f, i)[Mul(b, k) + c := v] else RowView(rows, k, blocks, f, r)
  {
    hide Mul, Slot, RowView;
    RowViewAt(rows, k, blocks, f, i, b, c);
    var f' := f[Slot(rows, k, b, i, c) := v];
    var view := if r == i then RowView(rows, k, blocks, f, i)[Mul(b, k) + c := v] else RowView(rows, k, blocks, f, r);
    forall q | 0 <= q < Mul(blocks, k)
      ensures RowView(rows, k, blocks, f', r)[q] == view[q]
    {
      var d, e := MulSplit(blocks, k, q);
      RowViewAt(rows, k, blocks, f, r, d, e);
      RowViewAt(rows, k, blocks, f', r, d, e);
      SlotDiffers(rows, k, d, r, e, b, i, c);
    }
  }

  lemma SlotDiffers(rows: nat, k: nat, b: nat, i: nat, c: nat, b': nat, i': nat, c': nat)
    requires i < rows && c < k && i' < rows && c' < k
    ensures Slot(rows, k, b, i, c) == Slot(rows, k, b', i', c') <==> i == i' && Mul(b, k) + c == Mul(b', k) + c'
  {
    hide Mul, Slot;
    if Slot(rows, k, b, i, c) == Slot(rows, k, b', i', c') {
      SlotUnique(rows, k, b, i, c, b', i', c');
    } else if Mul(b, k) + c == Mul(b', k) + c' {
      MulUnique(k, b, c, b', c');
    }
  }

  /** All rows. */
  ghost function Rows(rows: nat, k: nat, blocks: nat, f: seq<int>): (m: seq<seq<int>>)
    requires |f| == Mul(blocks, Mul(rows, k))
    ensures |m| == rows && forall i :: 0 <= i < rows ==> m[i] == RowView(rows, k, blocks, f, i)
  {
    seq(rows, i requires 0 <= i < rows => RowView(rows, k, blocks, f, i))
  }

  lemma RowsInjective(rows: nat, k: nat, blocks: nat, f: seq<int>, f': seq<int>)
    requires |f| == |f'| == Mul(blocks, Mul(rows, k)) && Rows(rows, k, blocks, f) == Rows(rows, k, blocks, f')
    ensures f == f'
  {
    hide Mul, Slot, RowView;
    forall p | 0 <= p < |f|
      ensures f[p] == f'[p]
    {
      var b, i, c := SlotSplit(rows, k, blocks, p);
      assert Rows(rows, k, blocks, f)[i] == Rows(rows, k, blocks, f')[i];
      RowViewAt(rows, k, blocks, f, i, b, c);
      RowViewAt(rows, k, blocks, f', i, b, c);
    }
  }

  // ----- sums

  ghost function Sum(s: seq<int>, n: nat): int
    requires n <= |s|
  {
    if n == 0 then 0 else Sum(s, n - 1) + s[n - 1]
  }

  lemma SumStart(s: seq<int>)
    ensures Sum(s, 0) == 0
  {
  }

  lemma SumNext(s: seq<int>, n: nat)
    requires n < |s|
    ensures Sum(s, n + 1) == Sum(s, n) + s[n]
  {
  }

  lemma {:induction false} SumSame(s: seq<int>, t: seq<int>, n: nat)
    requires n <= |s| && n <= |t| && forall q :: 0 <= q < n ==> s[q] == t[q]
    ensures Sum(s, n) == Sum(t, n)
  {
    if n > 0 {
      SumSame(s, t, n - 1);
    }
  }

  ghost function Mapped(f: int -> int, s: seq<int>): (t: seq<int>)
    ensures |t| == |s| && forall q :: 0 <= q < |s| ==> t[q] == f(s[q])
  {
    seq(|s|, q requires 0 <= q < |s| => f(s[q]))
  }
}
