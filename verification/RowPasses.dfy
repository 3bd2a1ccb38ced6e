/** In-place passes over one row of a blocked buffer. A row-major buffer has a single block. */
module RowPasses {
  import opened Arith
  import opened Words
  import opened Elements

  /** The buffer holds `blocks` blocks of `rows` rows of `k` elements. */
  ghost predicate Holds(l: Lanes, rows: nat, k: nat, blocks: nat, buf: array<Word>) {
    l.Valid() && Mul(buf.Length, l.per) == Mul(blocks, Mul(rows, k))
  }

  ghost function BufferRows(l: Lanes, rows: nat, k: nat, blocks: nat, buf: array<Word>): (m: seq<seq<int>>)
    requires Holds(l, rows, k, blocks, buf)
    reads buf
    ensures |m| == rows && forall i :: 0 <= i < rows ==> |m[i]| == Mul(blocks, k)
  {
    Rows(rows, k, blocks, Flat(l, buf[..]))
  }

  /** The function keeps the lane width. */
  ghost predicate Keeps(l: Lanes, f: int -> int) {
    forall u :: 0 <= u < Pow2(l.bits) ==> 0 <= f(u) < Pow2(l.bits)
  }

  /** The first `q` elements of a row have been replaced. */
  ghost predicate PartDone(f: int -> int, s: seq<int>, t: seq<int>, q: nat) {
    && |t| == |s|
    && forall p :: 0 <= p < |s| ==> t[p] == if p < q then f(s[p]) else s[p]
  }

  /** The state of a pass over row `i`: `m0` were the rows at its start. */
  ghost predicate InPass(l: Lanes, rows: nat, k: nat, blocks: nat, buf: array<Word>, m0: seq<seq<int>>, i: nat,
                         f: int -> int, q: nat)
    requires Holds(l, rows, k, blocks, buf)
    reads buf
  {
    var m := BufferRows(l, rows, k, blocks, buf);
    && |m0| == rows && i < rows && |m0[i]| == Mul(blocks, k)
    && PartDone(f, m0[i], m[i], q) && forall r :: 0 <= r < rows && r != i ==> m[r] == m0[r]
  }

  /** Replace one element. */
  method PassElement(l: Lanes, rows: nat, k: nat, blocks: nat, buf: array<Word>, ghost m0: seq<seq<int>>, i: nat,
                     f: int -> int, ghost b: nat, c: nat, ptr: nat) returns (v: int)
    requires Holds(l, rows, k, blocks, buf) && Keeps(l, f) && i < rows && b < blocks && c < k
    requires ptr == Mul(b, Mul(rows, k)) + Mul(i, k) && InPass(l, rows, k, blocks, buf, m0, i, f, Mul(b, k) + c)
    modifies buf
    ensures Mul(b, k) + c < |m0[i]| && InPass(l, rows, k, blocks, buf, m0, i, f, Mul(b, k) + c + 1)
    ensures v == f(m0[i][Mul(b, k) + c])
  {
    hide Mul, Flat, RowView;
    ghost var f0 := Flat(l, buf[..]);
    SlotFits(rows, k, blocks, b, i, c);
    RowViewAt(rows, k, blocks, f0, i, b, c);
    FlatRange(l, buf[..], ptr + c);
    var u := Load(l, buf, ptr + c);
    v := f(u);
    Store(l, buf, ptr + c, v);
    forall r | 0 <= r < rows
      ensures RowView(rows, k, blocks, Flat(l, buf[..]), r)
           == if r == i then RowView(rows, k, blocks, f0, i)[Mul(b, k) + c := v] else RowView(rows, k, blocks, f0, r)
    {
      RowViewSet(rows, k, blocks, f0, i, b, c, v, r);
    }
  }

  /** Replace every element of row `i`, block by block, adding up the new values. */
  method MapRow(l: Lanes, rows: nat, k: nat, blocks: nat, buf: array<Word>, i: nat, f: int -> int) returns (sum: int)
    requires Holds(l, rows, k, blocks, buf) && Keeps(l, f) && i < rows
    modifies buf
    ensures var m0, m := old(BufferRows(l, rows, k, blocks, buf)), BufferRows(l, rows, k, blocks, buf);
            m == m0[i := Mapped(f, m0[i])]
    ensures sum == Sum(BufferRows(l, rows, k, blocks, buf)[i], Mul(blocks, k))
  {
    hide Mul, BufferRows, RowView, InPass, Keeps;
    ghost var m0 := BufferRows(l, rows, k, blocks, buf);
    PassStart(l, rows, k, blocks, buf, i, f);
    ghost var done := Mapped(f, m0[i]);
    MulNone(Mul(rows, k));
    MulNone(k);
    var b, ptr := 0, Mul(i, k);
    sum := 0;
    while b < blocks
      invariant 0 <= b <= blocks && ptr == Mul(b, Mul(rows, k)) + Mul(i, k)
      invariant Mul(b, k) <= |done| && sum == Sum(done, Mul(b, k))
      invariant InPass(l, rows, k, blocks, buf, m0, i, f, Mul(b, k))
    {
      MulFits(blocks, k, b);
      MulNext(b, k);
      MulNext(b, Mul(rows, k));
      var c := 0;
      while c < k
        invariant 0 <= c <= k && sum == Sum(done, Mul(b, k) + c)
        invariant InPass(l, rows, k, blocks, buf, m0, i, f, Mul(b, k) + c)
      {
        var v := PassElement(l, rows, k, blocks, buf, m0, i, f, b, c, ptr);
        sum := sum + v;
        c := c + 1;
      }
      ptr := ptr + Mul(rows, k);
      b := b + 1;
    }
    PassEnd(l, rows, k, blocks, buf, m0, i, f);
  }

  lemma PassStart(l: Lanes, rows: nat, k: nat, blocks: nat, buf: array<Word>, i: nat, f: int -> int)
    requires Holds(l, rows, k, blocks, buf) && i < rows
    ensures |BufferRows(l, rows, k, blocks, buf)[i]| == Mul(blocks, k)
    ensures InPass(l, rows, k, blocks, buf, BufferRows(l, rows, k, blocks, buf), i, f, 0)
  {
    hide Flat, RowView;
  }

  lemma PassEnd(l: Lanes, rows: nat, k: nat, blocks: nat, buf: array<Word>, m0: seq<seq<int>>, i: nat, f: int -> int)
    requires Holds(l, rows, k, blocks, buf) && InPass(l, rows, k, blocks, buf, m0, i, f, Mul(blocks, k))
    ensures i < |m0| && BufferRows(l, rows, k, blocks, buf) == m0[i := Mapped(f, m0[i])]
  {
    hide Mul, BufferRows;
    assert BufferRows(l, rows, k, blocks, buf)[i] == Mapped(f, m0[i]);
  }

  /** Add up a function of the elements of row `i` in a 32-bit accumulator. */
  method SumRow(l: Lanes, rows: nat, k: nat, blocks: nat, buf: array<Word>, i: nat, h: int -> int) returns (sum: int)
    requires Holds(l, rows, k, blocks, buf) && i < rows
    ensures |BufferRows(l, rows, k, blocks, buf)[i]| == Mul(blocks, k)
    ensures sum == Int32(Sum(Mapped(h, BufferRows(l, rows, k, blocks, buf)[i]), Mul(blocks, k)))
  {
    hide Mul, BufferRows, Int32, Sum;
    PassStart(l, rows, k, blocks, buf, i, h);
    ghost var terms := Mapped(h, BufferRows(l, rows, k, blocks, buf)[i]);
    MulNone(Mul(rows, k));
    MulNone(k);
    var b, ptr := 0, Mul(i, k);
    sum := 0;
    Int32Small(0);
    SumStart(terms);
    while b < blocks
      invariant 0 <= b <= blocks && ptr == Mul(b, Mul(rows, k)) + Mul(i, k)
      invariant Mul(b, k) <= |terms| && sum == Int32(Sum(terms, Mul(b, k)))
    {
      MulFits(blocks, k, b);
      MulNext(b, k);
      MulNext(b, Mul(rows, k));
      var c := 0;
      while c < k
        invariant 0 <= c <= k && sum == Int32(Sum(terms, Mul(b, k) + c))
      {
        var u := LoadCell(l, rows, k, blocks, buf, i, b, c, ptr);
        SumNext(terms, Mul(b, k) + c);
        Int32Step(Sum(terms, Mul(b, k) + c), h(u));
        sum := Int32(sum + h(u));
        c := c + 1;
      }
      ptr := ptr + Mul(rows, k);
      b := b + 1;
    }
  }

  method LoadCell(l: Lanes, rows: nat, k: nat, blocks: nat, buf: array<Word>, i: nat, ghost b: nat, c: nat, ptr: nat)
    returns (u: int)
    requires Holds(l, rows, k, blocks, buf) && i < rows && b < blocks && c < k
    requires ptr == Mul(b, Mul(rows, k)) + Mul(i, k)
    ensures Mul(b, k) + c < |BufferRows(l, rows, k, blocks, buf)[i]|
    ensures u == BufferRows(l, rows, k, blocks, buf)[i][Mul(b, k) + c]
  {
    hide Mul, Flat, RowView;
    SlotFits(rows, k, blocks, b, i, c);
    RowViewAt(rows, k, blocks, Flat(l, buf[..]), i, b, c);
    u := Load(l, buf, ptr + c);
  }

  lemma Int32Step(a: int, b: int)
    ensures Int32(Int32(a) + b) == Int32(a + b)
  {
    Int32Add(a, b);
    Int32Add(Int32(a), b);
  }
}
