/** Single bits of a word. */
module Bits {
  import opened Arith
  import opened Words

  /** Bit `j` of a number, counted from the least significant. */
  predicate Bit(x: nat, j: nat) {
    (x / Pow2(j)) % 2 == 1
  }

  lemma BitLow(x: nat)
    ensures Bit(x, 0) <==> x % 2 == 1
  {
  }

  lemma BitHalf(x: nat, j: nat)
    requires j > 0
    ensures Bit(x, j) <==> Bit(x / 2, j - 1)
  {
    DivDiv(x, 2, Pow2(j - 1));
    assert Pow2(j) == Pow2(j - 1) * 2;
  }

  lemma NoBit(j: nat)
    ensures !Bit(0, j)
  {
    DivModUnique(0, Pow2(j), 0, 0);
  }

  /** The bits of an or are those of either operand. */
  lemma {:induction false} OrBit(a: nat, b: nat, j: nat)
    ensures Bit(Or(a, b), j) <==> Bit(a, j) || Bit(b, j)
    decreases a + b
  {
    hide Bit;
    if a == 0 || b == 0 {
      NoBit(j);
    } else {
      var h := Or(a / 2, b / 2);
      assert Or(a, b) / 2 == h;
      if j == 0 {
        BitLow(a);
        BitLow(b);
        BitLow(Or(a, b));
      } else {
        BitHalf(a, j);
        BitHalf(b, j);
        BitHalf(Or(a, b), j);
        OrBit(a / 2, b / 2, j - 1);
      }
    }
  }

  lemma {:induction false} OneBit(k: nat, j: nat)
    ensures Bit(Pow2(k), j) <==> j == k
    decreases k
  {
    hide Bit;
    if k == 0 {
      BitLow(1);
      if j > 0 {
        BitHalf(1, j);
        NoBit(j - 1);
      }
    } else if j == 0 {
      BitLow(Pow2(k));
    } else {
      assert Pow2(k) / 2 == Pow2(k - 1);
      BitHalf(Pow2(k), j);
      OneBit(k - 1, j - 1);
    }
  }

  lemma {:induction false} OrBound(a: nat, b: nat, e: nat)
    requires a < Pow2(e) && b < Pow2(e)
    ensures Or(a, b) < Pow2(e)
    decreases e
  {
    if a > 0 && b > 0 {
      assert e > 0;
      OrBound(a / 2, b / 2, e - 1);
    }
  }

  /** The word with one more bit set. */
  function SetBit(x: Word, k: nat): (y: Word)
    requires k < 32
  {
    Pow2Table();
    Pow2Mono(k + 1, 32);
    OrBound(x, Pow2(k), 32);
    Or(x, Pow2(k))
  }

  lemma BitOfSet(x: Word, k: nat, j: nat)
    requires k < 32
    ensures Bit(SetBit(x, k), j) <==> Bit(x, j) || j == k
  {
    hide Bit, Or;
    OrBit(x, Pow2(k), j);
    OneBit(k, j);
  }
}
