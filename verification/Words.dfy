/** The 32-bit bus word and the fixed-width lanes packed in it, most significant lane first. */
module Words {
  import opened Arith

  type Word = x: int | 0 <= x < 0x1_0000_0000

  /** Bitwise or of two non-negative integers. */
  function Or(a: nat, b: nat): nat
    decreases a + b
  {
    if a == 0 then b
    else if b == 0 then a
    else 2 * Or(a / 2, b / 2) + (if a % 2 == 1 || b % 2 == 1 then 1 else 0)
  }

  /** On bit fields that do not overlap, or is addition. */
  lemma {:induction false} OrDisjoint(hi: nat, e: nat, lo: nat)
    requires lo < Pow2(e)
    ensures Or(hi * Pow2(e), lo) == hi * Pow2(e) + lo
    decreases e
  {
    if hi == 0 || lo == 0 || e == 0 {
    } else {
      var h := hi * Pow2(e - 1);
      assert hi * Pow2(e) == 2 * h;
      OrDisjoint(hi, e - 1, lo / 2);
    }
  }

  /** Lane width in bits and number of lanes in a word. */
  datatype Lanes = Lanes(bits: nat, per: nat) {
    ghost predicate Valid() {
      1 <= bits && 1 <= per && Mul(per, bits) == 32
    }
  }

  /** The three widths the program can be built with. */
  lemma BuildWidths()
    ensures Lanes(8, 4).Valid() && Lanes(16, 2).Valid() && Lanes(32, 1).Valid()
  {
    MulIs(4, 8);
    MulIs(2, 16);
    MulIs(1, 32);
  }

  /** The weight of the lane with `j` lanes below it: a shift by `j` lane widths. */
  function Place(bits: nat, j: nat): (r: int)
    ensures r >= 1
  {
    if j == 0 then 1
    else
      var r := Place(bits, j - 1) * Pow2(bits);
      MulAtLeast(Place(bits, j - 1), Pow2(bits));
      r
  }

  lemma {:induction false} PlaceIsShift(bits: nat, j: nat)
    ensures Place(bits, j) == Pow2(Mul(j, bits))
  {
    if j == 0 {
    } else {
      PlaceIsShift(bits, j - 1);
      Pow2Add(Mul(j - 1, bits), bits);
    }
  }

  lemma PlaceAll(l: Lanes)
    requires l.Valid()
    ensures Place(l.bits, l.per) == 0x1_0000_0000
  {
    PlaceIsShift(l.bits, l.per);
    Pow2Table();
  }

  /** Lane `n` of a word as an unsigned value: shift it down, mask it. */
  function Lane(l: Lanes, x: Word, n: nat): (r: int)
    requires n < l.per
    ensures 0 <= r < Pow2(l.bits)
  {
    (x / Place(l.bits, l.per - 1 - n)) % Pow2(l.bits)
  }

  /** Lane 0 is the most significant one, in each of the widths the program can be built with. */
  lemma LaneOrder()
    ensures forall n :: 0 <= n < 4 ==> Lane(Lanes(8, 4), 0x01020304, n) == n + 1
    ensures forall n :: 0 <= n < 2 ==> Lane(Lanes(16, 2), 0x00010002, n) == n + 1
    ensures forall x: Word :: Lane(Lanes(32, 1), x, 0) == x
  {
    hide Pow2;
    Pow2Table();
    assert Place(8, 1) == 0x100 && Place(8, 2) == 0x1_0000 && Place(8, 3) == 0x100_0000;
    assert Place(16, 1) == 0x1_0000;
  }

  /** An unsigned lane read as a two's-complement number. */
  function Signed(l: Lanes, v: int): (r: int)
    requires 1 <= l.bits
  {
    if v < Pow2(l.bits - 1) then v else v - Pow2(l.bits)
  }

  /** Sign extension keeps the residue and lands in the signed range. */
  lemma SignedRange(l: Lanes, v: int)
    requires 1 <= l.bits && 0 <= v < Pow2(l.bits)
    ensures -Pow2(l.bits - 1) <= Signed(l, v) < Pow2(l.bits - 1)
    ensures Signed(l, v) % Pow2(l.bits) == v
  {
    assert Pow2(l.bits) == 2 * Pow2(l.bits - 1);
    DivModUnique(v, Pow2(l.bits), 0, v);
    DivModUnique(v - Pow2(l.bits), Pow2(l.bits), -1, v);
  }

  ghost predicate AreLanes(l: Lanes, vs: seq<int>) {
    |vs| == l.per && forall n :: 0 <= n < |vs| ==> 0 <= vs[n] < Pow2(l.bits)
  }

  function Unpack(l: Lanes, x: Word): (vs: seq<int>)
    ensures AreLanes(l, vs)
  {
    seq(l.per, n requires 0 <= n < l.per => Lane(l, x, n))
  }

  /** The number whose digits, most significant first, are `vs`. */
  function Digits(bits: nat, vs: seq<int>): (r: int)
  {
    if vs == [] then 0 else Digits(bits, vs[..|vs| - 1]) * Pow2(bits) + vs[|vs| - 1]
  }

  lemma {:induction false} DigitsBound(bits: nat, vs: seq<int>)
    requires forall n :: 0 <= n < |vs| ==> 0 <= vs[n] < Pow2(bits)
    ensures 0 <= Digits(bits, vs) < Place(bits, |vs|)
  {
    if vs == [] {
    } else {
      var m := |vs| - 1;
      DigitsBound(bits, vs[..m]);
      DigitFits(Digits(bits, vs[..m]), Place(bits, m), vs[m], Pow2(bits));
    }
  }

  lemma DigitFits(d: int, p: int, v: int, b: int)
    requires 0 <= d < p && 0 <= v < b
    ensures 0 <= d * b + v < p * b
  {
    MulMono(d + 1, p, b);
    assert (d + 1) * b == d * b + b;
  }

  /** Dropping the `j` least significant digits is division. */
  lemma {:induction false} DigitsDiv(bits: nat, vs: seq<int>, j: nat)
    requires forall n :: 0 <= n < |vs| ==> 0 <= vs[n] < Pow2(bits)
    requires j <= |vs|
    ensures Digits(bits, vs) / Place(bits, j) == Digits(bits, vs[..|vs| - j])
    decreases j
  {
    if j == 0 {
      assert vs[..|vs|] == vs;
    } else {
      var m := |vs| - 1;
      DivModUnique(Digits(bits, vs), Pow2(bits), Digits(bits, vs[..m]), vs[m]);
      DigitsDiv(bits, vs[..m], j - 1);
      assert vs[..m][..m - (j - 1)] == vs[..|vs| - j];
      DivDiv(Digits(bits, vs), Pow2(bits), Place(bits, j - 1));
    }
  }

  lemma DivDiv(x: int, b: int, p: int)
    requires b > 0 && p > 0
    ensures p * b > 0 && x / (p * b) == (x / b) / p
  {
    var y := x / b;
    var q, r := y / p, y % p;
    assert x == (q * p + r) * b + x % b;
    assert (q * p + r) * b == q * (p * b) + r * b;
    MulMono(r + 1, p, b);
    assert (r + 1) * b == r * b + b;
    DivModUnique(x, p * b, q, r * b + x % b);
  }

  /** The word with the given lanes. */
  function Pack(l: Lanes, vs: seq<int>): (x: Word)
    requires l.Valid() && AreLanes(l, vs)
  {
    DigitsBound(l.bits, vs);
    PlaceAll(l);
    Digits(l.bits, vs)
  }

  /** Reading a lane of a packed word gives the packed value back. */
  lemma LaneOfPack(l: Lanes, vs: seq<int>, n: nat)
    requires l.Valid() && AreLanes(l, vs) && n < l.per
    ensures Lane(l, Pack(l, vs), n) == vs[n]
  {
    DigitsDiv(l.bits, vs, l.per - 1 - n);
    var hd := vs[..n + 1];
    assert vs[..l.per - (l.per - 1 - n)] == hd;
    assert hd[..n] == vs[..n] && hd[n] == vs[n];
    DivModUnique(Digits(l.bits, hd), Pow2(l.bits), Digits(l.bits, vs[..n]), vs[n]);
  }

  /** The leading lanes of a word are its high part. */
  lemma {:induction false} DigitsOfUnpack(l: Lanes, x: Word, n: nat)
    requires l.Valid() && n <= l.per
    ensures Digits(l.bits, Unpack(l, x)[..n]) == x / Place(l.bits, l.per - n)
    decreases n
  {
    if n == 0 {
      PlaceAll(l);
    } else {
      DigitsOfUnpack(l, x, n - 1);
      var vs := Unpack(l, x);
      assert vs[..n][..n - 1] == vs[..n - 1];
      KeepDigit(x, Place(l.bits, l.per - n), Pow2(l.bits));
    }
  }

  /** Dividing by `p` keeps exactly one digit more than dividing by `p * b`. */
  lemma KeepDigit(x: int, p: int, b: int)
    requires p > 0 && b > 0
    ensures p * b > 0 && x / p == (x / (p * b)) * b + (x / p) % b
  {
    DivDiv(x, p, b);
    assert p * b == b * p;
  }

  /** Packing the lanes of a word gives the word back. */
  lemma PackOfUnpack(l: Lanes, x: Word)
    requires l.Valid()
    ensures Pack(l, Unpack(l, x)) == x
  {
    DigitsOfUnpack(l, x, l.per);
    assert Unpack(l, x)[..l.per] == Unpack(l, x);
  }

  /** A word is determined by its lanes. */
  lemma SameLanes(l: Lanes, x: Word, y: Word)
    requires l.Valid()
    requires forall n :: 0 <= n < l.per ==> Lane(l, x, n) == Lane(l, y, n)
    ensures x == y
  {
    assert Unpack(l, x) == Unpack(l, y);
    PackOfUnpack(l, x);
    PackOfUnpack(l, y);
  }

  /** The packing loop of the output side: or each lane in at its shift. */
  method PackByOr(l: Lanes, vs: seq<int>) returns (x: Word)
    requires l.Valid() && AreLanes(l, vs)
    ensures x == Pack(l, vs)
  {
    var r: nat := 0;
    var i := 0;
    while i < l.per
      invariant 0 <= i <= l.per
      invariant r == HighPart(l, vs, i)
    {
      OrStep(l, vs, i);
      r := Or(r, vs[i] * Place(l.bits, l.per - 1 - i));
      i := i + 1;
    }
    assert vs[..l.per] == vs;
    assert r == Pack(l, vs);
    x := r;
  }

  /** The first `i` lanes at their final position, the others zero. */
  ghost function HighPart(l: Lanes, vs: seq<int>, i: nat): int
    requires i <= l.per && i <= |vs|
  {
    Digits(l.bits, vs[..i]) * Place(l.bits, l.per - i)
  }

  lemma OrStep(l: Lanes, vs: seq<int>, i: nat)
    requires l.Valid() && AreLanes(l, vs) && i < l.per
    ensures HighPart(l, vs, i) >= 0 && vs[i] * Place(l.bits, l.per - 1 - i) >= 0
    ensures Or(HighPart(l, vs, i), vs[i] * Place(l.bits, l.per - 1 - i)) == HighPart(l, vs, i + 1)
  {
    DigitsBound(l.bits, vs[..i]);
    assert vs[..i + 1][..i] == vs[..i];
    OrPlace(Digits(l.bits, vs[..i]), l.bits, l.per - 1 - i, vs[i]);
  }

  /** Or-ing a lane into the zero bits just below a shifted number. */
  lemma OrPlace(d: int, bits: nat, j: nat, v: int)
    requires 0 <= d && 0 <= v < Pow2(bits)
    ensures d * Place(bits, j + 1) >= 0 && v * Place(bits, j) >= 0
    ensures Or(d * Place(bits, j + 1), v * Place(bits, j)) == (d * Pow2(bits) + v) * Place(bits, j)
  {
    PlaceIsShift(bits, j + 1);
    FieldFits(v, Pow2(bits), Place(bits, j));
    OrDisjoint(d, Mul(j + 1, bits), v * Place(bits, j));
    Regroup(d, Pow2(bits), v, Place(bits, j));
  }

  lemma FieldFits(v: int, b: int, p: int)
    requires 0 <= v < b && 0 < p
    ensures 0 <= v * p < p * b
  {
  }

  lemma Regroup(d: int, b: int, v: int, p: int)
    ensures d * (p * b) + v * p == (d * b + v) * p
  {
  }

  /** Replacing one lane of a word in memory. */
  function WithLane(l: Lanes, x: Word, n: nat, v: int): (y: Word)
    requires l.Valid() && n < l.per && 0 <= v < Pow2(l.bits)
  {
    Pack(l, Unpack(l, x)[n := v])
  }

  lemma LaneOfWithLane(l: Lanes, x: Word, n: nat, v: int, i: nat)
    requires l.Valid() && n < l.per && 0 <= v < Pow2(l.bits) && i < l.per
    ensures Lane(l, WithLane(l, x, n, v), i) == if i == n then v else Lane(l, x, i)
  {
    LaneOfPack(l, Unpack(l, x)[n := v], i);
  }

  /** Lane-wise addition modulo the lane width. */
  function AddLanes(l: Lanes, x: Word, y: Word): (z: Word)
    requires l.Valid()
  {
    Pack(l, seq(l.per, n requires 0 <= n < l.per => (Lane(l, x, n) + Lane(l, y, n)) % Pow2(l.bits)))
  }

  /** No carry crosses a lane boundary. */
  lemma LaneOfAdd(l: Lanes, x: Word, y: Word, n: nat)
    requires l.Valid() && n < l.per
    ensures Lane(l, AddLanes(l, x, y), n) == (Lane(l, x, n) + Lane(l, y, n)) % Pow2(l.bits)
  {
    LaneOfPack(l, seq(l.per, n requires 0 <= n < l.per => (Lane(l, x, n) + Lane(l, y, n)) % Pow2(l.bits)), n);
  }

  lemma LaneOfZero(l: Lanes, n: nat)
    requires n < l.per
    ensures Lane(l, 0, n) == 0
  {
    DivModUnique(0, Place(l.bits, l.per - 1 - n), 0, 0);
    DivModUnique(0, Pow2(l.bits), 0, 0);
  }

  lemma AddZero(l: Lanes, x: Word)
    requires l.Valid()
    ensures AddLanes(l, x, 0) == x
  {
    forall n | 0 <= n < l.per
      ensures Lane(l, AddLanes(l, x, 0), n) == Lane(l, x, n)
    {
      LaneOfAdd(l, x, 0, n);
      LaneOfZero(l, n);
      DivModUnique(Lane(l, x, n), Pow2(l.bits), 0, Lane(l, x, n));
    }
    SameLanes(l, AddLanes(l, x, 0), x);
  }

  /** Contributions to a word can be added in either order. */
  lemma AddSwap(l: Lanes, x: Word, y: Word, z: Word)
    requires l.Valid()
    ensures AddLanes(l, AddLanes(l, x, y), z) == AddLanes(l, AddLanes(l, x, z), y)
  {
    var yz, zy := AddLanes(l, AddLanes(l, x, y), z), AddLanes(l, AddLanes(l, x, z), y);
    forall n | 0 <= n < l.per
      ensures Lane(l, yz, n) == Lane(l, zy, n)
    {
      LaneOfAdd2(l, x, y, z, n);
      LaneOfAdd2(l, x, z, y, n);
    }
    SameLanes(l, yz, zy);
  }

  lemma LaneOfAdd2(l: Lanes, x: Word, y: Word, z: Word, n: nat)
    requires l.Valid() && n < l.per
    ensures Lane(l, AddLanes(l, AddLanes(l, x, y), z), n)
         == (Lane(l, x, n) + Lane(l, y, n) + Lane(l, z, n)) % Pow2(l.bits)
  {
    hide Lane, AddLanes, Pow2;
    LaneOfAdd(l, x, y, n);
    LaneOfAdd(l, AddLanes(l, x, y), z, n);
    ModAddLeft(Lane(l, x, n) + Lane(l, y, n), Lane(l, z, n), Pow2(l.bits));
  }

  /**
   * Accumulation of a device result into memory, one lane at a time. The i-th element in memory is the
   * i-th lane from the least significant end; both words are read as signed elements and the sum is
   * truncated to the element width.
   */
  method AddActIn32(l: Lanes, memory: Word, systolicResult: Word) returns (r: Word)
    requires l.Valid()
    ensures r == AddLanes(l, memory, systolicResult)
  {
    r := memory;
    var i := 0;
    while i < l.per
      invariant 0 <= i <= l.per
      invariant forall n :: 0 <= n < l.per - i ==> Lane(l, r, n) == Lane(l, memory, n)
      invariant forall n :: l.per - i <= n < l.per ==>
                  Lane(l, r, n) == Lane(l, AddLanes(l, memory, systolicResult), n)
    {
      var n := l.per - 1 - i;
      var a, b := Lane(l, r, n), Lane(l, systolicResult, n);
      LaneOfAdd(l, memory, systolicResult, n);
      SignedSum(l, a, b);
      forall q | 0 <= q < l.per
        ensures Lane(l, WithLane(l, r, n, (Signed(l, a) + Signed(l, b)) % Pow2(l.bits)), q)
             == if q == n then Lane(l, AddLanes(l, memory, systolicResult), n) else Lane(l, r, q)
      {
        LaneOfWithLane(l, r, n, (Signed(l, a) + Signed(l, b)) % Pow2(l.bits), q);
      }
      r := WithLane(l, r, n, (Signed(l, a) + Signed(l, b)) % Pow2(l.bits));
      i := i + 1;
    }
    SameLanes(l, r, AddLanes(l, memory, systolicResult));
  }

  lemma SignedSum(l: Lanes, a: int, b: int)
    requires 1 <= l.bits && 0 <= a < Pow2(l.bits) && 0 <= b < Pow2(l.bits)
    ensures (Signed(l, a) + Signed(l, b)) % Pow2(l.bits) == (a + b) % Pow2(l.bits)
  {
    SignedRange(l, a);
    SignedRange(l, b);
    ModAdd(Signed(l, a), Signed(l, b), Pow2(l.bits));
  }

  // ----- sequences of words as sequences of elements

  /** The signed elements of consecutive words, most significant lane first. */
  function Elems(l: Lanes, ws: seq<Word>): (s: seq<int>)
    requires 1 <= l.bits
    ensures |s| == Mul(|ws|, l.per)
  {
    seq(Mul(|ws|, l.per), p requires 0 <= p < Mul(|ws|, l.per) => Elem(l, ws, p))
  }

  function Elem(l: Lanes, ws: seq<Word>, p: nat): int
    requires 1 <= l.bits && p < Mul(|ws|, l.per)
  {
    DivMul(|ws|, l.per, p);
    Signed(l, Lane(l, ws[p / l.per], p % l.per))
  }

  lemma ElemsAt(l: Lanes, ws: seq<Word>, j: nat, n: nat)
    requires 1 <= l.bits && j < |ws| && n < l.per
    ensures Mul(j, l.per) + n < Mul(|ws|, l.per)
    ensures Elems(l, ws)[Mul(j, l.per) + n] == Signed(l, Lane(l, ws[j], n))
  {
    MulFits(|ws|, l.per, j);
    MulDiv(l.per, j, n);
  }
}
