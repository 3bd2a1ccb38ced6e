/** Division, remainder and powers of two: the few facts every other module needs. */
module Arith {

  /**
   * The product of two naturals by repeated addition. Table offsets are written with this function rather
   * than with `*`, so that reasoning about them stays linear.
   */
  function Mul(n: nat, k: nat): (r: nat)
  {
    if n == 0 then 0 else Mul(n - 1, k) + k
  }

  lemma {:induction false} MulIs(n: nat, k: nat)
    ensures Mul(n, k) == n * k
  {
    if n == 0 {
    } else {
      MulIs(n - 1, k);
    }
  }

  lemma MulNone(k: nat)
    ensures Mul(0, k) == 0
  {
  }

  lemma MulNext(n: nat, k: nat)
    ensures Mul(n + 1, k) == Mul(n, k) + k
  {
  }

  lemma {:induction false} MulLe(m: nat, n: nat, k: nat)
    requires m <= n
    ensures Mul(m, k) <= Mul(n, k)
    decreases n
  {
    if m == n {
    } else {
      MulLe(m, n - 1, k);
    }
  }

  /** Cell (r, c) of a table of `n` rows of length `k` lies inside it, with its whole row. */
  lemma MulFits(n: nat, k: nat, r: nat)
    requires r < n
    ensures Mul(r, k) + k <= Mul(n, k)
  {
    MulLe(r + 1, n, k);
  }

  lemma {:induction false} MulAdd(m: nat, n: nat, k: nat)
    ensures Mul(m + n, k) == Mul(m, k) + Mul(n, k)
    decreases n
  {
    if n == 0 {
    } else {
      MulAdd(m, n - 1, k);
      assert Mul(m + n, k) == Mul(m + n - 1, k) + k;
    }
  }

  lemma MulSwap(n: nat, k: nat)
    ensures Mul(n, k) == Mul(k, n)
  {
    MulIs(n, k);
    MulIs(k, n);
  }

  /** `m` tables of `n` rows are one table of `m * n` rows. */
  lemma {:induction false} MulMul(m: nat, n: nat, k: nat)
    ensures Mul(Mul(m, n), k) == Mul(m, Mul(n, k))
  {
    if m == 0 {
    } else {
      MulMul(m - 1, n, k);
      MulAdd(Mul(m - 1, n), n, k);
    }
  }

  /** Row and column are determined by the flat index. */
  lemma MulUnique(k: nat, r: nat, c: nat, r': nat, c': nat)
    requires c < k && c' < k && Mul(r, k) + c == Mul(r', k) + c'
    ensures r == r' && c == c'
  {
    MulLe(r + 1, if r < r' then r' else r + 1, k);
    MulLe(r' + 1, if r' < r then r else r' + 1, k);
  }

  /** Every flat index is the flat index of a cell. */
  lemma {:induction false} MulSplit(n: nat, k: nat, p: nat) returns (r: nat, c: nat)
    requires p < Mul(n, k)
    ensures r < n && c < k && p == Mul(r, k) + c
    decreases n
  {
    if p < Mul(n - 1, k) {
      r, c := MulSplit(n - 1, k, p);
    } else {
      r, c := n - 1, p - Mul(n - 1, k);
    }
  }

  // ----- blocks of tables

  /** Cell `c` of row `i` of block `b`, for blocks of `rows` rows of `k` cells. */
  function Slot(rows: nat, k: nat, b: nat, i: nat, c: nat): nat {
    Mul(b, Mul(rows, k)) + Mul(i, k) + c
  }

  lemma SlotFits(rows: nat, k: nat, blocks: nat, b: nat, i: nat, c: nat)
    requires b < blocks && i < rows && c < k
    ensures Slot(rows, k, b, i, c) < Mul(blocks, Mul(rows, k))
  {
    MulFits(blocks, Mul(rows, k), b);
    MulFits(rows, k, i);
  }

  lemma SlotSplit(rows: nat, k: nat, blocks: nat, p: nat) returns (b: nat, i: nat, c: nat)
    requires p < Mul(blocks, Mul(rows, k))
    ensures b < blocks && i < rows && c < k && p == Slot(rows, k, b, i, c)
  {
    var q;
    b, q := MulSplit(blocks, Mul(rows, k), p);
    i, c := MulSplit(rows, k, q);
  }

  lemma SlotUnique(rows: nat, k: nat, b: nat, i: nat, c: nat, b': nat, i': nat, c': nat)
    requires i < rows && c < k && i' < rows && c' < k && Slot(rows, k, b, i, c) == Slot(rows, k, b', i', c')
    ensures b == b' && i == i' && c == c'
  {
    hide Mul;
    MulFits(rows, k, i);
    MulFits(rows, k, i');
    MulUnique(Mul(rows, k), b, Mul(i, k) + c, b', Mul(i', k) + c');
    MulUnique(k, i, c, i', c');
  }

  // ----- quotients and remainders

  lemma MulAtLeast(d: int, m: int)
    ensures d >= 1 && m >= 0 ==> d * m >= m
  {
  }

  lemma MulMono(a: int, b: int, m: int)
    ensures a <= b && m >= 0 ==> a * m <= b * m
  {
  }

  /** Quotient and remainder by a positive `m` are determined by the defining equation. */
  lemma DivModUnique(x: int, m: int, q: int, r: int)
    requires 0 <= r < m
    requires x == q * m + r
    ensures x / m == q && x % m == r
  {
    var d, r' := q - x / m, x % m;
    assert d * m == r' - r;
    MulAtLeast(d, m);
    MulAtLeast(-d, m);
  }

  /** Division recovers row and column from the flat index. */
  lemma MulDiv(k: nat, r: nat, c: nat)
    requires c < k
    ensures (Mul(r, k) + c) / k == r && (Mul(r, k) + c) % k == c
  {
    MulIs(r, k);
    DivModUnique(Mul(r, k) + c, k, r, c);
  }

  /** The row a flat index divides into is in range. */
  lemma DivMul(n: nat, k: nat, p: nat)
    requires p < Mul(n, k)
    ensures k > 0 && 0 <= p / k < n && 0 <= p % k < k && Mul(p / k, k) + p % k == p
  {
    var r, c := MulSplit(n, k, p);
    MulDiv(k, r, c);
  }

  /** The column of a flat index in a table with rows of length `k`. */
  function Col(k: nat, p: nat): (c: nat)
    requires k > 0
    ensures c < k
  {
    p % k
  }

  lemma ColOf(k: nat, r: nat, c: nat)
    requires c < k
    ensures Col(k, Mul(r, k) + c) == c
  {
    MulDiv(k, r, c);
  }

  /** One row up, the column is the same. */
  lemma ColUp(k: nat, p: nat)
    requires 0 < k <= p
    ensures Col(k, p - k) == Col(k, p)
  {
    AddMultiple(p, -1, k);
  }

  /** Two indices in the same column are equal or at least a row apart. */
  lemma ColGap(k: nat, p: nat, q: nat)
    requires k > 0 && Col(k, p) == Col(k, q)
    ensures p == q || p + k <= q || q + k <= p
  {
    var d := p / k - q / k;
    assert p - q == d * k;
    MulAtLeast(d, k);
    MulAtLeast(-d, k);
  }

  lemma AddMultiple(x: int, q: int, m: int)
    requires m > 0
    ensures (x + q * m) % m == x % m
  {
    DivModUnique(x + q * m, m, x / m + q, x % m);
  }

  lemma ModAddLeft(a: int, b: int, m: int)
    requires m > 0
    ensures (a % m + b) % m == (a + b) % m
  {
    AddMultiple(a % m + b, a / m, m);
    assert a % m + b + (a / m) * m == a + b;
  }

  lemma ModAdd(a: int, b: int, m: int)
    requires m > 0
    ensures (a % m + b) % m == (a + b) % m
    ensures (a % m + b % m) % m == (a + b) % m
  {
    ModAddLeft(a, b, m);
    ModAddLeft(b, a % m, m);
  }

  /** Reducing first modulo a multiple of `m` does not change the remainder modulo `m`. */
  lemma ModMod(x: int, m: int, q: int)
    requires m > 0 && q > 0
    ensures (x % (q * m)) % m == x % m
  {
    var d := x / (q * m);
    assert x == x % (q * m) + (d * q) * m;
    AddMultiple(x % (q * m), d * q, m);
  }

  function Pow2(e: nat): (r: int)
    ensures r >= 1
  {
    if e == 0 then 1 else 2 * Pow2(e - 1)
  }

  lemma {:induction false} Pow2Add(a: nat, b: nat)
    ensures Pow2(a + b) == Pow2(a) * Pow2(b)
  {
    if a == 0 {
    } else {
      Pow2Add(a - 1, b);
      assert Pow2(a + b) == 2 * Pow2(a - 1 + b);
    }
  }

  lemma Pow2Mono(a: nat, b: nat)
    requires a <= b
    ensures Pow2(a) <= Pow2(b)
  {
    Pow2Add(a, b - a);
    assert Pow2(a) * 1 <= Pow2(a) * Pow2(b - a);
  }

  lemma Pow2Table()
    ensures Pow2(5) == 32 && Pow2(8) == 0x100 && Pow2(16) == 0x1_0000 && Pow2(32) == 0x1_0000_0000
  {
    assert Pow2(4) == 16 && Pow2(8) == 256;
    Pow2Add(8, 8);
    Pow2Add(16, 16);
  }

  /** Two's-complement wrap-around of a 32-bit signed integer. */
  function Int32(x: int): (r: int)
    ensures -0x8000_0000 <= r < 0x8000_0000
    ensures r % 0x1_0000_0000 == x % 0x1_0000_0000
    ensures -0x8000_0000 <= x < 0x8000_0000 ==> r == x
  {
    (x + 0x8000_0000) % 0x1_0000_0000 - 0x8000_0000
  }

  lemma Int32Small(x: int)
    requires -0x8000_0000 <= x < 0x8000_0000
    ensures Int32(x) == x
  {
  }

  /** Wrapping the summands first does not change the wrapped sum. */
  lemma Int32Add(a: int, b: int)
    ensures Int32(Int32(a) + Int32(b)) == Int32(a + b)
  {
    var m := 0x1_0000_0000;
    ModAdd(Int32(a), Int32(b), m);
    ModAdd(a, b, m);
    ModAdd(Int32(a) + Int32(b), 0x8000_0000, m);
    ModAdd(a + b, 0x8000_0000, m);
  }

  /** Wrapping to 32 bits keeps the residue modulo every smaller power of two. */
  lemma Int32Mod(x: int, bits: nat)
    requires bits <= 32
    ensures Int32(x) % Pow2(bits) == x % Pow2(bits)
  {
    Pow2Table();
    Pow2Add(32 - bits, bits);
    ModMod(x, Pow2(bits), Pow2(32 - bits));
    ModMod(Int32(x), Pow2(bits), Pow2(32 - bits));
  }
}
