/** Shifts, masks and bit scans of 64-bit words, as arithmetic. */
module Bits {

  const WORD: nat := 0x1_0000_0000_0000_0000
  const TOP: nat := 0x8000_0000_0000_0000

  function Pow2(n: nat): (p: nat)
    ensures p > 0
  {
    if n == 0 then 1 else 2 * Pow2(n - 1)
  }

  /** Bit `b` of `x`. */
  function Bit(x: nat, b: nat): (r: nat)
    ensures r < 2
  {
    (x / Pow2(b)) % 2
  }

  lemma {:induction false} Pow2Add(m: nat, n: nat)
    ensures Pow2(m + n) == Pow2(m) * Pow2(n)
  {
    if m > 0 {
      Pow2Add(m - 1, n);
      MulAssoc(2, Pow2(m - 1), Pow2(n));
    }
  }

  lemma {:induction false} Pow2Order(m: nat, n: nat)
    requires m < n
    ensures 2 * Pow2(m) <= Pow2(n)
    decreases n
  {
    if m + 1 < n { Pow2Order(m, n - 1); }
  }

  lemma Pow2Smaller(m: nat, n: nat)
    requires Pow2(m) < Pow2(n)
    ensures m < n
  {
    if n < m { Pow2Order(n, m); }
  }

  lemma MulAssoc(a: int, b: int, c: int)
    ensures (a * b) * c == a * (b * c)
  {
  }

  lemma MulMonotone(m: int, n: int, c: nat)
    requires m < n
    ensures m * c + c <= n * c
  {
    assert (n - m - 1) * c >= 0;
  }

  lemma DivUnique(a: nat, q: nat, r: nat, c: nat)
    requires c > 0 && a == q * c + r && r < c
    ensures a / c == q && a % c == r
  {
    var q', r' := a / c, a % c;
    assert a == q' * c + r' && 0 <= r' < c;
    if q' > q { MulMonotone(q, q', c); }
    if q' < q { MulMonotone(q', q, c); }
  }

  /** In a range of width twice `h` that starts at a multiple of it, the bit of
      weight `h` says which half a number is in. */
  lemma BitIsHalf(x: nat, q: nat, b: nat)
    requires q * (2 * Pow2(b)) <= x < q * (2 * Pow2(b)) + 2 * Pow2(b)
    ensures Bit(x, b) == if x >= q * (2 * Pow2(b)) + Pow2(b) then 1 else 0
  {
    var h := Pow2(b);
    assert q * (2 * h) == (2 * q) * h;
    if x >= q * (2 * h) + h {
      assert x == (2 * q + 1) * h + (x - (2 * q) * h - h);
      DivUnique(x, 2 * q + 1, x - (2 * q) * h - h, h);
    } else {
      DivUnique(x, 2 * q, x - (2 * q) * h, h);
    }
  }

  // ----- a word shifted left bit by bit -----

  /** `x << 1` in a 64-bit word. */
  function ShiftLeft(x: nat): nat {
    (2 * x) % WORD
  }

  /** `(x >> 63) & 1` */
  function TopBit(x: nat): nat {
    (x / TOP) % 2
  }

  function ShiftedLeft(x: nat, n: nat): nat {
    if n == 0 then x % WORD else ShiftLeft(ShiftedLeft(x, n - 1))
  }

  /** The top bit of `x << n` is bit `63 - n` of `x`. */
  lemma TopBitOfShifted(x: nat, n: nat)
    requires n < 64
    ensures TopBit(ShiftedLeft(x, n)) == Bit(x, 63 - n)
  {
    var q, r := Divide(x, 2 * Pow2(63 - n));
    ShiftedTop(x, n, q, r);
  }

  lemma Divide(x: nat, c: nat) returns (q: nat, r: nat)
    requires c > 0
    ensures x == q * c + r && r < c
  {
    q, r := x / c, x % c;
  }

  lemma ShiftedTop(x: nat, n: nat, q: nat, r: nat)
    requires n < 64 && x == q * (2 * Pow2(63 - n)) + r && r < 2 * Pow2(63 - n)
    ensures TopBit(ShiftedLeft(x, n)) == Bit(x, 63 - n)
  {
    var p, h := Pow2(n), Pow2(63 - n);
    assert p * h == TOP by { Pow2Add(n, 63 - n); TopIsPow2(); }
    ShiftedRest(x, n, q, r);
    ProductHalf(r, h, p);
    BitIsHalf(x, q, 63 - n);
  }

  lemma ShiftedRest(x: nat, n: nat, q: nat, r: nat)
    requires n < 64 && x == q * (2 * Pow2(63 - n)) + r && r < 2 * Pow2(63 - n)
    requires Pow2(n) * Pow2(63 - n) == TOP
    ensures ShiftedLeft(x, n) == r * Pow2(n)
  {
    SplitProduct(q, Pow2(63 - n), r, Pow2(n));
    ProductHalf(r, Pow2(63 - n), Pow2(n));
    ShiftedIsProduct(x, n);
    DivUnique(x * Pow2(n), q, r * Pow2(n), WORD);
  }

  lemma ProductHalf(r: nat, h: nat, p: nat)
    requires p * h == TOP && r < 2 * h
    ensures r * p < WORD && TopBit(r * p) == if r >= h then 1 else 0
  {
    MulMonotone(r, 2 * h, p);
    MulAssoc(2, h, p);
    if r > h { MulMonotone(h, r, p); }
    if r < h { MulMonotone(r, h, p); }
    assert r == h ==> r * p == TOP;
  }

  lemma SplitProduct(q: nat, h: nat, r: nat, p: nat)
    requires p * h == TOP
    ensures (q * (2 * h) + r) * p == q * WORD + r * p
    ensures (2 * h) * p == WORD && h * p == TOP
  {
    MulAssoc(2, h, p);
    MulAssoc(q, 2 * h, p);
    MulDistrib(q * (2 * h), r, p);
  }

  lemma MulDistrib(a: int, b: int, c: int)
    ensures (a + b) * c == a * c + b * c
  {
  }

  lemma TopIsPow2()
    ensures Pow2(63) == TOP && Pow2(64) == WORD
  {
    assert Pow2(8) == 256;
    Pow2Add(8, 8);
    Pow2Add(16, 16);
    Pow2Add(32, 31);
    assert Pow2(31) == 0x8000_0000 by { assert Pow2(7) == 128; Pow2Add(8, 7); Pow2Add(16, 15); }
    Pow2Add(32, 32);
  }

  lemma DoubleMod(y: nat, q: nat, r: nat)
    requires y == q * WORD + r && r < WORD
    ensures ShiftLeft(r) == (2 * y) % WORD
  {
    if 2 * r < WORD {
      DivUnique(2 * r, 0, 2 * r, WORD);
      DivUnique(2 * y, 2 * q, 2 * r, WORD);
    } else {
      DivUnique(2 * r, 1, 2 * r - WORD, WORD);
      DivUnique(2 * y, 2 * q + 1, 2 * r - WORD, WORD);
    }
  }

  lemma {:induction false} ShiftedIsProduct(x: nat, n: nat)
    ensures ShiftedLeft(x, n) == (x * Pow2(n)) % WORD
  {
    if n > 0 {
      ShiftedIsProduct(x, n - 1);
      var y := x * Pow2(n - 1);
      DoubleMod(y, y / WORD, y % WORD);
      MulAssoc(2, x, Pow2(n - 1));
      MulAssoc(x, 2, Pow2(n - 1));
    }
  }

  /** `bsr`: the position of the highest bit set. */
  function HighBit(x: nat): nat
    requires x > 0
  {
    if x == 1 then 0 else 1 + HighBit(x / 2)
  }

  lemma {:induction false} HighBitBounds(x: nat)
    requires x > 0
    ensures Pow2(HighBit(x)) <= x < 2 * Pow2(HighBit(x))
  {
    if x > 1 { HighBitBounds(x / 2); }
  }

  lemma HighBitUnique(x: nat, k: nat)
    requires x > 0 && Pow2(k) <= x < 2 * Pow2(k)
    ensures HighBit(x) == k
  {
    HighBitBounds(x);
    if HighBit(x) < k { Pow2Order(HighBit(x), k); }
    if k < HighBit(x) { Pow2Order(k, HighBit(x)); }
  }
}
