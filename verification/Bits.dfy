/** Bitwise operations on natural numbers, bit by bit, and the arithmetic they amount to
    for the masks and disjoint unions the encoders use. */
module Bits {

  function Pow2(k: nat): (p: nat)
    ensures p >= 1
  {
    if k == 0 then 1 else 2 * Pow2(k - 1)
  }

  /** `a & b` */
  function And(a: nat, b: nat): nat {
    if a == 0 || b == 0 then 0 else (a % 2) * (b % 2) + 2 * And(a / 2, b / 2)
  }

  /** `a | b` */
  function Or(a: nat, b: nat): nat
    decreases a + b
  {
    if a == 0 then b
    else if b == 0 then a
    else (if a % 2 == 1 || b % 2 == 1 then 1 else 0) + 2 * Or(a / 2, b / 2)
  }

  /** `a >> k` */
  function Shr(a: nat, k: nat): nat {
    if k == 0 then a else Shr(a / 2, k - 1)
  }

  /** `a << k` */
  function Shl(a: nat, k: nat): nat {
    a * Pow2(k)
  }

  /** Masking with k low bits is reduction modulo 2^k. */
  lemma {:induction false} AndLowMask(a: nat, k: nat)
    ensures And(a, Pow2(k) - 1) == a % Pow2(k)
  {
    hide And;
    if k == 0 {
      AndZero(a, 0);
      assert Pow2(k) == 1;
    } else {
      AndLowMask(a / 2, k - 1);
      MaskStep(a, Pow2(k - 1));
    }
  }

  lemma MaskStep(a: nat, p: nat)
    requires p >= 1 && And(a / 2, p - 1) == a / 2 % p
    ensures And(a, 2 * p - 1) == a % (2 * p)
  {
    hide And;
    AndOdd(a, p - 1);
    ModDouble(a, p);
  }

  lemma AndZero(a: nat, m: nat)
    ensures a == 0 || m == 0 ==> And(a, m) == 0
  {
  }

  lemma AndOdd(a: nat, m: nat)
    ensures And(a, 2 * m + 1) == a % 2 + 2 * And(a / 2, m)
  {
    assert (2 * m + 1) / 2 == m && (2 * m + 1) % 2 == 1;
  }

  lemma ModDouble(a: nat, p: nat)
    requires p >= 1
    ensures a % (2 * p) == a % 2 + 2 * (a / 2 % p)
  {
    DivDouble(a, p);
  }

  lemma DivDouble(a: nat, p: nat)
    requires p >= 1
    ensures a / (2 * p) == a / 2 / p && a % (2 * p) == a % 2 + 2 * (a / 2 % p)
  {
    var q, r := a / 2 / p, a / 2 % p;
    assert a / 2 == p * q + r;
    Twice(p, q);
    DivModUnique(a, 2 * p, q, a % 2 + 2 * r);
  }

  lemma Twice(p: nat, q: nat)
    ensures (2 * p) * q == 2 * (p * q)
  {
  }

  lemma DivModUnique(a: nat, d: nat, q: nat, r: nat)
    requires a == d * q + r && r < d
    ensures a / d == q && a % d == r
  {
    var q1, r1 := a / d, a % d;
    assert a == d * q1 + r1;
    if q1 > q {
      MulStep(d, q, q1);
    } else if q1 < q {
      MulStep(d, q1, q);
    }
  }

  lemma {:induction false} MulStep(d: nat, x: nat, y: nat)
    requires x < y
    ensures d * y >= d * x + d
    decreases y
  {
    assert d * y == d * (y - 1) + d;
    if x < y - 1 {
      MulStep(d, x, y - 1);
    }
  }

  lemma DoubleRight(x: nat, p: nat)
    ensures x * (2 * p) == 2 * (x * p)
  {
  }

  lemma OrHalves(a: nat, b: nat)
    ensures Or(a, b) == (if a % 2 == 1 || b % 2 == 1 then 1 else 0) + 2 * Or(a / 2, b / 2)
  {
  }

  lemma OrZero(a: nat)
    ensures Or(a, 0) == a && Or(0, a) == a
  {
  }

  /** A union with a number that only has bits above k adds, when the other has only bits below k. */
  lemma {:induction false} OrDisjoint(hi: nat, lo: nat, k: nat)
    requires lo < Pow2(k)
    ensures Or(hi * Pow2(k), lo) == hi * Pow2(k) + lo
    ensures Or(lo, hi * Pow2(k)) == hi * Pow2(k) + lo
    decreases k
  {
    hide Or;
    if k == 0 {
      OrZero(hi);
    } else {
      var p := Pow2(k - 1);
      var h := hi * p;
      DoubleRight(hi, p);
      OrDisjoint(hi, lo / 2, k - 1);
      OrHalves(2 * h, lo);
      OrHalves(lo, 2 * h);
    }
  }

  /** Dropping k bits is division by 2^k. */
  lemma {:induction false} ShrDivides(a: nat, k: nat)
    ensures Shr(a, k) == a / Pow2(k)
  {
    if k == 0 {
    } else {
      ShrDivides(a / 2, k - 1);
      DivDouble(a, Pow2(k - 1));
    }
  }

  /** Masking with bits that start at position k: shift down, mask, shift up. */
  lemma {:induction false} AndHighMask(a: nat, m: nat, k: nat)
    ensures And(a, m * Pow2(k)) == And(Shr(a, k), m) * Pow2(k)
    decreases k
  {
    if k == 0 {
    } else {
      var p, x := Pow2(k - 1), And(Shr(a / 2, k - 1), m);
      DoubleRight(m, p);
      DoubleRight(x, p);
      var b := m * p;
      AndEven(a, b);
      AndHighMask(a / 2, m, k - 1);
    }
  }

  lemma AndEven(a: nat, b: nat)
    ensures And(a, 2 * b) == 2 * And(a / 2, b)
  {
    assert (2 * b) / 2 == b && (2 * b) % 2 == 0;
  }

  /** The powers of two that appear as literals. */
  lemma Powers()
    ensures Pow2(0) == 1 && Pow2(1) == 2 && Pow2(2) == 4 && Pow2(3) == 8 && Pow2(4) == 0x10
    ensures Pow2(5) == 0x20 && Pow2(6) == 0x40 && Pow2(7) == 0x80 && Pow2(8) == 0x100
    ensures Pow2(9) == 0x200 && Pow2(14) == 0x4000 && Pow2(16) == 0x10000
  {
    assert Pow2(4) == 16;
    assert Pow2(8) == 16 * Pow2(4) by { assert Pow2(6) == 64; }
    assert Pow2(12) == 16 * Pow2(8) by { assert Pow2(10) == 1024; }
    assert Pow2(14) == 4 * Pow2(12);
    assert Pow2(16) == 4 * Pow2(14);
  }
}
