/** The bits of a number, and C's `&`, `|` and `<<` on numbers that are not negative. */
module Bits {

  function Pow2(k: nat): (r: nat)
    ensures r > 0
  {
    if k == 0 then 1 else 2 * Pow2(k - 1)
  }

  /** Bit k of x. */
  function Bit(x: nat, k: nat): bool {
    x / Pow2(k) % 2 == 1
  }

  /** `a & b`, bit by bit. */
  function And(a: nat, b: nat): (r: nat)
    ensures r <= a
  {
    if a == 0 || b == 0 then 0
    else 2 * And(a / 2, b / 2) + if a % 2 == 1 && b % 2 == 1 then 1 else 0
  }

  /** `a | b`, bit by bit. */
  function Or(a: nat, b: nat): nat {
    if a == 0 then b
    else if b == 0 then a
    else 2 * Or(a / 2, b / 2) + if a % 2 == 1 || b % 2 == 1 then 1 else 0
  }

  /** `1 << k`. */
  function Shift1(k: nat): nat {
    Pow2(k)
  }

  // ------------------------------------------------------------------ one bit at a time

  lemma HalveBoth(a: nat, b: nat, m: nat)
    requires b < 2 && m > 0
    ensures (2 * a + b) / (2 * m) == a / m
  {
    var q, r := a / m, a % m;
    assert a == q * m + r;
    assert 2 * a + b == q * (2 * m) + (2 * r + b);
    DivUnique(2 * a + b, 2 * m, q, 2 * r + b);
  }

  lemma DivUnique(x: nat, d: nat, q: nat, r: nat)
    requires d > 0 && r < d && x == q * d + r
    ensures x / d == q
  {
    var k := x / d - q;
    assert k * d == r - x % d;
    MultipleBelow(k, d);
  }

  /** A multiple of d between -d and d is 0. */
  lemma MultipleBelow(k: int, d: nat)
    requires d > 0
    ensures 0 - d < k * d < d ==> k == 0
  {
    if k > 0 {
      assert k * d >= d;
    } else if k < 0 {
      assert k * d <= 0 - d;
    }
  }

  /** Bit 0 is the parity; the other bits are those of the half. */
  lemma BitStep(x: nat, k: nat)
    ensures Bit(x, 0) <==> x % 2 == 1
    ensures k > 0 ==> Bit(x, k) == Bit(x / 2, k - 1)
  {
    assert Pow2(0) == 1;
    if k > 0 {
      HalveBoth(x / 2, x % 2, Pow2(k - 1));
    }
  }

  lemma ZeroBits(k: nat)
    ensures !Bit(0, k)
  {
    DivUnique(0, Pow2(k), 0, 0);
  }

  lemma {:induction false} AndBits(a: nat, b: nat, k: nat)
    ensures Bit(And(a, b), k) <==> Bit(a, k) && Bit(b, k)
  {
    ZeroBits(k);
    if a > 0 && b > 0 {
      BitStep(And(a, b), k);
      BitStep(a, k);
      BitStep(b, k);
      if k > 0 {
        AndBits(a / 2, b / 2, k - 1);
      }
    }
  }

  lemma {:induction false} OrBits(a: nat, b: nat, k: nat)
    ensures Bit(Or(a, b), k) <==> Bit(a, k) || Bit(b, k)
  {
    ZeroBits(k);
    if a > 0 && b > 0 {
      BitStep(Or(a, b), k);
      BitStep(a, k);
      BitStep(b, k);
      if k > 0 {
        OrBits(a / 2, b / 2, k - 1);
      }
    }
  }

  /** `1 << j` has one bit, at j. */
  lemma {:induction false} Shift1Bits(j: nat, k: nat)
    ensures Bit(Shift1(j), k) <==> j == k
  {
    BitStep(Shift1(j), k);
    if j == 0 {
      if k > 0 {
        ZeroBits(k - 1);
      }
    } else if k > 0 {
      assert Shift1(j) / 2 == Shift1(j - 1);
      Shift1Bits(j - 1, k - 1);
    }
  }

  lemma {:induction false} Shift1Below(k: nat, n: nat)
    requires k < n
    ensures Shift1(k) < Pow2(n)
  {
    if k > 0 {
      Shift1Below(k - 1, n - 1);
    }
  }

  /** `x & (1 << k)` tests bit k. */
  lemma {:induction false} TestBit(x: nat, k: nat)
    ensures And(x, Shift1(k)) != 0 <==> Bit(x, k)
    decreases k
  {
    BitStep(x, k);
    if x > 0 {
      if k == 0 {
        assert And(x / 2, 0) == 0;
      } else {
        assert Shift1(k) / 2 == Shift1(k - 1) && Shift1(k) % 2 == 0;
        TestBit(x / 2, k - 1);
      }
    } else {
      ZeroBits(k);
    }
  }

  /** The complement of an 8-bit number has the other bits. */
  lemma {:induction false} ComplementBits(x: nat, n: nat, k: nat)
    requires x < Pow2(n) && k < n
    ensures Bit(Pow2(n) - 1 - x, k) <==> !Bit(x, k)
  {
    var c := Pow2(n) - 1 - x;
    BitStep(c, k);
    BitStep(x, k);
    assert c % 2 == 1 - x % 2 && c / 2 == Pow2(n - 1) - 1 - x / 2;
    if k > 0 {
      ComplementBits(x / 2, n - 1, k - 1);
    }
  }

  lemma {:induction false} OrBound(a: nat, b: nat, n: nat)
    requires a < Pow2(n) && b < Pow2(n)
    ensures Or(a, b) < Pow2(n)
  {
    if a > 0 && b > 0 {
      OrBound(a / 2, b / 2, n - 1);
    }
  }
}
