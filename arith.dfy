/** Natural-number facts about powers, division and remainder that the
    positional-notation and bit-layout proofs rest on. */
module Arith {

  /** b raised to the power e. */
  function Pow(b: nat, e: nat): (r: nat)
    ensures b > 0 ==> r > 0
  {
    if e == 0 then 1 else b * Pow(b, e - 1)
  }

  lemma {:induction false} PowAdd(b: nat, m: nat, n: nat)
    ensures Pow(b, m + n) == Pow(b, m) * Pow(b, n)
  {
    if n > 0 {
      PowAdd(b, m, n - 1);
      assert Pow(b, m + n) == b * Pow(b, m + n - 1);
      MulSwap(b, Pow(b, m), Pow(b, n - 1));
    }
  }

  lemma MulSwap(a: nat, b: nat, c: nat)
    ensures a * (b * c) == b * (a * c)
  {
  }

  lemma {:induction false} PowMono(b: nat, m: nat, n: nat)
    requires b >= 1 && m <= n
    ensures Pow(b, m) <= Pow(b, n)
  {
    if m < n {
      PowMono(b, m, n - 1);
      MulMonoLeft(1, b, Pow(b, n - 1));
    }
  }

  lemma {:induction false} PowStrictMono(b: nat, m: nat, n: nat)
    requires b >= 2 && m < n
    ensures Pow(b, m) < Pow(b, n)
  {
    PowMono(b, m, n - 1);
    MulMonoLeft(2, b, Pow(b, n - 1));
  }

  lemma MulMonoLeft(a: nat, b: nat, c: nat)
    requires a <= b
    ensures a * c <= b * c
  {
  }

  /** Quotient and remainder are determined by the division equation. */
  lemma DivModUnique(x: int, d: int, q: int, r: int)
    requires d > 0 && 0 <= r < d && x == q * d + r
    ensures x / d == q && x % d == r
  {
    var q', r' := x / d, x % d;
    assert x == q' * d + r';
    assert (q - q') * d == r' - r;
    if q > q' {
      MulMonoLeft(1, q - q', d);
    } else if q < q' {
      MulMonoLeft(1, q' - q, d);
    }
  }

  lemma DivDiv(x: nat, a: nat, b: nat)
    requires a > 0 && b > 0
    ensures x / a / b == x / (a * b)
  {
    var q1, r1 := x / a, x % a;
    var q2, r2 := q1 / b, q1 % b;
    assert x == q2 * (a * b) + (r2 * a + r1) by {
      assert x == q1 * a + r1;
      assert q1 == q2 * b + r2;
      assert q1 * a == q2 * b * a + r2 * a;
    }
    assert r2 * a + r1 < a * b by {
      MulMonoLeft(r2 + 1, b, a);
    }
    DivModUnique(x, a * b, q2, r2 * a + r1);
  }

  /** (x mod ab) mod a = x mod a and (x mod ab) div a = (x div a) mod b. */
  lemma ModSplit(x: nat, a: nat, b: nat)
    requires a > 0 && b > 0
    ensures (x % (a * b)) % a == x % a
    ensures (x % (a * b)) / a == (x / a) % b
  {
    var q1, r1 := x / a, x % a;
    var q2, r2 := q1 / b, q1 % b;
    assert x == q2 * (a * b) + (r2 * a + r1) by {
      assert x == q1 * a + r1;
      assert q1 == q2 * b + r2;
      assert q1 * a == q2 * b * a + r2 * a;
    }
    assert r2 * a + r1 < a * b by {
      MulMonoLeft(r2 + 1, b, a);
    }
    DivModUnique(x, a * b, q2, r2 * a + r1);
    DivModUnique(r2 * a + r1, a, r2, r1);
  }

  /** A remainder by a multiple of a keeps the low part. */
  lemma ModOfMultiple(x: nat, a: nat, k: nat)
    requires a > 0 && k > 0
    ensures (x % (a * k)) % a == x % a
  {
    ModSplit(x, a, k);
  }

  lemma DivLess(x: nat, d: nat, k: nat)
    requires d > 0 && x < d * k
    ensures x / d < k
  {
    if x / d >= k {
      MulMonoLeft(k, x / d, d);
    }
  }

  lemma DivAtMost(x: nat, d: nat)
    requires d > 0
    ensures x / d <= x
  {
    MulMonoLeft(1, d, x + 1);
    DivLess(x, d, x + 1);
  }

  lemma DivDecreases(x: nat, d: nat)
    requires d > 1 && x > 0
    ensures x / d < x
  {
    DivLess(x, d, x);
  }

  lemma SmallDiv(x: nat, d: nat)
    requires x < d
    ensures x / d == 0 && x % d == x
  {
    DivModUnique(x, d, 0, x);
  }

  /** The powers of two that the bit layout of an identifier uses. */
  lemma Pow2Values()
    ensures Pow(2, 8) == 0x100
    ensures Pow(2, 24) == 0x100_0000
    ensures Pow(2, 32) == 0x1_0000_0000
    ensures Pow(2, 48) == 0x1_0000_0000_0000
    ensures Pow(2, 56) == 0x100_0000_0000_0000
    ensures Pow(2, 64) == 0x1_0000_0000_0000_0000
    ensures Pow(2, 80) == 0x1_0000_0000_0000_0000_0000
    ensures Pow(2, 112) == 0x1_0000_0000_0000_0000_0000_0000_0000
    ensures Pow(2, 128) == 0x1_0000_0000_0000_0000_0000_0000_0000_0000
    ensures Pow(2, 168) == 0x100_0000_0000_0000_0000_0000_0000_0000_0000_0000_0000
  {
    assert Pow(2, 2) == 4;
    PowAdd(2, 2, 2);
    assert Pow(2, 4) == 16;
    PowAdd(2, 4, 4);
    assert Pow(2, 8) == 0x100;
    PowAdd(2, 8, 8);
    assert Pow(2, 16) == 0x1_0000;
    PowAdd(2, 16, 8);
    assert Pow(2, 24) == 0x100_0000;
    PowAdd(2, 16, 16);
    assert Pow(2, 32) == 0x1_0000_0000;
    PowAdd(2, 32, 16);
    assert Pow(2, 48) == 0x1_0000_0000_0000;
    PowAdd(2, 48, 8);
    assert Pow(2, 56) == 0x100_0000_0000_0000;
    PowAdd(2, 32, 32);
    assert Pow(2, 64) == 0x1_0000_0000_0000_0000;
    PowAdd(2, 64, 16);
    assert Pow(2, 80) == 0x1_0000_0000_0000_0000_0000;
    PowAdd(2, 56, 56);
    assert Pow(2, 112) == 0x1_0000_0000_0000_0000_0000_0000_0000;
    PowAdd(2, 64, 64);
    assert Pow(2, 128) == 0x1_0000_0000_0000_0000_0000_0000_0000_0000;
    PowAdd(2, 112, 56);
  }

  /** The powers of 36 that the 25-digit Base36 form uses. */
  lemma Pow36Values()
    ensures Pow(36, 1) == 36
    ensures Pow(36, 12) == 4738381338321616896
    ensures Pow(36, 24) == 22452257707354557240087211123792674816
    ensures Pow(36, 25) == 808281277464764060643139600456536293376
  {
    assert Pow(36, 2) == 1296;
    PowAdd(36, 2, 1);
    assert Pow(36, 3) == 46656;
    PowAdd(36, 3, 3);
    assert Pow(36, 6) == 2176782336;
    PowAdd(36, 6, 6);
    assert Pow(36, 12) == 4738381338321616896;
    PowAdd(36, 12, 12);
    assert Pow(36, 24) == 22452257707354557240087211123792674816;
    PowAdd(36, 24, 1);
  }

  /** Sixteen bytes hold exactly 128 bits. */
  lemma Pow256Values()
    ensures Pow(256, 16) == 0x1_0000_0000_0000_0000_0000_0000_0000_0000
  {
    assert Pow(256, 2) == 0x1_0000;
    PowAdd(256, 2, 2);
    assert Pow(256, 4) == 0x1_0000_0000;
    PowAdd(256, 4, 4);
    assert Pow(256, 8) == 0x1_0000_0000_0000_0000;
    PowAdd(256, 8, 8);
  }
}
