/** Fixed-width positional notation in an arbitrary base, most significant
    digit first: the common ground of the big-endian byte form (base 256)
    and the Base36 text form (base 36) of an identifier. */
module Positional {
  import opened Arith

  /** Every entry of s is a digit of the given base. */
  predicate IsDigits(s: seq<nat>, base: nat)
  {
    forall k :: 0 <= k < |s| ==> s[k] < base
  }

  /** The number written by s, most significant digit first. */
  function Value(s: seq<nat>, base: nat): nat
  {
    if |s| == 0 then 0 else Value(s[..|s| - 1], base) * base + s[|s| - 1]
  }

  /** The n least significant digits of x, most significant first. */
  function Digits(x: nat, n: nat, base: nat): (r: seq<nat>)
    requires base >= 2
    ensures |r| == n && IsDigits(r, base)
    decreases n
  {
    if n == 0 then [] else Digits(x / base, n - 1, base) + [x % base]
  }

  /** Lexicographic order on sequences of equal length, which is the order
      Rust derives for byte arrays and uses for strings. */
  predicate LexLess(a: seq<nat>, b: seq<nat>)
    requires |a| == |b|
  {
    |a| > 0 && (a[0] < b[0] || (a[0] == b[0] && LexLess(a[1..], b[1..])))
  }

  lemma {:induction false} ValueBound(s: seq<nat>, base: nat)
    requires IsDigits(s, base)
    ensures Value(s, base) < Pow(base, |s|)
  {
    if |s| > 0 {
      var init, p := s[..|s| - 1], Pow(base, |s| - 1);
      var v := Value(init, base);
      ValueBound(init, base);
      MulMonoLeft(v + 1, p, base);
      assert Value(s, base) == v * base + s[|s| - 1];
      assert Value(s, base) < (v + 1) * base;
    }
  }

  lemma {:induction false} ValueAppend(a: seq<nat>, b: seq<nat>, base: nat)
    ensures Value(a + b, base) == Value(a, base) * Pow(base, |b|) + Value(b, base)
  {
    if |b| == 0 {
      assert a + b == a;
    } else {
      var b' := b[..|b| - 1];
      var last := b[|b| - 1];
      assert (a + b)[..|a + b| - 1] == a + b';
      ValueAppend(a, b', base);
      assert Value(a + b, base) == Value(a + b', base) * base + last;
      ShiftInto(Value(a, base), Pow(base, |b'|), Value(b', base), base, last);
    }
  }

  /** (v * p + w) * base + d == v * (p * base) + (w * base + d). */
  lemma ShiftInto(v: nat, p: nat, w: nat, base: nat, d: nat)
    ensures (v * p + w) * base + d == v * (p * base) + (w * base + d)
  {
  }

  /** Splitting off the most significant digit. */
  lemma ValueFront(s: seq<nat>, base: nat)
    requires |s| > 0
    ensures Value(s, base) == s[0] * Pow(base, |s| - 1) + Value(s[1..], base)
  {
    assert s == [s[0]] + s[1..];
    ValueAppend([s[0]], s[1..], base);
    assert [s[0]][..0] == [];
  }

  lemma {:induction false} ValueOfZeros(s: seq<nat>, base: nat)
    requires forall k :: 0 <= k < |s| ==> s[k] == 0
    ensures Value(s, base) == 0
  {
    if |s| > 0 {
      ValueOfZeros(s[..|s| - 1], base);
    }
  }

  /** Digits then Value gives back x reduced to n digits. */
  lemma {:induction false} ValueOfDigits(x: nat, n: nat, base: nat)
    requires base >= 2
    ensures Value(Digits(x, n, base), base) == x % Pow(base, n)
    decreases n
  {
    if n > 0 {
      var d := Digits(x, n, base);
      assert d[..n - 1] == Digits(x / base, n - 1, base);
      ValueOfDigits(x / base, n - 1, base);
      RemainderStep(x, base, Pow(base, n - 1));
    }
  }

  lemma RemainderStep(x: nat, base: nat, p: nat)
    requires base >= 2 && p > 0
    ensures ((x / base) % p) * base + x % base == x % (base * p)
  {
    var y := x % (base * p);
    ModSplit(x, base, p);
    assert y == (y / base) * base + y % base;
  }

  /** Value then Digits gives back the digit sequence. */
  lemma {:induction false} DigitsOfValue(s: seq<nat>, base: nat)
    requires base >= 2 && IsDigits(s, base)
    ensures Digits(Value(s, base), |s|, base) == s
  {
    if |s| > 0 {
      var init := s[..|s| - 1];
      DivModUnique(Value(s, base), base, Value(init, base), s[|s| - 1]);
      DigitsOfValue(init, base);
    }
  }

  /** Digits(x, n) only depends on x modulo base^n. */
  lemma DigitsOfRemainder(x: nat, n: nat, base: nat)
    requires base >= 2
    ensures Digits(x % Pow(base, n), n, base) == Digits(x, n, base)
  {
    ValueOfDigits(x, n, base);
    DigitsOfValue(Digits(x, n, base), base);
  }

  /** A remainder by a larger power does not change the low digits. */
  lemma DigitsOfWiderRemainder(x: nat, n: nat, m: nat, base: nat)
    requires base >= 2 && n <= m
    ensures Digits(x % Pow(base, m), n, base) == Digits(x, n, base)
  {
    PowAdd(base, n, m - n);
    ModOfMultiple(x, Pow(base, n), Pow(base, m - n));
    DigitsOfRemainder(x % Pow(base, m), n, base);
    DigitsOfRemainder(x, n, base);
  }

  /** The digits of x in n + m places are the digits of its high part in
      n places followed by its m low digits. */
  lemma {:induction false} DigitsSplit(x: nat, n: nat, m: nat, base: nat)
    requires base >= 2
    ensures Digits(x, n + m, base) == Digits(x / Pow(base, m), n, base) + Digits(x, m, base)
    decreases m
  {
    if m == 0 {
      assert Pow(base, m) == 1;
      assert x / Pow(base, m) == x;
    } else {
      var y, d := x / base, [x % base];
      var low := Digits(y, m - 1, base);
      var high := Digits(x / Pow(base, m), n, base);
      assert Digits(y, n + (m - 1), base) == high + low by {
        DigitsSplit(y, n, m - 1, base);
        DivPowStep(x, m, base);
      }
      assert Digits(x, n + m, base) == Digits(y, n + (m - 1), base) + d;
      assert Digits(x, m, base) == low + d;
      assert (high + low) + d == high + (low + d);
    }
  }

  lemma DivPowStep(x: nat, m: nat, base: nat)
    requires base >= 2 && m > 0
    ensures x / base / Pow(base, m - 1) == x / Pow(base, m)
  {
    DivDiv(x, base, Pow(base, m - 1));
  }

  /** Digit k of the n-digit form of x is the base^(n-1-k) place of x. */
  lemma DigitsAt(x: nat, n: nat, k: nat, base: nat)
    requires base >= 2 && k < n
    ensures Digits(x, n, base)[k] == (x / Pow(base, n - 1 - k)) % base
  {
    DigitsSplit(x, k + 1, n - 1 - k, base);
  }

  /** A value below base^m written in n >= m places has n - m leading zeros. */
  lemma LeadingZeros(x: nat, n: nat, m: nat, base: nat)
    requires base >= 2 && m <= n && x < Pow(base, m)
    ensures forall k :: 0 <= k < n - m ==> Digits(x, n, base)[k] == 0
    ensures Digits(x, n, base)[n - m..] == Digits(x, m, base)
  {
    DigitsSplit(x, n - m, m, base);
    SmallDiv(x, Pow(base, m));
    forall k | 0 <= k < n - m
      ensures Digits(x, n, base)[k] == 0
    {
      DigitsAt(0, n - m, k, base);
    }
  }

  /** On digit sequences of equal length, lexicographic order is numeric order. */
  lemma {:induction false} LexLessIsValueLess(a: seq<nat>, b: seq<nat>, base: nat)
    requires |a| == |b| && IsDigits(a, base) && IsDigits(b, base)
    ensures LexLess(a, b) <==> Value(a, base) < Value(b, base)
  {
    if |a| > 0 {
      var p := Pow(base, |a| - 1);
      ValueFront(a, base);
      ValueFront(b, base);
      ValueBound(a[1..], base);
      ValueBound(b[1..], base);
      LexLessIsValueLess(a[1..], b[1..], base);
      var ra, rb := Value(a[1..], base), Value(b[1..], base);
      if a[0] < b[0] {
        FrontDecides(a[0], b[0], ra, rb, p);
      } else if a[0] > b[0] {
        FrontDecides(b[0], a[0], rb, ra, p);
      }
    }
  }

  /** A smaller leading digit makes a smaller number, whatever follows. */
  lemma FrontDecides(d: nat, e: nat, r: nat, s: nat, p: nat)
    requires d < e && r < p
    ensures d * p + r < e * p + s
  {
    MulMonoLeft(d + 1, e, p);
  }

  /** Equal values of equal-length digit sequences mean equal sequences. */
  lemma ValueInjective(a: seq<nat>, b: seq<nat>, base: nat)
    requires base >= 2 && |a| == |b| && IsDigits(a, base) && IsDigits(b, base)
    requires Value(a, base) == Value(b, base)
    ensures a == b
  {
    DigitsOfValue(a, base);
    DigitsOfValue(b, base);
  }
}
