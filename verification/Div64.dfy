/** Division of a 64-bit number by a 32-bit one by shifting and subtracting. */
module Div64 {
  import opened Powers

  newtype uint32 = x: int | 0 <= x < 0x1_0000_0000
  newtype uint64 = x: int | 0 <= x < 0x1_0000_0000_0000_0000

  lemma TimesAtLeast(a: nat, b: nat)
    requires a >= 1
    ensures b <= a * b
  {
    if b > 0 {
      assert a * b == b + (a - 1) * b;
    }
  }

  lemma AddTerm(res: nat, d: nat, base: nat, rem: nat, b: nat)
    requires b == base * d && rem >= b
    ensures (res + d) * base + (rem - b) == res * base + rem
  {
    assert (res + d) * base == res * base + d * base;
  }

  /** Reduces the upper half: what is left of the dividend, and the upper half of the quotient. */
  method ReduceHigh(n: uint64, base: uint32) returns (res: uint64, rem: uint64)
    requires base != 0
    ensures res as int * base as int + rem as int == n as int
    ensures rem as int < base as int * 0x1_0000_0000
  {
    rem := n;
    res := 0;
    var high: uint32 := (rem / 0x1_0000_0000) as uint32;
    if high >= base {
      ghost var full := high as int;
      high := high / base;
      var q, b := high as int, base as int;
      assert q * b <= full < q * b + b;
      res := high as uint64 * 0x1_0000_0000;
      var product: uint32 := high * base;
      rem := rem - product as uint64 * 0x1_0000_0000;
      assert res as int * b == q * b * 0x1_0000_0000;
    }
  }

  /** Doubles divisor and digit together until the divisor reaches what is left or the sign bit. */
  method Align(base: uint32, rem: uint64) returns (b: uint64, d: uint64, ghost k: nat)
    requires base != 0
    ensures d as int == Pow2(k) && b as int == base as int * d as int && b > 0
    ensures rem as int < 2 * b as int
  {
    b, d, k := base as uint64, 1, 0;
    while b != 0 && b < 0x8000_0000_0000_0000 && b < rem
      invariant d as int == Pow2(k) && b as int == base as int * d as int && b > 0
      decreases 0x1_0000_0000_0000_0000 - b as int
    {
      TimesAtLeast(base as int, d as int);
      assert base as int * (2 * d as int) == 2 * (base as int * d as int);
      b := b + b;
      d := d + d;
      k := k + 1;
    }
  }

  /** One digit: subtracts the divisor if it fits. */
  method Digit(base: uint32, b: uint64, d: uint64, res: uint64, rem: uint64) returns (res': uint64, rem': uint64)
    requires base != 0 && b as int == base as int * d as int && rem as int < 2 * b as int
    requires res as int * base as int + rem as int < 0x1_0000_0000_0000_0000
    ensures res' as int * base as int + rem' as int == res as int * base as int + rem as int
    ensures rem' < b
  {
    res', rem' := res, rem;
    if rem >= b {
      AddTerm(res as int, d as int, base as int, rem as int, b as int);
      TimesAtLeast(base as int, res as int + d as int);
      assert (res as int + d as int) * base as int == base as int * (res as int + d as int);
      rem' := rem - b;
      res' := res + d;
    }
  }

  lemma Halve(base: nat, b: nat, k: nat)
    requires b == base * Pow2(k)
    ensures k == 0 ==> Pow2(k) / 2 == 0
    ensures k > 0 ==> Pow2(k) / 2 == Pow2(k - 1) && b / 2 == base * Pow2(k - 1) && b == 2 * (b / 2)
  {
    if k > 0 {
      assert base * (2 * Pow2(k - 1)) == 2 * (base * Pow2(k - 1));
    }
  }

  /** Quotient and remainder for every dividend and every nonzero base.  The types are the machine's: every
      operation of the body is proved to stay within them. */
  method Divide(n: uint64, base: uint32) returns (res: uint64, rem: uint64)
    requires base != 0
    ensures n as int == res as int * base as int + rem as int && rem as int < base as int
    ensures res as int == n as int / base as int && rem as int == n as int % base as int
  {
    res, rem := ReduceHigh(n, base);
    var b, d;
    ghost var k: nat;
    b, d, k := Align(base, rem);
    while true
      invariant d as int == Pow2(k) && b as int == base as int * d as int
      invariant rem as int < 2 * b as int
      invariant res as int * base as int + rem as int == n as int
      decreases k
    {
      res, rem := Digit(base, b, d, res, rem);
      Halve(base as int, b as int, k);
      b := b / 2;
      d := d / 2;
      if d == 0 {
        break;
      }
      k := k - 1;
    }
    DivideUnique(n as int, base as int, res as int, rem as int);
  }

  lemma NoSmallerQuotient(base: nat, q: nat, r: nat, q': nat, r': nat)
    requires q * base + r == q' * base + r' && r < base
    ensures q' <= q
  {
    if q < q' {
      var gap := q' - q;
      assert q' * base == q * base + gap * base;
      TimesAtLeast(gap, base);
    }
  }

  /** Quotient and remainder are determined. */
  lemma DivideUnique(n: nat, base: nat, q: nat, r: nat)
    requires n == q * base + r && r < base
    ensures q == n / base && r == n % base
  {
    var q', r' := n / base, n % base;
    assert n == q' * base + r';
    NoSmallerQuotient(base, q, r, q', r');
    NoSmallerQuotient(base, q', r', q, r);
  }
}
