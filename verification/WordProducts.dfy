module WordProducts {
  import opened MachineWords
  import opened Isa

  /** Reducing a product modulo 2^64 does not change its second 32-bit digit. */
  lemma HighOfWrapped(p: int)
    ensures ToWord(Wrap64(p) / 0x1_0000_0000) == High(p)
  {
    SecondDigit(p);
  }

  lemma SecondDigit(p: int)
    ensures (p % 0x1_0000_0000_0000_0000) / 0x1_0000_0000 % 0x1_0000_0000 == p / 0x1_0000_0000 % 0x1_0000_0000
  {
    var q := p / 0x1_0000_0000_0000_0000;
    var r := p % 0x1_0000_0000_0000_0000;
    assert p == (q * 0x1_0000_0000) * 0x1_0000_0000 + r;
    assert p / 0x1_0000_0000 == q * 0x1_0000_0000 + r / 0x1_0000_0000;
  }

  lemma WrappedFactor(x: int, y: int)
    ensures Wrap64(Wrap64(x) * y) == Wrap64(x * y)
  {
    var q := x / 0x1_0000_0000_0000_0000;
    assert x == q * 0x1_0000_0000_0000_0000 + Wrap64(x);
    assert x * y == (q * y) * 0x1_0000_0000_0000_0000 + Wrap64(x) * y;
    SameModulo(x * y, Wrap64(x) * y, q * y);
  }

  lemma SameModulo(x: int, y: int, q: int)
    requires x == q * 0x1_0000_0000_0000_0000 + y
    ensures Wrap64(x) == Wrap64(y)
  {
  }

  lemma MixedProduct(a: bv32, b: bv32)
    ensures HighMixed(a, b) == ComputeMulDiv(MulhsuOp, a, b)
  {
    hide ToSigned, Wrap64;
    var x, y := ToSigned(a), b as int;
    WrappedFactor(x, y);
    HighOfWrapped(x * y);
  }

  lemma UnsignedProduct(a: bv32, b: bv32)
    ensures HighUnsigned(a, b) == ComputeMulDiv(MulhuOp, a, b)
  {
    hide Wrap64;
    HighOfWrapped(a as int * b as int);
  }

  lemma SignedAsUnsigned(a: bv32)
    ensures exists k :: a as int == ToSigned(a) + k * 0x1_0000_0000
  {
    if a & 0x8000_0000 != 0 {
      assert a as int == ToSigned(a) + 1 * 0x1_0000_0000;
    } else {
      assert a as int == ToSigned(a) + 0 * 0x1_0000_0000;
    }
  }

  lemma SignedProduct(a: bv32, b: bv32)
    ensures HighSigned(a, b) == ComputeMulDiv(MulhOp, a, b)
  {
    hide ToSigned, ToWord;
  }

  /** The low word of a product is the same for signed and unsigned factors. */
  lemma LowProduct(a: bv32, b: bv32)
    ensures LowSigned(a, b) == LowUnsigned(a, b) == ComputeMulDiv(MulOp, a, b)
  {
    hide ToSigned, ToWord;
    SignedAsUnsigned(a);
    SignedAsUnsigned(b);
    var j :| a as int == ToSigned(a) + j * 0x1_0000_0000;
    var k :| b as int == ToSigned(b) + k * 0x1_0000_0000;
    LowOfSums(a as int, b as int, ToSigned(a), ToSigned(b), j, k, 0x1_0000_0000);
    SameWord(a as int * b as int, ToSigned(a) * ToSigned(b));
  }

  lemma SameWord(p: int, q: int)
    requires p % 0x1_0000_0000 == q % 0x1_0000_0000
    ensures ToWord(p) == ToWord(q)
  {
  }

  lemma LowOfSums(p: int, q: int, x: int, y: int, j: int, k: int, m: int)
    requires m > 0 && p == x + j * m && q == y + k * m
    ensures (p * q) % m == (x * y) % m
  {
    LowOfShifted(x, y, j, k, m);
  }

  lemma LowOfShifted(x: int, y: int, j: int, k: int, m: int)
    requires m > 0
    ensures ((x + j * m) * (y + k * m)) % m == (x * y) % m
  {
    Expanded(x, y, j, k, m);
    Multiples(x * y, x * k + j * y + j * k * m, m);
  }

  lemma Expanded(x: int, y: int, j: int, k: int, m: int)
    ensures (x + j * m) * (y + k * m) == x * y + (x * k + j * y + j * k * m) * m
  {
    assert (x + j * m) * (y + k * m) == x * (y + k * m) + (j * m) * (y + k * m);
    assert (j * m) * (y + k * m) == (j * y) * m + (j * k * m) * m;
    assert x * (y + k * m) == x * y + (x * k) * m;
  }

  lemma Multiples(p: int, q: int, m: int)
    requires m > 0
    ensures (p + q * m) % m == p % m
  {
    var e := p + q * m;
    assert p == (p / m) * m + p % m && e == (e / m) * m + e % m;
    var d := p / m + q - e / m;
    assert d * m == e % m - p % m;
    NoMultipleBetween(d, m);
  }

  lemma NoMultipleBetween(d: int, m: int)
    requires m > 0
    ensures -m < d * m < m ==> d == 0
  {
    if d >= 1 {
      assert d * m >= m;
    } else if d <= -1 {
      assert d * m <= -m;
    }
  }
}
