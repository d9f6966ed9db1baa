/** What the operations on machine words compute, as arithmetic on the numbers that the words stand for. */
module WordNumbers {
  import opened MachineWords
  import opened Powers
  import opened WordBits
  import PatternWords

  const WORDS: nat := 0x1_0000_0000

  /** The number of a word read as unsigned. */
  function Number(a: bv32): (n: nat)
    ensures n < WORDS
  {
    a as int
  }

  // ---------- Words by their last bit ----------

  lemma PushNumber(a: bv32, b: bv32)
    requires a < 0x8000_0000 && b <= 1
    ensures Number(Push(a, b)) == 2 * Number(a) + Number(b)
  {
    if b == 0 {
      assert (a << 1) | 0 == a << 1;
      assert (a << 1) as int == 2 * a as int;
    } else {
      assert b == 1;
      assert ((a << 1) | 1) as int == 2 * a as int + 1;
    }
  }

  lemma HalvedSmall(a: bv32)
    ensures Halved(a) < 0x8000_0000 && Low(a) <= 1
  {
  }

  lemma BitNumber(b: bv32)
    requires b <= 1
    ensures Number(b) == if b == 0 then 0 else 1
  {
  }

  lemma HalfNumber(a: bv32)
    ensures Number(a) == 2 * Number(Halved(a)) + Number(Low(a)) && Number(Low(a)) <= 1
  {
    Rebuilt(a);
    HalvedSmall(a);
    PushNumber(Halved(a), Low(a));
    BitNumber(Low(a));
    hide Halved, Low, Push, Number;
  }

  lemma ZeroNumber(a: bv32)
    ensures Number(a) == 0 <==> a == 0
  {
  }

  /** Words below 2^31 are those without the top bit. */
  lemma TopNumber(a: bv32)
    ensures a & 0x8000_0000 != 0 <==> Number(a) >= 0x8000_0000
  {
    TopBit(a);
    SmallWord(a);
    hide *;
  }

  lemma TopBit(a: bv32)
    ensures a & 0x8000_0000 != 0 <==> !(a < 0x8000_0000)
  {
  }

  lemma SmallWord(a: bv32)
    ensures Number(a) < 0x8000_0000 <==> a < 0x8000_0000
  {
  }

  /** The top bit apart from the others. */
  lemma TopApart(a: bv32)
    ensures a as int == (a & 0x8000_0000) as int + (a & 0x7fff_ffff) as int
  {
  }

  lemma TopAlone(a: bv32)
    ensures (a & 0x8000_0000) as int == if a & 0x8000_0000 != 0 then 0x8000_0000 else 0
  {
  }

  function WithoutTop(a: bv32): bv32 { a & 0x7fff_ffff }

  lemma TopParts(a: bv32)
    ensures Number(a) == Number(WithoutTop(a)) + if a & 0x8000_0000 != 0 then 0x8000_0000 else 0
  {
    TopApart(a);
    TopAlone(a);
  }

  lemma TopFlipped(a: bv32)
    ensures WithoutTop(Xor(a, 0x8000_0000)) == WithoutTop(a)
    ensures Xor(a, 0x8000_0000) & 0x8000_0000 != 0 <==> a & 0x8000_0000 == 0
  {
  }

  lemma FlippedTop(a: bv32)
    ensures Number(Xor(a, 0x8000_0000))
         == if Number(a) >= 0x8000_0000 then Number(a) - 0x8000_0000 else Number(a) + 0x8000_0000
  {
    TopFlipped(a);
    TopParts(a);
    TopParts(Xor(a, 0x8000_0000));
    TopNumber(a);
    hide *;
  }

  // ---------- Numbers as words ----------

  /** Every number below 2^32 is that of a word. */
  lemma {:induction false} WordOf(n: nat) returns (w: bv32)
    requires n < WORDS
    ensures Number(w) == n && (n < 0x8000_0000 ==> w < 0x8000_0000)
  {
    if n == 0 {
      w := 0;
      ZeroNumber(w);
    } else {
      hide Number, Push;
      var h := WordOf(n / 2);
      BitNumber(0);
      BitNumber(1);
      if n % 2 == 0 {
        PushNumber(h, 0);
        w := Push(h, 0);
      } else {
        PushNumber(h, 1);
        w := Push(h, 1);
      }
      SmallWord(w);
    }
  }

  lemma BackToWord(a: bv32)
    ensures Number(a) as bv32 == a
  {
    assert (a as int) as bv32 == a;
  }

  /** Conversion to a word takes a number modulo 2^32. */
  lemma ToWordNumber(x: int)
    ensures Number(ToWord(x)) == x % WORDS
  {
    var w := WordOf(x % WORDS);
    BackToWord(w);
    hide Number;
  }

  // ---------- Signed numbers ----------

  /** The signed number of a word is the one number in [-2^31, 2^31) that is congruent to the unsigned one. */
  lemma ToSignedExactly(a: bv32, x: int)
    ensures ToSigned(a) == x <==> -0x8000_0000 <= x < 0x8000_0000 && x % WORDS == Number(a)
  {
    SignedNumber(a);
    hide *;
    Representatives(Number(a), x);
  }

  lemma Representatives(n: nat, x: int)
    requires n < WORDS
    ensures (if n >= 0x8000_0000 then n - WORDS else n) == x
       <==> -0x8000_0000 <= x < 0x8000_0000 && x % WORDS == n
  {
  }

  lemma SignedOfWord(x: int)
    requires -0x8000_0000 <= x < 0x8000_0000
    ensures ToSigned(ToWord(x)) == x
  {
    ToWordNumber(x);
    ToSignedExactly(ToWord(x), x);
    hide Number, ToSigned, ToWord;
  }

  lemma SignedNumber(a: bv32)
    ensures ToSigned(a) == if Number(a) >= 0x8000_0000 then Number(a) - WORDS else Number(a)
  {
    TopNumber(a);
  }

  /** The comparison with flipped top bits is that of signed numbers. */
  lemma SignedLessExactly(a: bv32, b: bv32)
    ensures SignedLess(a, b) <==> ToSigned(a) < ToSigned(b)
  {
    SignedLessFlipped(a, b);
    FlippedTop(a);
    FlippedTop(b);
    SignedNumber(a);
    SignedNumber(b);
    hide Number, SignedLess, ToSigned, Xor;
  }

  lemma SignedLessFlipped(a: bv32, b: bv32)
    ensures SignedLess(a, b) <==> Number(Xor(a, 0x8000_0000)) < Number(Xor(b, 0x8000_0000))
  {
    hide Less, Number;
    LessNumber(Xor(a, 0x8000_0000), Xor(b, 0x8000_0000));
  }

  lemma LessNumber(a: bv32, b: bv32)
    ensures Less(a, b) <==> Number(a) < Number(b)
  {
  }

  // ---------- Complement and sums ----------

  lemma HalvedOnes(a: bv32, m: bv32)
    requires OnesBelow(m) && Inside(a, m) && m != 0
    ensures OnesBelow(Halved(m)) && Inside(Halved(a), Halved(m))
    ensures Halved(Xor(a, m)) == Xor(Halved(a), Halved(m))
    ensures Low(m) == 1 && Low(a) <= 1 && Low(Xor(a, m)) == 1 - Low(a)
  {
  }

  lemma NothingFlipped(a: bv32)
    requires Inside(a, 0)
    ensures Xor(a, 0) == a == 0
  {
  }

  lemma LowFlipped(b: bv32)
    requires b <= 1
    ensures Number(1 - b) == 1 - Number(b) && Number(1) == 1
  {
    assert b == 0 || b == 1;
  }

  lemma {:induction false} FlippedNumber(a: bv32, m: bv32)
    requires OnesBelow(m) && Inside(a, m)
    ensures Number(Xor(a, m)) == Number(m) - Number(a)
    decreases Number(m)
  {
    hide Number, Xor, Halved, Low, OnesBelow, Inside;
    ZeroNumber(m);
    if m == 0 {
      NothingFlipped(a);
    } else {
      HalvedOnes(a, m);
      HalfNumber(m);
      HalfNumber(a);
      HalfNumber(Xor(a, m));
      LowFlipped(Low(a));
      FlippedNumber(Halved(a), Halved(m));
    }
  }

  lemma AllOnes(a: bv32)
    ensures OnesBelow(0xffff_ffff) && Inside(a, 0xffff_ffff) && Number(0xffff_ffff) == WORDS - 1
    ensures Complement(a) == Xor(a, 0xffff_ffff)
  {
  }

  lemma ComplementNumber(a: bv32)
    ensures Number(Complement(a)) == WORDS - 1 - Number(a)
  {
    AllOnes(a);
    hide *;
    FlippedNumber(a, 0xffff_ffff);
  }

  // ---------- Sums ----------

  function Increment(a: bv32): bv32 { a + 1 }

  lemma HalfOfNext(a: bv32)
    requires a != 0xffff_ffff
    ensures Low(a) == 0 ==> Halved(Increment(a)) == Halved(a) && Low(Increment(a)) == 1
    ensures Low(a) != 0 ==> Halved(Increment(a)) == Increment(Halved(a)) && Low(Increment(a)) == 0 && Low(a) == 1 && Halved(a) != 0xffff_ffff
  {
  }

  lemma {:induction false} NextNumber(a: bv32)
    requires a != 0xffff_ffff
    ensures Number(Increment(a)) == Number(a) + 1
    decreases Number(a)
  {
    hide Number, Increment, Halved, Low;
    HalfOfNext(a);
    HalfNumber(a);
    HalfNumber(Increment(a));
    BitNumber(0);
    BitNumber(1);
    if Low(a) != 0 {
      NextNumber(Halved(a));
    }
  }

  lemma Greatest(a: bv32)
    ensures Number(a) == WORDS - 1 <==> a == 0xffff_ffff
  {
    if a != 0xffff_ffff {
      NextNumber(a);
    }
  }

  function Before(a: bv32): bv32 { a - 1 }

  lemma SumMoved(a: bv32, b: bv32)
    ensures Add(Increment(a), Before(b)) == Add(a, b) && Add(a, 0) == a && Increment(Before(b)) == b && Increment(0xffff_ffff) == 0
    ensures b != 0 ==> Before(b) != 0xffff_ffff
  {
  }

  /** Words are added modulo 2^32. */
  lemma {:induction false} AddNumber(a: bv32, b: bv32)
    ensures Number(Add(a, b)) == (Number(a) + Number(b)) % WORDS
    decreases Number(b)
  {
    hide Number, Add, Increment, Before;
    SumMoved(a, b);
    ZeroNumber(b);
    ZeroNumber(0);
    if b != 0 {
      Greatest(a);
      if a != 0xffff_ffff {
        NextNumber(a);
      }
      NextNumber(Before(b));
      AddNumber(Increment(a), Before(b));
    }
  }

  lemma SubUndone(a: bv32, b: bv32)
    ensures a - b + b == a
  {
    assert a - b == a + (!b + 1);
  }

  lemma AddSub(a: bv32, b: bv32)
    ensures Add(Sub(a, b), b) == a
  {
    SubUndone(a, b);
    assert Add(a - b, b) == a - b + b;
    assert Sub(a, b) == a - b;
  }

  lemma SubNumber(a: bv32, b: bv32)
    ensures Number(Sub(a, b)) == (Number(a) - Number(b)) % WORDS
  {
    hide Number, Add, Sub;
    AddSub(a, b);
    AddNumber(Sub(a, b), b);
  }

  // ---------- Shifts ----------

  lemma ShiftedOnce(a: bv32, n: bv32)
    requires n < 31
    ensures ShiftRight(a, n + 1) == Halved(ShiftRight(a, n))
  {
  }

  lemma ShiftedLeftOnce(a: bv32, n: bv32)
    requires n < 31
    ensures ShiftLeft(a, n + 1) == Double(ShiftLeft(a, n))
  {
  }

  function Double(a: bv32): bv32 { a << 1 }

  lemma DoubleNumber(a: bv32)
    ensures Number(Double(a)) == 2 * Number(a) % WORDS
  {
    assert a << 1 == a + a;
    assert Double(a) == Add(a, a);
    AddNumber(a, a);
    hide *;
  }

  lemma NotShifted(a: bv32)
    ensures ShiftRight(a, 0) == a == ShiftLeft(a, 0)
  {
  }

  /** Shift amounts, counted. */
  lemma OneLess(n: bv32)
    requires 0 < n < 32
    ensures n - 1 < 31 && n - 1 + 1 == n && Number(n - 1) == Number(n) - 1
  {
    NextNumber(n - 1);
    assert n - 1 + 1 == n;
  }

  /** A shift to the right divides by a power of two. */
  lemma {:induction false} ShiftRightNumber(a: bv32, n: bv32)
    requires n < 32
    ensures Number(ShiftRight(a, n)) == Number(a) / Pow2(Number(n))
    decreases Number(n)
  {
    hide Number, Halved, ShiftRight;
    ZeroNumber(n);
    if n == 0 {
      NotShifted(a);
    } else {
      OneLess(n);
      ShiftRightNumber(a, n - 1);
      ShiftedOnce(a, n - 1);
      HalfNumber(ShiftRight(a, n - 1));
      DivideTwice(Number(a), Pow2(Number(n - 1)));
    }
  }

  lemma DivideTwice(x: nat, p: nat)
    requires p > 0
    ensures x / p / 2 == x / (2 * p)
  {
    var q, r := x / p, x % p;
    assert x == p * q + r;
    assert q == 2 * (q / 2) + q % 2;
    assert x == (2 * p) * (q / 2) + (p * (q % 2) + r);
    assert 0 <= p * (q % 2) + r < 2 * p;
    QuotientIs(x, 2 * p, q / 2, p * (q % 2) + r);
  }

  lemma QuotientIs(x: int, d: int, q: int, r: int)
    requires x == d * q + r && 0 <= r < d
    ensures x / d == q
  {
    var e := q - x / d;
    assert x == d * (x / d) + x % d;
    assert d * e == d * q - d * (x / d);
    MultipleFar(d, e);
  }

  lemma MultipleFar(d: int, e: int)
    requires d > 0
    ensures (e >= 1 ==> d * e >= d) && (e <= -1 ==> d * e <= -d)
  {
  }

  /** A shift to the left multiplies by a power of two modulo 2^32. */
  lemma {:induction false} ShiftLeftNumber(a: bv32, n: bv32)
    requires n < 32
    ensures Number(ShiftLeft(a, n)) == Number(a) * Pow2(Number(n)) % WORDS
    decreases Number(n)
  {
    hide Number, Double, ShiftLeft;
    ZeroNumber(n);
    if n == 0 {
      NotShifted(a);
    } else {
      OneLess(n);
      ShiftLeftNumber(a, n - 1);
      ShiftedLeftOnce(a, n - 1);
      DoubleNumber(ShiftLeft(a, n - 1));
      DoubleModulo(Number(a), Pow2(Number(n - 1)));
    }
  }

  lemma DoubleModulo(x: nat, p: nat)
    ensures 2 * (x * p % WORDS) % WORDS == x * (2 * p) % WORDS
  {
    var y := x * p;
    assert x * (2 * p) == 2 * y;
    TwiceModulo(y);
  }

  lemma TwiceModulo(y: nat)
    ensures 2 * (y % WORDS) % WORDS == 2 * y % WORDS
  {
  }

  lemma ShiftPositive(a: bv32, n: bv32)
    requires n < 32 && a & 0x8000_0000 == 0
    ensures ShiftSigned(a, n) == ShiftRight(a, n)
  {
    hide Complement, ShiftRight;
  }

  lemma ShiftNegative(a: bv32, n: bv32)
    requires n < 32 && a & 0x8000_0000 != 0
    ensures ShiftSigned(a, n) == Complement(ShiftRight(Complement(a), n))
  {
    hide Complement, ShiftRight;
  }

  /** The arithmetic shift divides the signed number by a power of two, rounding down. */
  lemma ShiftSignedNumber(a: bv32, n: bv32)
    requires n < 32
    ensures ToSigned(ShiftSigned(a, n)) == ToSigned(a) / Pow2(Number(n))
  {
    hide Number, ShiftSigned, ShiftRight, ToSigned, Complement;
    var p, s := Pow2(Number(n)), ShiftSigned(a, n);
    TopNumber(a);
    SignedNumber(a);
    SignedNumber(s);
    if a & 0x8000_0000 != 0 {
      ShiftNegative(a, n);
      ComplementNumber(a);
      ShiftRightNumber(Complement(a), n);
      ComplementNumber(ShiftRight(Complement(a), n));
      DivideMirrored(Number(a) - WORDS, p);
      DivideShrinks(WORDS - 1 - Number(a), p);
    } else {
      ShiftPositive(a, n);
      ShiftRightNumber(a, n);
      DivideShrinks(Number(a), p);
    }
  }

  lemma DivideMirrored(x: int, p: int)
    requires p > 0
    ensures x / p == -1 - (-1 - x) / p
  {
    var y := -1 - x;
    var q := y / p;
    assert y == p * q + y % p;
    assert p * (-1 - q) == -p - p * q;
    QuotientIs(x, p, -1 - q, p - 1 - y % p);
  }

  lemma DivideShrinks(x: nat, p: nat)
    requires p > 0
    ensures 0 <= x / p <= x
  {
    var q := x / p;
    assert x == p * q + x % p;
    ProductGrows(p, q);
  }

  lemma ProductGrows(p: nat, q: nat)
    requires p > 0
    ensures p * q >= q
  {
    assert (p - 1) * q >= 0;
  }

  /** The number built from the bits of a word, by which patterns are matched, is that number. */
  lemma {:induction false} BitsAreNumber(i: bv32)
    ensures PatternWords.NatOf(i) == Number(i)
    decreases Number(i)
  {
    hide Number, Halved, Low, LowBit;
    ZeroNumber(i);
    if i != 0 {
      PatternWords.HalvedNumber(i);
      HalfNumber(i);
      LowNumber(i);
      BitsAreNumber(Halved(i));
    }
  }

  lemma LowNumber(i: bv32)
    ensures Number(Low(i)) == LowBit(i)
  {
    HalvedSmall(i);
    BitNumber(Low(i));
    hide Number;
    assert Low(i) == 0 || Low(i) == 1;
  }
}
