/** The instructions of the definition in terms of the numbers in registers and memory. */
module IsaNumbers {
  import opened MachineWords
  import opened Isa
  import opened Powers
  import opened WordBits
  import opened WordNumbers

  // ---------- Low bits and bits apart ----------

  lemma HalvedMask(a: bv32, m: bv32)
    requires OnesBelow(m) && m != 0
    ensures OnesBelow(Halved(m)) && Halved(And(a, m)) == And(Halved(a), Halved(m))
    ensures Low(m) == 1 && Low(And(a, m)) == Low(a)
  {
  }

  lemma MaskedByNothing(a: bv32)
    ensures And(a, 0) == 0
  {
  }

  lemma ModuloTwice(q: nat, l: nat, d: nat)
    requires l <= 1 && d > 0
    ensures (2 * q + l) % (2 * d) == 2 * (q % d) + l
  {
    assert q == d * (q / d) + q % d;
    assert 2 * q + l == (2 * d) * (q / d) + (2 * (q % d) + l);
    QuotientIs(2 * q + l, 2 * d, q / d, 2 * (q % d) + l);
  }

  /** Masking with ones below some position is taking a remainder. */
  lemma {:induction false} MaskedNumber(a: bv32, m: bv32)
    requires OnesBelow(m)
    ensures Number(And(a, m)) == Number(a) % (Number(m) + 1)
    decreases Number(m)
  {
    hide Number, And, Low, OnesBelow, Halved;
    ZeroNumber(m);
    if m == 0 {
      MaskedByNothing(a);
    } else {
      var h, k := Halved(a), Halved(m);
      HalvedMask(a, m);
      HalfNumber(a);
      HalfNumber(m);
      HalfNumber(And(a, m));
      BitNumber(1);
      MaskedNumber(h, k);
      ModuloTwice(Number(h), Number(Low(a)), Number(k) + 1);
    }
  }

  predicate Apart(a: bv32, b: bv32) {
    a & b == 0
  }

  lemma HalvedApart(a: bv32, b: bv32)
    requires Apart(a, b)
    ensures Apart(Halved(a), Halved(b))
    ensures Halved(Or(a, b)) == Or(Halved(a), Halved(b))
    ensures (Low(a) == 0 && Low(Or(a, b)) == Low(b)) || (Low(b) == 0 && Low(Or(a, b)) == Low(a))
    ensures Or(0, 0) == 0
  {
  }

  /** Words without a common bit are joined by adding them. */
  lemma {:induction false} ApartNumber(a: bv32, b: bv32)
    requires Apart(a, b)
    ensures Number(Or(a, b)) == Number(a) + Number(b)
    decreases Number(a) + Number(b)
  {
    hide Number, Or, Low, Apart, Halved;
    ZeroNumber(a);
    ZeroNumber(b);
    ZeroNumber(0);
    HalvedApart(a, b);
    if a != 0 || b != 0 {
      HalfNumber(a);
      HalfNumber(b);
      HalfNumber(Or(a, b));
      ApartNumber(Halved(a), Halved(b));
    }
  }

  /** Bit k of a word. */
  function Bit(a: bv32, k: bv32): nat
    requires k < 32
  {
    Number(a) / Pow2(Number(k)) % 2
  }

  lemma LowModulo(a: bv32)
    ensures Number(Low(a)) == Number(a) % 2
  {
    HalfNumber(a);
    hide *;
  }

  lemma BitShifted(a: bv32, k: bv32)
    requires k < 32
    ensures Bit(a, k) == Number(Low(ShiftRight(a, k)))
  {
    ShiftRightNumber(a, k);
    LowModulo(ShiftRight(a, k));
    hide Number, Low, ShiftRight;
  }

  lemma HalvedAnd(a: bv32, b: bv32)
    ensures Halved(And(a, b)) == And(Halved(a), Halved(b))
  {
  }

  lemma HalvedOr(a: bv32, b: bv32)
    ensures Halved(Or(a, b)) == Or(Halved(a), Halved(b))
  {
  }

  lemma HalvedXor(a: bv32, b: bv32)
    ensures Halved(Xor(a, b)) == Xor(Halved(a), Halved(b))
  {
  }

  lemma {:induction false} ShiftedPair(a: bv32, b: bv32, k: bv32)
    requires k < 32
    ensures ShiftRight(And(a, b), k) == And(ShiftRight(a, k), ShiftRight(b, k))
    ensures ShiftRight(Or(a, b), k) == Or(ShiftRight(a, k), ShiftRight(b, k))
    ensures ShiftRight(Xor(a, b), k) == Xor(ShiftRight(a, k), ShiftRight(b, k))
    decreases Number(k)
  {
    hide Number, ShiftRight, And, Or, Xor, Halved;
    if k == 0 {
      NotShifted(a);
      NotShifted(b);
      NotShifted(And(a, b));
      NotShifted(Or(a, b));
      NotShifted(Xor(a, b));
    } else {
      OneLess(k);
      ShiftedPair(a, b, k - 1);
      ShiftedOnce(a, k - 1);
      ShiftedOnce(b, k - 1);
      ShiftedOnce(And(a, b), k - 1);
      ShiftedOnce(Or(a, b), k - 1);
      ShiftedOnce(Xor(a, b), k - 1);
      HalvedAnd(ShiftRight(a, k - 1), ShiftRight(b, k - 1));
      HalvedOr(ShiftRight(a, k - 1), ShiftRight(b, k - 1));
      HalvedXor(ShiftRight(a, k - 1), ShiftRight(b, k - 1));
    }
  }

  lemma LowOfPair(x: bv32, y: bv32)
    ensures Low(x) <= 1 && Low(y) <= 1
    ensures Low(And(x, y)) == if Low(x) == 1 && Low(y) == 1 then 1 else 0
    ensures Low(Or(x, y)) == if Low(x) == 1 || Low(y) == 1 then 1 else 0
    ensures Low(Xor(x, y)) == if Low(x) != Low(y) then 1 else 0
  {
  }

  /** Conjunction, disjunction and exclusive or work bit by bit. */
  lemma BitwiseNumbers(a: bv32, b: bv32, k: bv32)
    requires k < 32
    ensures Bit(And(a, b), k) == if Bit(a, k) == 1 && Bit(b, k) == 1 then 1 else 0
    ensures Bit(Or(a, b), k) == if Bit(a, k) == 1 || Bit(b, k) == 1 then 1 else 0
    ensures Bit(Xor(a, b), k) == if Bit(a, k) != Bit(b, k) then 1 else 0
  {
    hide Bit, Number, Low, ShiftRight, And, Or, Xor;
    var x, y := ShiftRight(a, k), ShiftRight(b, k);
    ShiftedPair(a, b, k);
    LowOfPair(x, y);
    BitShifted(a, k);
    BitShifted(b, k);
    BitShifted(And(a, b), k);
    BitShifted(Or(a, b), k);
    BitShifted(Xor(a, b), k);
    BitNumber(Low(x));
    BitNumber(Low(y));
    BitNumber(0);
    BitNumber(1);
  }

  // ---------- Operations ----------

  lemma FiveOnes()
    ensures OnesBelow(0x1f) && Number(0x1f) == 31
  {
  }

  lemma AmountNumber(b: bv32)
    ensures Number(Amount(b)) == Number(b) % 32
  {
    FiveOnes();
    assert Amount(b) == And(b, 0x1f);
    MaskedNumber(b, 0x1f);
    hide *;
  }

  /** Sums and differences modulo 2^32, and comparisons. */
  lemma ComputeNumbers(a: bv32, b: bv32)
    ensures Number(Compute(AddOp, a, b)) == (Number(a) + Number(b)) % WORDS
    ensures Number(Compute(SubOp, a, b)) == (Number(a) - Number(b)) % WORDS
    ensures Compute(SltOp, a, b) == if ToSigned(a) < ToSigned(b) then 1 else 0
    ensures Compute(SltuOp, a, b) == if Number(a) < Number(b) then 1 else 0
  {
    AluTable(a, b);
    LessNumber(a, b);
    AddNumber(a, b);
    SubNumber(a, b);
    SignedLessExactly(a, b);
    hide *;
  }

  /** Shifts by the second operand modulo 32 multiply and divide by powers of two, the arithmetic one rounding down. */
  lemma ComputeShifts(a: bv32, b: bv32)
    ensures Number(Compute(SllOp, a, b)) == Number(a) * Pow2(Number(b) % 32) % WORDS
    ensures Number(Compute(SrlOp, a, b)) == Number(a) / Pow2(Number(b) % 32)
    ensures ToSigned(Compute(SraOp, a, b)) == ToSigned(a) / Pow2(Number(b) % 32)
  {
    AluTable(a, b);
    AmountNumber(b);
    ShiftLeftNumber(a, Amount(b));
    ShiftRightNumber(a, Amount(b));
    ShiftSignedNumber(a, Amount(b));
    hide *;
  }

  lemma ComputeBits(a: bv32, b: bv32, k: bv32)
    requires k < 32
    ensures Bit(Compute(AndOp, a, b), k) == if Bit(a, k) == 1 && Bit(b, k) == 1 then 1 else 0
    ensures Bit(Compute(OrOp, a, b), k) == if Bit(a, k) == 1 || Bit(b, k) == 1 then 1 else 0
    ensures Bit(Compute(XorOp, a, b), k) == if Bit(a, k) != Bit(b, k) then 1 else 0
  {
    AluTable(a, b);
    hide Compute, Bit, And, Or, Xor;
    BitwiseNumbers(a, b, k);
  }

  /** Branches compare the numbers. */
  lemma TakenNumbers(a: bv32, b: bv32)
    ensures Taken(Beq, a, b) <==> Number(a) == Number(b)
    ensures Taken(Bne, a, b) <==> Number(a) != Number(b)
    ensures Taken(Blt, a, b) <==> ToSigned(a) < ToSigned(b)
    ensures Taken(Bge, a, b) <==> ToSigned(a) >= ToSigned(b)
    ensures Taken(Bltu, a, b) <==> Number(a) < Number(b)
    ensures Taken(Bgeu, a, b) <==> Number(a) >= Number(b)
  {
    BranchTable(a, b);
    LessNumber(a, b);
    SameNumber(a, b);
    SignedLessExactly(a, b);
    hide *;
  }

  // ---------- Products and quotients ----------

  lemma ProductBetween(x: nat, y: int, lo: int, hi: int)
    requires lo <= y <= hi
    ensures x * lo <= x * y <= x * hi
  {
    assert x * (y - lo) >= 0 && x * (hi - y) >= 0;
  }

  lemma ProductRange(x: int, y: int)
    requires -0x8000_0000 <= x < 0x8000_0000 && -0x8000_0000 <= y < WORDS
    ensures -0x8000_0000 <= x * y / WORDS < 0x8000_0000
  {
    ProductBetween(Magnitude(x), y, -0x8000_0000, WORDS - 1);
    assert x * y == if x < 0 then -(Magnitude(x) * y) else Magnitude(x) * y;
    HighRange(x * y);
  }

  lemma HighRange(p: int)
    requires -0x8000_0000 * WORDS <= p < 0x8000_0000 * WORDS
    ensures -0x8000_0000 <= p / WORDS < 0x8000_0000
  {
  }

  function Magnitude(y: int): nat {
    if y < 0 then -y else y
  }

  /** The low and the high words of the products. */
  lemma ProductNumbers(a: bv32, b: bv32)
    ensures Number(ComputeMulDiv(MulOp, a, b)) == Number(a) * Number(b) % WORDS
    ensures ToSigned(ComputeMulDiv(MulhOp, a, b)) == ToSigned(a) * ToSigned(b) / WORDS
    ensures ToSigned(ComputeMulDiv(MulhsuOp, a, b)) == ToSigned(a) * Number(b) / WORDS
    ensures Number(ComputeMulDiv(MulhuOp, a, b)) == Number(a) * Number(b) / WORDS
  {
    var x, y, s, t := Number(a), Number(b), ToSigned(a), ToSigned(b);
    ProductWords(a, b);
    hide ComputeMulDiv, ToWord, ToSigned, Number;
    ToSignedExactly(a, s);
    ToSignedExactly(b, t);
    ToWordNumber(x * y);
    ProductRange(s, t);
    ProductRange(s, y);
    SignedOfWord(s * t / WORDS);
    SignedOfWord(s * y / WORDS);
    ToWordNumber(x * y / WORDS);
    UnsignedRange(x, y);
  }

  lemma UnsignedRange(x: nat, y: nat)
    requires x < WORDS && y < WORDS
    ensures x * y / WORDS % WORDS == x * y / WORDS
  {
    ProductBetween(x, y, 0, WORDS);
    HighUnsignedRange(x * y);
  }

  lemma HighUnsignedRange(p: nat)
    requires p < WORDS * WORDS
    ensures p / WORDS % WORDS == p / WORDS
  {
  }

  lemma ProductWords(a: bv32, b: bv32)
    ensures ComputeMulDiv(MulOp, a, b) == ToWord(Number(a) * Number(b))
    ensures ComputeMulDiv(MulhOp, a, b) == ToWord(ToSigned(a) * ToSigned(b) / WORDS)
    ensures ComputeMulDiv(MulhsuOp, a, b) == ToWord(ToSigned(a) * Number(b) / WORDS)
    ensures ComputeMulDiv(MulhuOp, a, b) == ToWord(Number(a) * Number(b) / WORDS)
  {
    hide ToWord, ToSigned;
  }

  /** Quotient and remainder of a division that rounds toward zero. */
  predicate Truncated(x: int, y: int, q: int, r: int) {
    x == y * q + r && Magnitude(r) < Magnitude(y) && (r == 0 || (r < 0) == (x < 0))
  }

  lemma ProductSigns(y: int, p: int)
    ensures y * p == if y < 0 then 0 - Magnitude(y) * p else Magnitude(y) * p
    ensures y * (0 - p) == 0 - y * p
  {
  }

  lemma QuotientSigns(x: int, y: int)
    requires y != 0
    ensures var p: int := Magnitude(x) / Magnitude(y);
            Quotient(x, y) == if (x < 0) == (y < 0) then p else 0 - p
  {
  }

  lemma QuotientTruncates(x: int, y: int)
    requires y != 0
    ensures Truncated(x, y, Quotient(x, y), Remainder(x, y))
  {
    hide Quotient;
    var m: int, n: int := Magnitude(x), Magnitude(y);
    var p := m / n;
    QuotientSigns(x, y);
    ProductSigns(y, p);
    assert m == n * p + m % n;
    assert Remainder(x, y) == if x < 0 then 0 - m % n else m % n;
  }

  lemma QuotientRange(x: int, y: int)
    requires y != 0 && -0x8000_0000 <= x < 0x8000_0000 && !(x == -0x8000_0000 && y == -1)
    ensures -0x8000_0000 <= Quotient(x, y) < 0x8000_0000
  {
    var m, n := Magnitude(x), Magnitude(y);
    assert m == n * (m / n) + m % n;
    DivideShrinks(m, n);
    if n >= 2 {
      ProductGrows(n - 1, m / n);
      assert n * (m / n) == (n - 1) * (m / n) + m / n;
    }
  }

  lemma RemainderRange(x: int, y: int)
    requires y != 0 && -0x8000_0000 <= y < 0x8000_0000
    ensures -0x8000_0000 <= Remainder(x, y) < 0x8000_0000
  {
    QuotientTruncates(x, y);
    hide Remainder, Quotient;
  }

  lemma SameNumber(a: bv32, b: bv32)
    ensures Number(a) == Number(b) <==> a == b
  {
    BackToWord(a);
    BackToWord(b);
    hide Number;
  }

  lemma Extremes()
    ensures Number(0x8000_0000) == 0x8000_0000 && Number(0xffff_ffff) == WORDS - 1 && Number(0) == 0
  {
  }

  lemma Overflowing(a: bv32, b: bv32)
    ensures a == 0x8000_0000 <==> ToSigned(a) == -0x8000_0000
    ensures b == 0xffff_ffff <==> ToSigned(b) == -1
    ensures b == 0 <==> ToSigned(b) == 0
    ensures ToSigned(0xffff_ffff) == -1 && ToSigned(0) == 0
  {
    hide Number, ToSigned;
    Extremes();
    SameNumber(a, 0x8000_0000);
    SameNumber(b, 0xffff_ffff);
    SameNumber(b, 0);
    SignedNumber(a);
    SignedNumber(b);
    SignedNumber(0xffff_ffff);
    SignedNumber(0);
  }

  /** Signed division rounds toward zero; by zero it gives -1 and the dividend as remainder, and in the one case that
      overflows the dividend and remainder zero. */
  lemma DivisionNumbers(a: bv32, b: bv32)
    ensures var q, r := ToSigned(ComputeMulDiv(DivOp, a, b)), ToSigned(ComputeMulDiv(RemOp, a, b));
            var x, y := ToSigned(a), ToSigned(b);
            if y == 0 then q == -1 && r == x
            else if x == -0x8000_0000 && y == -1 then q == x && r == 0
            else Truncated(x, y, q, r)
  {
    hide ComputeMulDiv, ToSigned, DivideSigned, RemainderSigned, Number, Quotient, Remainder, Truncated, ToWord;
    var x, y := ToSigned(a), ToSigned(b);
    DivisionTable(a, b);
    Overflowing(a, b);
    ToSignedExactly(a, x);
    ToSignedExactly(b, y);
    if b != 0 {
      SignedDivision(a, b);
      QuotientTruncates(x, y);
      RemainderRange(x, y);
      SignedOfWord(Remainder(x, y));
      if !(x == -0x8000_0000 && y == -1) {
        QuotientRange(x, y);
        SignedOfWord(Quotient(x, y));
      }
    }
  }

  lemma SignedDivision(a: bv32, b: bv32)
    requires b != 0
    ensures ToSigned(b) != 0
    ensures DivideSigned(a, b) == ToWord(Quotient(ToSigned(a), ToSigned(b)))
    ensures RemainderSigned(a, b) == ToWord(Remainder(ToSigned(a), ToSigned(b)))
  {
    hide ToWord, ToSigned, Quotient, Remainder;
    assert SignedNonzero(b) == ToSigned(b);
  }

  /** Unsigned division; by zero it gives 2^32 - 1 and the dividend as remainder. */
  lemma UnsignedDivisionNumbers(a: bv32, b: bv32)
    ensures var q, r := Number(ComputeMulDiv(DivuOp, a, b)), Number(ComputeMulDiv(RemuOp, a, b));
            var x, y := Number(a), Number(b);
            if y == 0 then q == WORDS - 1 && r == x else x == y * q + r && r < y
  {
    DivisionTable(a, b);
    ZeroNumber(b);
    Extremes();
    if b != 0 {
      UnsignedWords(a, b);
      UnsignedQuotient(Number(a), Number(b));
    }
    hide *;
  }

  lemma UnsignedWords(a: bv32, b: bv32)
    requires b != 0
    ensures Number(b) != 0
    ensures Number(DivideUnsigned(a, b)) == Quotient(Number(a), Number(b))
    ensures Number(RemainderUnsigned(a, b)) == Remainder(Number(a), Number(b))
  {
    hide DivideUnsigned, RemainderUnsigned, Number, Quotient, Remainder, ToWord;
    var x, y := Number(a), Number(b);
    UnsignedDivision(a, b);
    UnsignedQuotient(x, y);
    ToWordNumber(Quotient(x, y));
    ToWordNumber(Remainder(x, y));
  }

  lemma UnsignedQuotient(x: nat, y: nat)
    requires y != 0
    ensures var q, r := Quotient(x, y), Remainder(x, y); x == y * q + r && 0 <= r < y && 0 <= q <= x && r <= x
  {
    DivideShrinks(x, y);
    QuotientTruncates(x, y);
    hide Remainder;
    assert y * Quotient(x, y) >= 0;
  }

  lemma UnsignedDivision(a: bv32, b: bv32)
    requires b != 0
    ensures Number(b) != 0
    ensures DivideUnsigned(a, b) == ToWord(Quotient(Number(a), Number(b)))
    ensures RemainderUnsigned(a, b) == ToWord(Remainder(Number(a), Number(b)))
  {
    hide ToWord, Quotient, Remainder;
    assert Nonzero(b) == Number(b);
  }
}
