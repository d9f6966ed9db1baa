/** The pattern strings of the interpreter under test: the words that each of them selects are those that the
    comparison with a mask and a key selects. */
module PatternWords {
  import opened InstPatterns
  import opened MachineWords
  import opened Powers
  import opened WordBits

  /** The number that a word stands for. */
  function NatOf(i: bv32): nat
    decreases i
  {
    if i == 0 then 0
    else
      assert i >> 1 < i;
      2 * NatOf(i >> 1) + LowBit(i)
  }

  lemma HalvedNumber(i: bv32)
    ensures NatOf(i) == 2 * NatOf(Halved(i)) + LowBit(i) && LowBit(i) <= 1
  {
    if i == 0 {
      HalfOfNothing();
    }
  }

  lemma {:induction false} Positive(x: bv32)
    requires x != 0
    ensures NatOf(x) > 0
  {
    HalvedNumber(x);
    if x >> 1 != 0 {
      Positive(x >> 1);
    } else {
      HalfIsNothing(x);
    }
  }

  /** And of words is And of numbers. */
  lemma {:induction false} AndIsAnd(i: bv32, m: bv32)
    ensures NatOf(And(i, m)) == BitAnd(NatOf(i), NatOf(m))
    decreases NatOf(i)
  {
    if i == 0 {
      AndNothing(m);
    } else {
      hide *;
      Positive(i);
      HalvedNumber(i);
      HalvedNumber(m);
      HalvedNumber(And(i, m));
      AndIsAnd(Halved(i), Halved(m));
      HalfAnd(i, m);
      AndStepped(NatOf(i), NatOf(m), NatOf(Halved(i)), LowBit(i), NatOf(Halved(m)), LowBit(m));
    }
  }

  lemma AndStepped(x: nat, y: nat, xh: nat, xl: nat, yh: nat, yl: nat)
    requires x == 2 * xh + xl && y == 2 * yh + yl && xl <= 1 && yl <= 1
    ensures BitAnd(x, y) == 2 * BitAnd(xh, yh) + xl * yl
  {
    assert x / 2 == xh && x % 2 == xl && y / 2 == yh && y % 2 == yl;
    BitAndStep(x, y);
  }

  lemma {:induction false} NatOfInjective(x: bv32, y: bv32)
    requires NatOf(x) == NatOf(y)
    ensures x == y
    decreases NatOf(x)
  {
    if x == 0 || y == 0 {
      if x != 0 {
        Positive(x);
      }
      if y != 0 {
        Positive(y);
      }
    } else {
      hide *;
      Positive(x);
      HalvedNumber(x);
      HalvedNumber(y);
      NatOfInjective(Halved(x), Halved(y));
      SameHalves(x, y);
    }
  }

  // ---------- Key and mask as words ----------

  function KeyBitWord(c: char): bv32 {
    if c == '1' then 1 else 0
  }

  function MaskBitWord(c: char): bv32 {
    if c == '?' then 0 else 1
  }

  function KeyWord(bits: string): bv32 {
    if bits == [] then 0 else Push(KeyWord(bits[..|bits| - 1]), KeyBitWord(bits[|bits| - 1]))
  }

  function MaskWord(bits: string): bv32 {
    if bits == [] then 0 else Push(MaskWord(bits[..|bits| - 1]), MaskBitWord(bits[|bits| - 1]))
  }

  /** As many ones. */
  function Ones(n: nat): bv32 {
    if n == 0 then 0 else Push(Ones(n - 1), 1)
  }

  lemma {:induction false} OnesInRow(n: nat)
    ensures OnesBelow(Ones(n))
  {
    if n == 0 {
      NothingInside(0);
    } else {
      OnesInRow(n - 1);
      hide Push, OnesBelow;
      PushOnes(Ones(n - 1));
    }
  }

  lemma OnesValues()
    ensures Ones(32) == 0xffff_ffff && Roomy(Ones(31))
  {
    assert Ones(3) == 0x7;
    assert Ones(6) == 0x3f;
    assert Ones(9) == 0x1ff;
    assert Ones(12) == 0xfff;
    assert Ones(15) == 0x7fff;
    assert Ones(18) == 0x3_ffff;
    assert Ones(21) == 0x1f_ffff;
    assert Ones(24) == 0xff_ffff;
    assert Ones(27) == 0x7ff_ffff;
    assert Ones(30) == 0x3fff_ffff;
  }

  lemma {:induction false} OnesFit(n: nat)
    requires n <= 31
    ensures Roomy(Ones(n))
    decreases 31 - n
  {
    if n == 31 {
      OnesValues();
    } else {
      OnesFit(n + 1);
      OnesInRow(n);
      hide Push, OnesBelow, Roomy;
      PushOnes(Ones(n));
    }
  }

  /** One more position. */
  lemma LastBit(bits: string)
    requires bits != []
    ensures var init, c := bits[..|bits| - 1], bits[|bits| - 1];
            && MaskWord(bits) == Push(MaskWord(init), MaskBitWord(c))
            && KeyWord(bits) == Push(KeyWord(init), KeyBitWord(c))
            && Ones(|bits|) == Push(Ones(|init|), 1)
            && Mask(bits) == 2 * Mask(init) + MaskBit(c) && Key(bits) == 2 * Key(init) + KeyBit(c)
            && IsBit(MaskBitWord(c)) && IsBit(KeyBitWord(c))
            && LowBit(MaskBitWord(c)) == MaskBit(c) && LowBit(KeyBitWord(c)) == KeyBit(c)
  {
    hide Push;
  }

  lemma {:induction false} WordsFit(bits: string)
    ensures Inside(MaskWord(bits), Ones(|bits|)) && Inside(KeyWord(bits), Ones(|bits|))
  {
    if bits == [] {
      NothingInside(Ones(0));
    } else {
      hide *;
      var init, c := bits[..|bits| - 1], bits[|bits| - 1];
      LastBit(bits);
      WordsFit(init);
      PushInside(MaskWord(init), Ones(|init|), MaskBitWord(c));
      PushInside(KeyWord(init), Ones(|init|), KeyBitWord(c));
    }
  }

  lemma {:induction false} WordsAreNumbers(bits: string)
    requires |bits| <= 32
    ensures NatOf(MaskWord(bits)) == Mask(bits) && NatOf(KeyWord(bits)) == Key(bits)
  {
    if bits != [] {
      hide *;
      var init, c := bits[..|bits| - 1], bits[|bits| - 1];
      WordsAreNumbers(init);
      LastBit(bits);
      WordsFit(init);
      OnesFit(|init|);
      PushedNumber(MaskWord(init), Ones(|init|), MaskBitWord(c));
      PushedNumber(KeyWord(init), Ones(|init|), KeyBitWord(c));
    }
  }

  lemma PushedNumber(x: bv32, ones: bv32, b: bv32)
    requires Inside(x, ones) && Roomy(ones) && IsBit(b)
    ensures NatOf(Push(x, b)) == 2 * NatOf(x) + LowBit(b)
  {
    hide *;
    InsideRoomy(x, ones);
    HalfPush(x, b);
    HalvedNumber(Push(x, b));
  }

  /** Masked, the word is the key. */
  predicate Selected(i: bv32, mask: bv32, key: bv32) {
    i & mask == key
  }

  /** A word matches a pattern of at most 32 positions if and only if, masked, it is the key. */
  lemma MatchesWord(bits: string, i: bv32)
    requires AllBits(bits) && |bits| <= 32
    ensures Matches(bits, NatOf(i)) <==> Selected(i, MaskWord(bits), KeyWord(bits))
  {
    hide MaskWord, KeyWord, NatOf, BitAnd, Mask, Key, And;
    MaskedIsKey(bits, NatOf(i));
    WordsAreNumbers(bits);
    AndIsAnd(i, MaskWord(bits));
    SelectedNumber(i, MaskWord(bits), KeyWord(bits));
  }

  lemma SelectedNumber(i: bv32, mask: bv32, key: bv32)
    ensures Selected(i, mask, key) <==> NatOf(And(i, mask)) == NatOf(key)
  {
    hide NatOf;
    if NatOf(And(i, mask)) == NatOf(key) {
      NatOfInjective(And(i, mask), key);
    }
  }

  // ---------- Strings field by field ----------

  lemma {:induction false} StripAppend(a: string, b: string)
    ensures Strip(a + b) == Strip(a) + Strip(b)
  {
    if b == [] {
      assert a + b == a;
    } else {
      assert (a + b)[..|a + b| - 1] == a + b[..|b| - 1];
      StripAppend(a, b[..|b| - 1]);
    }
  }

  lemma {:induction false} StripBits(bits: string)
    requires AllBits(bits)
    ensures Strip(bits) == bits
  {
    if bits != [] {
      StripBits(bits[..|bits| - 1]);
      assert bits[..|bits| - 1] + [bits[|bits| - 1]] == bits;
    }
  }

  /** A field and the space before it. */
  lemma {:induction false} StripField(a: string, bits: string)
    requires AllBits(bits)
    ensures Strip(a + " " + bits) == Strip(a) + bits
  {
    StripSpace();
    StripBits(bits);
    hide Strip, AllBits;
    StripAppend(a + " ", bits);
    StripAppend(a, " ");
    assert Strip(a) + [] == Strip(a);
  }

  lemma StripSpace()
    ensures Strip(" ") == []
  {
  }

  lemma {:induction false} AppendWord(a: string, b: string)
    requires |b| <= 5
    ensures MaskWord(a + b) == Or(Shift(MaskWord(a), |b|), MaskWord(b))
    ensures KeyWord(a + b) == Or(Shift(KeyWord(a), |b|), KeyWord(b))
  {
    hide Push, Or, MaskBitWord, KeyBitWord, Shift;
    if b == [] {
      assert a + b == a;
      OrNothing(MaskWord(a));
      OrNothing(KeyWord(a));
    } else {
      var init, c := b[..|b| - 1], b[|b| - 1];
      AppendWord(a, init);
      assert (a + b)[..|a + b| - 1] == a + init && (a + b)[|a + b| - 1] == c;
      PushOr(Shift(MaskWord(a), |init|), MaskWord(init), MaskBitWord(c));
      PushOr(Shift(KeyWord(a), |init|), KeyWord(init), KeyBitWord(c));
      PushShift(MaskWord(a), |init|);
      PushShift(KeyWord(a), |init|);
    }
  }

  // ---------- The table ----------

  /** The fields of an instruction word, highest first: the two parts of funct7, rs2, rs1, funct3, rd and the two
      parts of the opcode. */
  datatype Fields = Fields(high: string, low: string, rs2: string, rs1: string, f3: string, rd: string, op: string) {
    predicate Valid() {
      && |high| == |rs2| == |rs1| == |rd| == |op| == 5 && |low| == 2 && |f3| == 3
      && AllBits(high) && AllBits(low) && AllBits(rs2) && AllBits(rs1) && AllBits(f3) && AllBits(rd) && AllBits(op)
    }

    function Bits(): string {
      high + low + rs2 + rs1 + f3 + rd + op + "11"
    }

    /** The pattern as it is written in the table; AMO patterns have one more space. */
    function Text(space: string): string {
      high + space + low + " " + rs2 + " " + rs1 + " " + f3 + " " + rd + " " + op + " " + "11"
    }
  }

  lemma TextIsBits(f: Fields, space: string)
    requires f.Valid() && space in {"", " "}
    ensures Strip(f.Text(space)) == f.Bits() && AllBits(f.Bits()) && |f.Bits()| == 32
  {
    hide Strip;
    var a := f.high + space + f.low;
    if space == "" {
      assert a == f.high + f.low;
      StripAppend(f.high, f.low);
      StripBits(f.high);
      StripBits(f.low);
    } else {
      StripField(f.high, f.low);
      StripBits(f.high);
    }
    var b := a + " " + f.rs2;
    StripField(a, f.rs2);
    var c := b + " " + f.rs1;
    StripField(b, f.rs1);
    var d := c + " " + f.f3;
    StripField(c, f.f3);
    var e := d + " " + f.rd;
    StripField(d, f.rd);
    StripField(e, f.op);
    StripField(e + " " + f.op, "11");
  }

  lemma One(c: char)
    ensures MaskWord([c]) == MaskBitWord(c) && KeyWord([c]) == KeyBitWord(c)
  {
    assert [c][..0] == [];
    assert Push(0, MaskBitWord(c)) == MaskBitWord(c) && Push(0, KeyBitWord(c)) == KeyBitWord(c);
  }

  lemma {:induction false} Two(b: string)
    requires |b| == 2
    ensures MaskWord(b) == Push(MaskBitWord(b[0]), MaskBitWord(b[1]))
    ensures KeyWord(b) == Push(KeyBitWord(b[0]), KeyBitWord(b[1]))
  {
    hide Push;
    assert b[..1] == [b[0]];
    One(b[0]);
  }

  lemma Three(b: string)
    requires |b| == 3
    ensures MaskWord(b) == Push(Push(MaskBitWord(b[0]), MaskBitWord(b[1])), MaskBitWord(b[2]))
    ensures KeyWord(b) == Push(Push(KeyBitWord(b[0]), KeyBitWord(b[1])), KeyBitWord(b[2]))
  {
    hide Push;
    Two(b[..2]);
  }

  lemma Five(b: string)
    requires |b| == 5
    ensures MaskWord(b) == Push(Push(Push(Push(MaskBitWord(b[0]), MaskBitWord(b[1])), MaskBitWord(b[2])),
                                     MaskBitWord(b[3])), MaskBitWord(b[4]))
    ensures KeyWord(b) == Push(Push(Push(Push(KeyBitWord(b[0]), KeyBitWord(b[1])), KeyBitWord(b[2])),
                                    KeyBitWord(b[3])), KeyBitWord(b[4]))
  {
    hide Push;
    Three(b[..3]);
    assert b[..4][..3] == b[..3];
    assert MaskWord(b[..4]) == Push(MaskWord(b[..3]), MaskBitWord(b[3]));
    assert KeyWord(b[..4]) == Push(KeyWord(b[..3]), KeyBitWord(b[3]));
  }

  lemma TwoBitFields()
    ensures KeyWord("??") == 0 && MaskWord("??") == 0
    ensures KeyWord("00") == 0 && MaskWord("00") == 3
    ensures KeyWord("01") == 1 && MaskWord("01") == 3
    ensures KeyWord("0?") == 0 && MaskWord("0?") == 2
  {
    Two("??");
    Two("00");
    Two("01");
    Two("0?");
  }

  lemma ThreeBitFields()
    ensures KeyWord("???") == 0 && MaskWord("???") == 0
    ensures KeyWord("000") == 0 && MaskWord("000") == 7
    ensures KeyWord("001") == 1 && MaskWord("001") == 7
    ensures KeyWord("010") == 2 && MaskWord("010") == 7
    ensures KeyWord("011") == 3 && MaskWord("011") == 7
    ensures KeyWord("100") == 4 && MaskWord("100") == 7
    ensures KeyWord("101") == 5 && MaskWord("101") == 7
    ensures KeyWord("110") == 6 && MaskWord("110") == 7
    ensures KeyWord("111") == 7 && MaskWord("111") == 7
  {
    Three("???");
    Three("000");
    Three("001");
    Three("010");
    Three("011");
    Three("100");
    Three("101");
    Three("110");
    Three("111");
  }

  lemma FiveBitFields()
    ensures KeyWord("?????") == 0 && MaskWord("?????") == 0
    ensures KeyWord("01101") == 0xd && MaskWord("01101") == 0x1f
    ensures KeyWord("00101") == 5 && MaskWord("00101") == 0x1f
    ensures KeyWord("11011") == 0x1b && MaskWord("11011") == 0x1f
    ensures KeyWord("11001") == 0x19 && MaskWord("11001") == 0x1f
    ensures KeyWord("11000") == 0x18 && MaskWord("11000") == 0x1f
    ensures KeyWord("00000") == 0 && MaskWord("00000") == 0x1f
    ensures KeyWord("01000") == 8 && MaskWord("01000") == 0x1f
    ensures KeyWord("00100") == 4 && MaskWord("00100") == 0x1f
    ensures KeyWord("0000?") == 0 && MaskWord("0000?") == 0x1e
    ensures KeyWord("01100") == 0xc && MaskWord("01100") == 0x1f
    ensures KeyWord("01011") == 0xb && MaskWord("01011") == 0x1f
    ensures KeyWord("00011") == 3 && MaskWord("00011") == 0x1f
    ensures KeyWord("00001") == 1 && MaskWord("00001") == 0x1f
    ensures KeyWord("10000") == 0x10 && MaskWord("10000") == 0x1f
    ensures KeyWord("10100") == 0x14 && MaskWord("10100") == 0x1f
    ensures KeyWord("11100") == 0x1c && MaskWord("11100") == 0x1f
  {
    Five("?????");
    Five("01101");
    Five("00101");
    Five("11011");
    Five("11001");
    Five("11000");
    Five("00000");
    Five("01000");
    Five("00100");
    Five("0000?");
    Five("01100");
    Five("01011");
    Five("00011");
    Five("00001");
    Five("10000");
    Five("10100");
    Five("11100");
  }

  /** Field values put next to each other. */
  function Laid(high: bv32, low: bv32, rs2: bv32, rs1: bv32, f3: bv32, rd: bv32, op: bv32): bv32 {
    var a := Or(Shift(high, 2), low);
    var b := Or(Shift(a, 5), rs2);
    var c := Or(Shift(b, 5), rs1);
    var d := Or(Shift(c, 3), f3);
    var e := Or(Shift(d, 5), rd);
    Or(Shift(Or(Shift(e, 5), op), 2), 3)
  }

  function MaskOf(f: Fields): bv32 {
    Flat(MaskWord(f.high), MaskWord(f.low), MaskWord(f.rs2), MaskWord(f.rs1), MaskWord(f.f3), MaskWord(f.rd), MaskWord(f.op))
  }

  function KeyOf(f: Fields): bv32 {
    Flat(KeyWord(f.high), KeyWord(f.low), KeyWord(f.rs2), KeyWord(f.rs1), KeyWord(f.f3), KeyWord(f.rd), KeyWord(f.op))
  }

  /** Where the fields come to stand. */
  lemma LaidFlat(high: bv32, low: bv32, rs2: bv32, rs1: bv32, f3: bv32, rd: bv32, op: bv32)
    ensures Laid(high, low, rs2, rs1, f3, rd, op) == Flat(high, low, rs2, rs1, f3, rd, op)
  {
    LaidRaw(high, low, rs2, rs1, f3, rd, op);
  }

  lemma BitsAreLaid(f: Fields)
    requires f.Valid()
    ensures MaskWord(f.Bits()) == MaskOf(f) && KeyWord(f.Bits()) == KeyOf(f)
  {
    LaidFlat(MaskWord(f.high), MaskWord(f.low), MaskWord(f.rs2), MaskWord(f.rs1), MaskWord(f.f3), MaskWord(f.rd),
             MaskWord(f.op));
    LaidFlat(KeyWord(f.high), KeyWord(f.low), KeyWord(f.rs2), KeyWord(f.rs1), KeyWord(f.f3), KeyWord(f.rd),
             KeyWord(f.op));
    hide MaskWord, KeyWord, Or, Shift, Flat;
    AppendWord(f.high, f.low);
    AppendWord(f.high + f.low, f.rs2);
    AppendWord(f.high + f.low + f.rs2, f.rs1);
    AppendWord(f.high + f.low + f.rs2 + f.rs1, f.f3);
    AppendWord(f.high + f.low + f.rs2 + f.rs1 + f.f3, f.rd);
    AppendWord(f.high + f.low + f.rs2 + f.rs1 + f.f3 + f.rd, f.op);
    AppendWord(f.high + f.low + f.rs2 + f.rs1 + f.f3 + f.rd + f.op, "11");
    LastField();
  }

  lemma LastField()
    ensures MaskWord("11") == KeyWord("11") == 3
  {
    Two("11");
  }

  /** The pattern selects the word: what the test of the table decides. */
  predicate Selects(pattern: string, i: bv32) {
    Matches(Strip(pattern), NatOf(i))
  }

  lemma Entry(f: Fields, space: string, i: bv32, mask: bv32, key: bv32)
    requires f.Valid() && space in {"", " "} && MaskOf(f) == mask && KeyOf(f) == key
    ensures Selects(f.Text(space), i) <==> Selected(i, mask, key)
  {
    hide MaskOf, KeyOf, MaskWord, KeyWord, Strip, Matches, NatOf, Selected;
    TextIsBits(f, space);
    BitsAreLaid(f);
    MatchesWord(f.Bits(), i);
  }

  /** Patterns that fix the opcode, the opcode and funct3, and all or some of funct7 too. */
  function Upper(op: string): Fields {
    Fields("?????", "??", "?????", "?????", "???", "?????", op)
  }

  function Immediate(f3: string, op: string): Fields {
    Fields("?????", "??", "?????", "?????", f3, "?????", op)
  }

  function Register(high: string, low: string, f3: string, op: string): Fields {
    Fields(high, low, "?????", "?????", f3, "?????", op)
  }

  // ---------- The test of the table ----------

  lemma {:induction false} Bounded(i: bv32, n: nat)
    requires n <= 32 && Inside(i, Ones(n))
    ensures NatOf(i) < Pow2(n)
  {
    if n == 0 {
      InsideNothing(i);
    } else {
      assert Ones(n) == Push(Ones(n - 1), 1) && Pow2(n) == 2 * Pow2(n - 1);
      hide *;
      OnesFit(n - 1);
      HalfInside(i, Ones(n - 1));
      Bounded(Halved(i), n - 1);
      HalvedNumber(i);
    }
  }

  lemma AllInside(i: bv32)
    ensures Inside(i, Ones(32))
  {
    OnesValues();
    assert i & 0 == 0;
  }

  /** The table's test of a word selects by mask and key. */
  method TableTest(pattern: string, i: bv32) returns (matched: bool)
    requires |pattern| < 64 && Legal(pattern)
    ensures matched <==> Selects(pattern, i)
  {
    AllInside(i);
    Bounded(i, 32);
    Pow2Of32();
    matched := InstMatches(pattern, NatOf(i));
  }
}
