/** The fields of an instruction word and the immediates made of them, as numbers. */
module IsaFields {
  import opened MachineWords
  import opened Isa
  import opened Powers
  import opened WordBits
  import opened WordNumbers
  import opened IsaNumbers

  /** The number in the `len` bits of a word from bit `lo` on. */
  function Field(i: bv32, lo: nat, len: nat): (n: nat)
    ensures n < Pow2(len)
  {
    Number(i) / Pow2(lo) % Pow2(len)
  }

  function Part(i: bv32, lo: bv32, m: bv32): bv32
    requires lo < 32
  {
    And(ShiftRight(i, lo), m)
  }

  lemma PowerTable()
    ensures Pow2(1) == 2 && Pow2(2) == 4 && Pow2(3) == 8 && Pow2(4) == 0x10 && Pow2(5) == 0x20 && Pow2(6) == 0x40
    ensures Pow2(7) == 0x80 && Pow2(8) == 0x100 && Pow2(10) == 0x400 && Pow2(11) == 0x800 && Pow2(12) == 0x1000
    ensures Pow2(20) == 0x10_0000 && Pow2(31) == 0x8000_0000
  {
    assert Pow2(4) == 0x10;
    assert Pow2(8) == 0x100;
    assert Pow2(12) == 0x1000;
    assert Pow2(16) == 0x1_0000;
    assert Pow2(20) == 0x10_0000;
    assert Pow2(24) == 0x100_0000;
    assert Pow2(28) == 0x1000_0000;
  }

  /** A shifted and masked part of a word is a field of it. */
  lemma PartNumber(i: bv32, lo: bv32, m: bv32, len: nat)
    requires lo < 32 && OnesBelow(m) && Number(m) + 1 == Pow2(len)
    ensures Number(Part(i, lo, m)) == Field(i, Number(lo), len)
  {
    hide Number, ShiftRight, And, OnesBelow;
    ShiftRightNumber(i, lo);
    MaskedNumber(ShiftRight(i, lo), m);
  }

  lemma Masks()
    ensures OnesBelow(1) && OnesBelow(7) && OnesBelow(0xf) && OnesBelow(0x1f) && OnesBelow(0x3f) && OnesBelow(0x7f)
    ensures OnesBelow(0xff) && OnesBelow(0x7ff)
    ensures Number(1) == 1 && Number(7) == 7 && Number(0xf) == 0xf && Number(0x1f) == 0x1f && Number(0x3f) == 0x3f
    ensures Number(0x7f) == 0x7f && Number(0xff) == 0xff && Number(0x7ff) == 0x7ff
  {
  }

  lemma Positions()
    ensures Number(0) == 0 && Number(5) == 5 && Number(7) == 7 && Number(8) == 8 && Number(11) == 11 && Number(12) == 12
    ensures Number(15) == 15 && Number(20) == 20 && Number(21) == 21 && Number(25) == 25 && Number(27) == 27
    ensures Number(31) == 31
  {
  }

  /** The top bit is the field that gives an immediate its sign. */
  lemma SignField(i: bv32)
    ensures Field(i, 31, 1) == if i & 0x8000_0000 != 0 then 1 else 0
  {
    TopNumber(i);
    PowerTable();
    hide Number;
  }

  /** A field put at another place. */
  lemma ShiftedPart(p: bv32, n: bv32)
    requires n < 32 && Number(p) * Pow2(Number(n)) < WORDS
    ensures Number(ShiftLeft(p, n)) == Number(p) * Pow2(Number(n))
  {
    hide Number, ShiftLeft;
    ShiftLeftNumber(p, n);
  }

  lemma UnitsFit(f: nat, unit: nat, size: nat)
    requires f < size && size * unit < WORDS
    ensures f * unit == unit * f < WORDS
  {
    ProductBetween(unit, f, 0, size);
  }

  lemma PlacedPart(i: bv32, lo: bv32, m: bv32, len: nat, n: bv32, unit: nat)
    requires lo < 32 && n < 32 && OnesBelow(m) && Number(m) + 1 == Pow2(len)
    requires Pow2(Number(n)) == unit && (Number(m) + 1) * unit < WORDS
    ensures Number(ShiftLeft(Part(i, lo, m), n)) == unit * Field(i, Number(lo), len)
    ensures Field(i, Number(lo), len) <= Number(m)
  {
    hide Number, ShiftLeft, Part, OnesBelow, Field, Pow2;
    PartNumber(i, lo, m, len);
    UnitsFit(Field(i, Number(lo), len), unit, Number(m) + 1);
    ShiftedPart(Part(i, lo, m), n);
  }

  /** Parts without common bits, joined. */
  lemma JoinedParts(s: bv32, p: bv32, q: bv32, r: bv32)
    requires Apart(s, p) && Apart(Or(s, p), q) && Apart(Or(Or(s, p), q), r)
    ensures Number(Or(Or(Or(s, p), q), r)) == Number(s) + Number(p) + Number(q) + Number(r)
  {
    hide Number, Or, Apart;
    ApartNumber(s, p);
    ApartNumber(Or(s, p), q);
    ApartNumber(Or(Or(s, p), q), r);
  }

  // ---------- Fields ----------

  lemma FieldsAreParts(i: bv32)
    ensures Opcode(i) == Part(i, 0, 0x7f) && Funct3(i) == Part(i, 12, 7) && Funct7(i) == Part(i, 25, 0x7f)
    ensures Funct5(i) == Part(i, 27, 0x1f)
    ensures Rd(i) == Number(Part(i, 7, 0x1f)) && Rs1(i) == Number(Part(i, 15, 0x1f)) && Rs2(i) == Number(Part(i, 20, 0x1f))
  {
    assert i >> 25 == (i >> 25) & 0x7f;
    assert i >> 27 == (i >> 27) & 0x1f;
  }

  /** Opcode, function codes and registers. */
  lemma FieldNumbers(i: bv32)
    ensures Number(Opcode(i)) == Field(i, 0, 7) && Number(Funct3(i)) == Field(i, 12, 3)
    ensures Number(Funct7(i)) == Field(i, 25, 7) && Number(Funct5(i)) == Field(i, 27, 5)
    ensures Rd(i) == Field(i, 7, 5) && Rs1(i) == Field(i, 15, 5) && Rs2(i) == Field(i, 20, 5)
  {
    FieldsAreParts(i);
    Masks();
    Positions();
    PowerTable();
    hide Number, Part, Field, Opcode, Funct3, Funct7, Funct5, Rd, Rs1, Rs2, OnesBelow;
    PartNumber(i, 0, 0x7f, 7);
    PartNumber(i, 12, 7, 3);
    PartNumber(i, 25, 0x7f, 7);
    PartNumber(i, 27, 0x1f, 5);
    PartNumber(i, 7, 0x1f, 5);
    PartNumber(i, 15, 0x1f, 5);
    PartNumber(i, 20, 0x1f, 5);
  }

  // ---------- Immediates ----------

  function Sign(i: bv32, upper: bv32): bv32 {
    if i & 0x8000_0000 != 0 then upper else 0
  }

  lemma SignNumber(i: bv32, upper: bv32)
    ensures Number(Sign(i, upper)) == Field(i, 31, 1) * Number(upper)
  {
    SignField(i);
    ZeroNumber(0);
    hide Number, Field;
  }

  lemma ImmIParts(i: bv32)
    ensures var s, p := Sign(i, 0xffff_f800), Part(i, 20, 0x7ff); ImmI(i) == Or(s, p) && Apart(s, p)
  {
  }

  lemma ImmSParts(i: bv32)
    ensures var s, p, q := Sign(i, 0xffff_f800), ShiftLeft(Part(i, 25, 0x3f), 5), Part(i, 7, 0x1f);
            ImmS(i) == Or(Or(s, p), q) && Apart(s, p) && Apart(Or(s, p), q)
  {
  }

  lemma ImmBParts(i: bv32)
    ensures var s, p := Sign(i, 0xffff_f000), ShiftLeft(Part(i, 7, 1), 11);
            var q, r := ShiftLeft(Part(i, 25, 0x3f), 5), ShiftLeft(Part(i, 8, 0xf), 1);
            ImmB(i) == Or(Or(Or(s, p), q), r) && Apart(s, p) && Apart(Or(s, p), q) && Apart(Or(Or(s, p), q), r)
  {
  }

  lemma ImmJParts(i: bv32)
    ensures var s, p, q := Sign(i, 0xfff0_0000), ShiftLeft(Part(i, 12, 0xff), 12), ShiftLeft(Part(i, 20, 1), 11);
            var r, t := ShiftLeft(Part(i, 25, 0x3f), 5), ShiftLeft(Part(i, 21, 0xf), 1);
            && ImmJ(i) == Or(Or(Or(Or(s, p), q), r), t)
            && Apart(s, p) && Apart(Or(s, p), q) && Apart(Or(Or(s, p), q), r) && Apart(Or(Or(Or(s, p), q), r), t)
  {
  }

  lemma Uppers()
    ensures Number(0xffff_f800) == WORDS - 0x800 && Number(0xffff_f000) == WORDS - 0x1000
    ensures Number(0xfff0_0000) == WORDS - 0x10_0000
  {
  }

  /** A number of which the upper bits are all signs. */
  lemma SignedSum(a: bv32, s: nat, size: nat, f: nat)
    requires s <= 1 && f < size <= 0x8000_0000 && Number(a) == s * (WORDS - size) + f
    ensures ToSigned(a) == f - s * size
  {
    SignedNumber(a);
    hide Number, ToSigned;
  }

  /** The immediate of loads, register-immediate operations and JALR. */
  lemma ImmINumber(i: bv32)
    ensures ToSigned(ImmI(i)) == Field(i, 20, 11) - 0x800 * Field(i, 31, 1)
  {
    Masks();
    Positions();
    PowerTable();
    Uppers();
    ImmIParts(i);
    hide Number, ToSigned, ImmI, Or, Apart, Part, Sign, Field, OnesBelow, ShiftLeft;
    SignNumber(i, 0xffff_f800);
    PartNumber(i, 20, 0x7ff, 11);
    ApartNumber(Sign(i, 0xffff_f800), Part(i, 20, 0x7ff));
    SignedSum(ImmI(i), Field(i, 31, 1), 0x800, Field(i, 20, 11));
  }

  lemma ImmSNumber(i: bv32)
    ensures ToSigned(ImmS(i)) == 0x20 * Field(i, 25, 6) + Field(i, 7, 5) - 0x800 * Field(i, 31, 1)
  {
    Masks();
    Positions();
    PowerTable();
    Uppers();
    ImmSParts(i);
    hide Number, ToSigned, ImmS, Or, Apart, Part, Sign, Field, OnesBelow, ShiftLeft;
    var s, p, q := Sign(i, 0xffff_f800), ShiftLeft(Part(i, 25, 0x3f), 5), Part(i, 7, 0x1f);
    SignNumber(i, 0xffff_f800);
    PartNumber(i, 25, 0x3f, 6);
    PartNumber(i, 7, 0x1f, 5);
    ShiftedPart(Part(i, 25, 0x3f), 5);
    ApartNumber(s, p);
    ApartNumber(Or(s, p), q);
    SignedSum(ImmS(i), Field(i, 31, 1), 0x800, 0x20 * Field(i, 25, 6) + Field(i, 7, 5));
  }

  lemma ImmBNumber(i: bv32)
    ensures ToSigned(ImmB(i)) == 0x800 * Field(i, 7, 1) + 0x20 * Field(i, 25, 6) + 2 * Field(i, 8, 4) - 0x1000 * Field(i, 31, 1)
  {
    Masks();
    Positions();
    PowerTable();
    Uppers();
    ImmBParts(i);
    hide Number, ToSigned, ImmB, Or, Apart, Part, Sign, Field, OnesBelow, ShiftLeft;
    var s, p := Sign(i, 0xffff_f000), ShiftLeft(Part(i, 7, 1), 11);
    var q, r := ShiftLeft(Part(i, 25, 0x3f), 5), ShiftLeft(Part(i, 8, 0xf), 1);
    SignNumber(i, 0xffff_f000);
    PlacedPart(i, 7, 1, 1, 11, 0x800);
    PlacedPart(i, 25, 0x3f, 6, 5, 0x20);
    PlacedPart(i, 8, 0xf, 4, 1, 2);
    JoinedParts(s, p, q, r);
    hide Pow2;
    SignedSum(ImmB(i), Field(i, 31, 1), 0x1000, 0x800 * Field(i, 7, 1) + 0x20 * Field(i, 25, 6) + 2 * Field(i, 8, 4));
  }

  lemma ImmJNumber(i: bv32)
    ensures ToSigned(ImmJ(i))
         == 0x1000 * Field(i, 12, 8) + 0x800 * Field(i, 20, 1) + 0x20 * Field(i, 25, 6) + 2 * Field(i, 21, 4)
            - 0x10_0000 * Field(i, 31, 1)
  {
    Masks();
    Positions();
    PowerTable();
    Uppers();
    ImmJParts(i);
    hide Number, ToSigned, ImmJ, Or, Apart, Part, Sign, Field, OnesBelow, ShiftLeft;
    var s, p, q := Sign(i, 0xfff0_0000), ShiftLeft(Part(i, 12, 0xff), 12), ShiftLeft(Part(i, 20, 1), 11);
    var r, t := ShiftLeft(Part(i, 25, 0x3f), 5), ShiftLeft(Part(i, 21, 0xf), 1);
    SignNumber(i, 0xfff0_0000);
    PlacedPart(i, 12, 0xff, 8, 12, 0x1000);
    PlacedPart(i, 20, 1, 1, 11, 0x800);
    PlacedPart(i, 25, 0x3f, 6, 5, 0x20);
    PlacedPart(i, 21, 0xf, 4, 1, 2);
    JoinedParts(s, p, q, r);
    ApartNumber(Or(Or(Or(s, p), q), r), t);
    hide Pow2;
    SignedSum(ImmJ(i), Field(i, 31, 1), 0x10_0000,
      0x1000 * Field(i, 12, 8) + 0x800 * Field(i, 20, 1) + 0x20 * Field(i, 25, 6) + 2 * Field(i, 21, 4));
  }

  lemma ImmUApart(i: bv32)
    ensures Apart(ImmU(i), And(i, 0xfff))
  {
  }

  lemma ImmUJoined(i: bv32)
    ensures Or(ImmU(i), And(i, 0xfff)) == i
  {
  }

  lemma TwelveOnes()
    ensures OnesBelow(0xfff) && Number(0xfff) == 0xfff
  {
  }

  /** The upper immediate is the word without its twelve low bits. */
  lemma ImmUNumber(i: bv32)
    ensures Number(ImmU(i)) == Number(i) - Field(i, 0, 12)
  {
    PowerTable();
    TwelveOnes();
    ImmUApart(i);
    ImmUJoined(i);
    hide Number, ImmU, Or, Apart, OnesBelow, And;
    MaskedNumber(i, 0xfff);
    ApartNumber(ImmU(i), And(i, 0xfff));
  }
}
