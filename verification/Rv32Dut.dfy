/** The interpreter under test: instruction patterns tried in order, operands decoded by type, and a next
    program counter that starts as the following instruction and is overwritten by jumps. */
module Rv32Dut {
  import opened MachineWords
  import opened Isa
  import opened WordProducts

  // ---------- Immediates: bit fields put together and sign-extended ----------

  function DutImmI(i: bv32): bv32 {
    var x := (i >> 20) & 0xfff;
    if x & 0x800 != 0 then x | 0xffff_f000 else x
  }

  function DutImmU(i: bv32): bv32 {
    var x := (i >> 12) & 0xf_ffff;
    (if x & 0x8_0000 != 0 then x | 0xfff0_0000 else x) << 12
  }

  function DutImmS(i: bv32): bv32 {
    var x := (i >> 25) & 0x7f;
    ((if x & 0x40 != 0 then x | 0xffff_ff80 else x) << 5) | ((i >> 7) & 0x1f)
  }

  function DutFieldB(i: bv32): bv32 {
    (((i >> 31) & 1) << 12) | (((i >> 7) & 1) << 11) | (((i >> 25) & 0x3f) << 5) | (((i >> 8) & 0xf) << 1)
  }

  function DutImmB(i: bv32): bv32 {
    var x := DutFieldB(i);
    if x & 0x1000 != 0 then x | 0xffff_e000 else x
  }

  function DutFieldJ(i: bv32): bv32 {
    (((i >> 31) & 1) << 20) | (((i >> 12) & 0xff) << 12) | (((i >> 20) & 1) << 11) | (((i >> 25) & 0x3f) << 5)
    | (((i >> 21) & 0xf) << 1)
  }

  function DutImmJ(i: bv32): bv32 {
    var x := DutFieldJ(i);
    if x & 0x10_0000 != 0 then x | 0xffe0_0000 else x
  }

  // Sign extension of a branch offset and of loaded bytes, half-words and words.

  function Sext13(x: bv32): bv32 {
    if x & 0x1000 != 0 then x | 0xffff_e000 else x & 0x1fff
  }

  function Sext(w: Width, x: bv32): bv32 {
    match w
    case Byte => if x & 0x80 != 0 then x | 0xffff_ff00 else x & 0xff
    case Half => if x & 0x8000 != 0 then x | 0xffff_0000 else x & 0xffff
    case Word => x
  }

  lemma ImmIAgrees(i: bv32)
    ensures DutImmI(i) == ImmI(i)
  {
    assert (var x := (i >> 20) & 0xfff; if x & 0x800 != 0 then x | 0xffff_f000 else x)
        == (if i & 0x8000_0000 != 0 then 0xffff_f800 else 0) | ((i >> 20) & 0x7ff);
  }

  lemma ImmUAgrees(i: bv32)
    ensures DutImmU(i) == ImmU(i)
  {
    assert (var x := (i >> 12) & 0xf_ffff; (if x & 0x8_0000 != 0 then x | 0xfff0_0000 else x) << 12) == i & 0xffff_f000;
  }

  lemma ImmSAgrees(i: bv32)
    ensures DutImmS(i) == ImmS(i)
  {
    assert (var x := (i >> 25) & 0x7f; ((if x & 0x40 != 0 then x | 0xffff_ff80 else x) << 5) | ((i >> 7) & 0x1f))
        == (if i & 0x8000_0000 != 0 then 0xffff_f800 else 0) | (((i >> 25) & 0x3f) << 5) | ((i >> 7) & 0x1f);
  }

  lemma ImmBAgrees(i: bv32)
    ensures DutImmB(i) == ImmB(i)
  {
    hide ImmB, DutFieldB;
    SignOfB(i);
    if i & 0x8000_0000 == 0 {
      PositiveB(i);
    } else {
      NegativeB(i);
    }
  }

  lemma SignOfB(i: bv32)
    ensures DutFieldB(i) & 0x1000 != 0 <==> i & 0x8000_0000 != 0
  {
  }

  lemma PositiveB(i: bv32)
    requires i & 0x8000_0000 == 0
    ensures DutFieldB(i) == ImmB(i) && ImmB(i) & 0x1000 == 0 && ImmB(i) & 0x1fff == ImmB(i)
  {
  }

  lemma NegativeB(i: bv32)
    requires i & 0x8000_0000 != 0
    ensures DutFieldB(i) | 0xffff_e000 == ImmB(i) && ImmB(i) & 0x1000 != 0 && ImmB(i) | 0xffff_e000 == ImmB(i)
  {
  }

  lemma ImmBFits(i: bv32)
    ensures Sext13(ImmB(i)) == ImmB(i)
  {
    hide ImmB, DutFieldB;
    if i & 0x8000_0000 == 0 {
      PositiveB(i);
    } else {
      NegativeB(i);
    }
  }

  lemma ImmJAgrees(i: bv32)
    ensures DutImmJ(i) == ImmJ(i)
  {
    hide ImmJ, DutFieldJ;
    SignOfJ(i);
    if i & 0x8000_0000 == 0 {
      PositiveJ(i);
    } else {
      NegativeJ(i);
    }
  }

  lemma SignOfJ(i: bv32)
    ensures DutFieldJ(i) & 0x10_0000 != 0 <==> i & 0x8000_0000 != 0
  {
  }

  lemma PositiveJ(i: bv32)
    requires i & 0x8000_0000 == 0
    ensures DutFieldJ(i) == ImmJ(i)
  {
  }

  lemma NegativeJ(i: bv32)
    requires i & 0x8000_0000 != 0
    ensures DutFieldJ(i) | 0xffe0_0000 == ImmJ(i)
  {
  }

  // ---------- Addresses ----------

  /** in_pmem looks at the first byte of an access only. */
  predicate Mapped(c: Config, address: bv32) {
    Offset(address) as int < c.ramSize
  }

  lemma InRamIsMapped(c: Config, address: bv32, w: Width)
    requires InRam(c, address, w)
    ensures Mapped(c, address)
  {
    hide Offset;
  }

  lemma WordAligned(c: Config, address: bv32)
    requires !Unaligned4(address)
    ensures Aligned(c, address, Word)
  {
  }

  lemma BytesExtend(m: Memory, offset: bv32, w: Width)
    ensures var v := LoadMemory(m, offset, w);
            Sext(w, v) == Extend(w, true, v)
  {
    hide ByteAt, LoadHalf, LoadWord;
    ByteMasked(m, offset);
    HalfMasked(m, offset);
  }

  function Stored(m: Memory, offset: bv32): bv8 {
    if offset as int in m then m[offset as int] else 0
  }

  lemma ByteMasked(m: Memory, offset: bv32)
    ensures ByteAt(m, offset) & 0xff == ByteAt(m, offset)
  {
    var y := Stored(m, offset);
    assert (y as bv32) & 0xff == y as bv32;
    assert ByteAt(m, offset) == y as bv32;
  }

  lemma HalfMasked(m: Memory, offset: bv32)
    ensures LoadHalf(m, offset) & 0xffff == LoadHalf(m, offset)
  {
    var y, z := Stored(m, offset), Stored(m, offset + 1);
    assert ByteAt(m, offset) == y as bv32 && ByteAt(m, offset + 1) == z as bv32;
    HalfMask(y, z);
  }

  lemma HalfMask(y: bv8, z: bv8)
    ensures ((y as bv32) | ((z as bv32) << 8)) & 0xffff == (y as bv32) | ((z as bv32) << 8)
  {
  }

  // ---------- The patterns of decode_exec ----------

  lemma JumpPatterns(i: bv32)
    ensures i & 0x7f == 0x37 ==> Decode(i) == Lui(Rd(i), ImmU(i))
    ensures i & 0x7f == 0x17 ==> Decode(i) == Auipc(Rd(i), ImmU(i))
    ensures i & 0x7f == 0x6f ==> Decode(i) == Jal(Rd(i), ImmJ(i))
    ensures i & 0x707f == 0x67 ==> Decode(i) == Jalr(Rd(i), Rs1(i), ImmI(i))
  {
    hide Rd, Rs1, Rs2, ImmI, ImmJ, ImmU, ImmB, ImmS;
  }

  lemma JumpPatternsComplete(i: bv32)
    ensures Decode(i).Lui? ==> i & 0x7f == 0x37
    ensures Decode(i).Auipc? ==> i & 0x7f == 0x17
    ensures Decode(i).Jal? ==> i & 0x7f == 0x6f
    ensures Decode(i).Jalr? ==> i & 0x707f == 0x67
  {
    hide Rd, Rs1, Rs2, ImmI, ImmJ, ImmU, ImmB, ImmS;
  }

  lemma BranchPatterns(i: bv32)
    ensures i & 0x707f == 0x0063 ==> Decode(i) == Branch(Beq, Rs1(i), Rs2(i), ImmB(i))
    ensures i & 0x707f == 0x1063 ==> Decode(i) == Branch(Bne, Rs1(i), Rs2(i), ImmB(i))
    ensures i & 0x707f == 0x4063 ==> Decode(i) == Branch(Blt, Rs1(i), Rs2(i), ImmB(i))
    ensures i & 0x707f == 0x5063 ==> Decode(i) == Branch(Bge, Rs1(i), Rs2(i), ImmB(i))
    ensures i & 0x707f == 0x6063 ==> Decode(i) == Branch(Bltu, Rs1(i), Rs2(i), ImmB(i))
    ensures i & 0x707f == 0x7063 ==> Decode(i) == Branch(Bgeu, Rs1(i), Rs2(i), ImmB(i))
  {
    hide Rd, Rs1, Rs2, ImmI, ImmJ, ImmU, ImmB, ImmS;
  }

  lemma BranchPatternsComplete(i: bv32)
    requires Decode(i).Branch?
    ensures i & 0x707f in {0x0063, 0x1063, 0x4063, 0x5063, 0x6063, 0x7063}
  {
    hide Rd, Rs1, Rs2, ImmI, ImmJ, ImmU, ImmB, ImmS;
  }

  lemma LoadPatterns(i: bv32)
    ensures i & 0x707f == 0x0003 ==> Decode(i) == Load(Byte, true, Rd(i), Rs1(i), ImmI(i))
    ensures i & 0x707f == 0x1003 ==> Decode(i) == Load(Half, true, Rd(i), Rs1(i), ImmI(i))
    ensures i & 0x707f == 0x2003 ==> Decode(i) == Load(Word, true, Rd(i), Rs1(i), ImmI(i))
    ensures i & 0x707f == 0x4003 ==> Decode(i) == Load(Byte, false, Rd(i), Rs1(i), ImmI(i))
    ensures i & 0x707f == 0x5003 ==> Decode(i) == Load(Half, false, Rd(i), Rs1(i), ImmI(i))
  {
    hide Rd, Rs1, Rs2, ImmI, ImmJ, ImmU, ImmB, ImmS;
  }

  lemma LoadPatternsComplete(i: bv32)
    requires Decode(i).Load?
    ensures i & 0x707f in {0x0003, 0x1003, 0x2003, 0x4003, 0x5003}
  {
    hide Rd, Rs1, Rs2, ImmI, ImmJ, ImmU, ImmB, ImmS;
  }

  lemma StorePatterns(i: bv32)
    ensures i & 0x707f == 0x0023 ==> Decode(i) == Store(Byte, Rs1(i), Rs2(i), ImmS(i))
    ensures i & 0x707f == 0x1023 ==> Decode(i) == Store(Half, Rs1(i), Rs2(i), ImmS(i))
    ensures i & 0x707f == 0x2023 ==> Decode(i) == Store(Word, Rs1(i), Rs2(i), ImmS(i))
  {
    hide Rd, Rs1, Rs2, ImmI, ImmJ, ImmU, ImmB, ImmS;
  }

  lemma StorePatternsComplete(i: bv32)
    requires Decode(i).Store?
    ensures i & 0x707f in {0x0023, 0x1023, 0x2023}
  {
    hide Rd, Rs1, Rs2, ImmI, ImmJ, ImmU, ImmB, ImmS;
  }

  lemma OpImmPatterns(i: bv32)
    ensures i & 0x707f == 0x0013 ==> Decode(i) == OpImm(AddOp, Rd(i), Rs1(i), ImmI(i))
    ensures i & 0x707f == 0x2013 ==> Decode(i) == OpImm(SltOp, Rd(i), Rs1(i), ImmI(i))
    ensures i & 0x707f == 0x3013 ==> Decode(i) == OpImm(SltuOp, Rd(i), Rs1(i), ImmI(i))
    ensures i & 0x707f == 0x4013 ==> Decode(i) == OpImm(XorOp, Rd(i), Rs1(i), ImmI(i))
    ensures i & 0x707f == 0x6013 ==> Decode(i) == OpImm(OrOp, Rd(i), Rs1(i), ImmI(i))
    ensures i & 0x707f == 0x7013 ==> Decode(i) == OpImm(AndOp, Rd(i), Rs1(i), ImmI(i))
    ensures i & 0xfe00_707f == 0x0000_5013 ==> Decode(i) == OpImm(SrlOp, Rd(i), Rs1(i), ImmI(i))
    ensures i & 0xfe00_707f == 0x4000_5013 ==> Decode(i) == OpImm(SraOp, Rd(i), Rs1(i), ImmI(i))
  {
    hide Rd, Rs1, Rs2, ImmI, ImmJ, ImmU, ImmB, ImmS;
  }

  /** The pattern of slli leaves one bit of the shift amount free; when it is set the word is illegal. */
  lemma SlliPattern(i: bv32)
    requires i & 0xfc00_707f == 0x1013
    ensures Decode(i) == if ImmI(i) & 0x20 != 0 then Other else OpImm(SllOp, Rd(i), Rs1(i), ImmI(i))
  {
    hide Rd, Rs1, Rs2, ImmJ, ImmU, ImmB, ImmS;
  }

  lemma SlliAmount(i: bv32)
    requires i & 0xfc00_707f == 0x1013 && ImmI(i) & 0x20 == 0
    ensures ImmI(i) & 0x7f == Amount(ImmI(i))
  {
  }

  lemma ShiftRightAmount(i: bv32)
    requires i & 0xbe00_707f == 0x5013
    ensures ImmI(i) & 0x3f == Amount(ImmI(i))
  {
  }

  lemma OpImmPatternsComplete(i: bv32)
    requires Decode(i).OpImm?
    ensures i & 0x707f in {0x0013, 0x2013, 0x3013, 0x4013, 0x6013, 0x7013} || i & 0xfc00_707f == 0x1013
            || i & 0xfe00_707f in {0x0000_5013, 0x4000_5013}
  {
    hide Rd, Rs1, Rs2, ImmI, ImmJ, ImmU, ImmB, ImmS;
  }

  lemma OpPatterns(i: bv32)
    ensures i & 0xfe00_707f == 0x0000_0033 ==> Decode(i) == Op(AddOp, Rd(i), Rs1(i), Rs2(i))
    ensures i & 0xfe00_707f == 0x4000_0033 ==> Decode(i) == Op(SubOp, Rd(i), Rs1(i), Rs2(i))
    ensures i & 0xfe00_707f == 0x0000_1033 ==> Decode(i) == Op(SllOp, Rd(i), Rs1(i), Rs2(i))
    ensures i & 0xfe00_707f == 0x0000_2033 ==> Decode(i) == Op(SltOp, Rd(i), Rs1(i), Rs2(i))
    ensures i & 0xfe00_707f == 0x0000_3033 ==> Decode(i) == Op(SltuOp, Rd(i), Rs1(i), Rs2(i))
    ensures i & 0xfe00_707f == 0x0000_4033 ==> Decode(i) == Op(XorOp, Rd(i), Rs1(i), Rs2(i))
    ensures i & 0xfe00_707f == 0x0000_5033 ==> Decode(i) == Op(SrlOp, Rd(i), Rs1(i), Rs2(i))
    ensures i & 0xfe00_707f == 0x4000_5033 ==> Decode(i) == Op(SraOp, Rd(i), Rs1(i), Rs2(i))
    ensures i & 0xfe00_707f == 0x0000_6033 ==> Decode(i) == Op(OrOp, Rd(i), Rs1(i), Rs2(i))
    ensures i & 0xfe00_707f == 0x0000_7033 ==> Decode(i) == Op(AndOp, Rd(i), Rs1(i), Rs2(i))
  {
    hide Rd, Rs1, Rs2, ImmI, ImmJ, ImmU, ImmB, ImmS;
  }

  lemma OpPatternsComplete(i: bv32)
    requires Decode(i).Op?
    ensures i & 0xfe00_707f in {0x0000_0033, 0x4000_0033, 0x0000_1033, 0x0000_2033, 0x0000_3033,
                                0x0000_4033, 0x0000_5033, 0x4000_5033, 0x0000_6033, 0x0000_7033}
  {
    hide Rd, Rs1, Rs2, ImmI, ImmJ, ImmU, ImmB, ImmS;
  }

  lemma MulDivPatterns(i: bv32)
    ensures i & 0xfe00_707f == 0x0200_0033 ==> Decode(i) == MulDiv(MulOp, Rd(i), Rs1(i), Rs2(i))
    ensures i & 0xfe00_707f == 0x0200_1033 ==> Decode(i) == MulDiv(MulhOp, Rd(i), Rs1(i), Rs2(i))
    ensures i & 0xfe00_707f == 0x0200_2033 ==> Decode(i) == MulDiv(MulhsuOp, Rd(i), Rs1(i), Rs2(i))
    ensures i & 0xfe00_707f == 0x0200_3033 ==> Decode(i) == MulDiv(MulhuOp, Rd(i), Rs1(i), Rs2(i))
    ensures i & 0xfe00_707f == 0x0200_4033 ==> Decode(i) == MulDiv(DivOp, Rd(i), Rs1(i), Rs2(i))
    ensures i & 0xfe00_707f == 0x0200_5033 ==> Decode(i) == MulDiv(DivuOp, Rd(i), Rs1(i), Rs2(i))
    ensures i & 0xfe00_707f == 0x0200_6033 ==> Decode(i) == MulDiv(RemOp, Rd(i), Rs1(i), Rs2(i))
    ensures i & 0xfe00_707f == 0x0200_7033 ==> Decode(i) == MulDiv(RemuOp, Rd(i), Rs1(i), Rs2(i))
  {
    hide Rd, Rs1, Rs2, ImmI, ImmJ, ImmU, ImmB, ImmS;
  }

  lemma MulDivPatternsComplete(i: bv32)
    requires Decode(i).MulDiv?
    ensures i & 0xfe00_707f in {0x0200_0033, 0x0200_1033, 0x0200_2033, 0x0200_3033,
                                0x0200_4033, 0x0200_5033, 0x0200_6033, 0x0200_7033}
  {
    hide Rd, Rs1, Rs2, ImmI, ImmJ, ImmU, ImmB, ImmS;
  }

  lemma AmoPatterns(i: bv32)
    ensures i & 0xf800_707f == 0x0800_202f ==> Decode(i) == Amo(SwapAmo, Rd(i), Rs1(i), Rs2(i))
    ensures i & 0xf800_707f == 0x0000_202f ==> Decode(i) == Amo(AddAmo, Rd(i), Rs1(i), Rs2(i))
    ensures i & 0xf800_707f == 0x2000_202f ==> Decode(i) == Amo(XorAmo, Rd(i), Rs1(i), Rs2(i))
    ensures i & 0xf800_707f == 0x6000_202f ==> Decode(i) == Amo(AndAmo, Rd(i), Rs1(i), Rs2(i))
    ensures i & 0xf800_707f == 0x4000_202f ==> Decode(i) == Amo(OrAmo, Rd(i), Rs1(i), Rs2(i))
    ensures i & 0xf800_707f == 0x8000_202f ==> Decode(i) == Amo(MinAmo, Rd(i), Rs1(i), Rs2(i))
    ensures i & 0xf800_707f == 0xa000_202f ==> Decode(i) == Amo(MaxAmo, Rd(i), Rs1(i), Rs2(i))
    ensures i & 0xf800_707f == 0xc000_202f ==> Decode(i) == Amo(MinuAmo, Rd(i), Rs1(i), Rs2(i))
    ensures i & 0xf800_707f == 0xe000_202f ==> Decode(i) == Amo(MaxuAmo, Rd(i), Rs1(i), Rs2(i))
  {
    hide Rd, Rs1, Rs2, ImmI, ImmJ, ImmU, ImmB, ImmS;
  }

  lemma AmoPatternsComplete(i: bv32)
    requires Decode(i).Amo?
    ensures i & 0xf800_707f in {0x0800_202f, 0x0000_202f, 0x2000_202f, 0x6000_202f, 0x4000_202f,
                                0x8000_202f, 0xa000_202f, 0xc000_202f, 0xe000_202f}
  {
    hide Rd, Rs1, Rs2, ImmI, ImmJ, ImmU, ImmB, ImmS;
  }

  /** The two fence patterns: they ask for zeros where the instruction set ignores the fields. */
  predicate PlainFence(i: bv32) {
    i & 0xf00f_ffff == 0x0f || i == 0x100f
  }

  lemma FencePatterns(i: bv32)
    ensures PlainFence(i) ==> Decode(i) == Fence
  {
    hide Rd, Rs1, Rs2, ImmI, ImmJ, ImmU, ImmB, ImmS;
  }

  /** The words the interpreter executes: all that the definition knows but the other fences. */
  predicate Recognised(i: bv32) {
    Decode(i) == Fence ==> PlainFence(i)
  }

  datatype OperandType = TypeI | TypeU | TypeS | TypeJ | TypeB | TypeR | TypeN

  class Dut {
    const c: Config
    var gpr: seq<bv32>
    var pc: bv32
    var mem: Memory
    /** The next program counter, and whether an exception is pending. */
    var dnpc: bv32
    var exception: bool

    constructor (c: Config, s: State)
      requires ValidState(s)
      ensures this.c == c && Ready() && Current() == s && !exception
    {
      this.c := c;
      gpr, pc, mem := s.regs, s.pc, s.mem;
      dnpc, exception := 0, false;
    }

    function Current(): State
      reads this
    {
      State(gpr, pc, mem)
    }

    ghost predicate Ready()
      reads this
    {
      ValidState(Current())
    }

    /** The state an instruction leaves behind: register zero is reset and the next counter becomes current. */
    ghost function After(): State
      requires |gpr| == 32
      reads this
    {
      State(gpr[0 := 0], dnpc, mem)
    }

    /** An instruction is about to be executed. */
    ghost predicate Decoding()
      reads this
    {
      Ready() && dnpc == Add(pc, 4) && !exception
    }

    /** From state s the instruction was executed as defined, unless it is one the definition excludes. */
    ghost predicate Executed(s: State, d: Instr)
      requires ValidState(s)
      reads this
    {
      var r := Execute(c, s, d);
      |gpr| == 32 && pc == s.pc && (r.Retired? ==> !exception && After() == r.s)
    }

    /** decode_operand: the destination, the source values, and the immediate in the layout of the type. */
    method DecodeOperand(i: bv32, ty: OperandType) returns (rd: Reg, src1: bv32, src2: bv32, imm: bv32)
      requires |gpr| == 32
      ensures rd == Rd(i)
      ensures ty in {TypeI, TypeS, TypeB, TypeR} ==> src1 == gpr[Rs1(i)]
      ensures ty in {TypeS, TypeB, TypeR} ==> src2 == gpr[Rs2(i)]
      ensures ty == TypeI ==> imm == ImmI(i)
      ensures ty == TypeS ==> imm == ImmS(i)
      ensures ty == TypeB ==> imm == ImmB(i)
      ensures ty == TypeU ==> imm == ImmU(i)
      ensures ty == TypeJ ==> imm == ImmJ(i)
    {
      hide *;
      rd, src1, src2, imm := Rd(i), 0, 0, 0;
      var rs1, rs2 := Rs1(i), Rs2(i);
      match ty
      case TypeI =>
        src1, imm := gpr[rs1], DutImmI(i);
        ImmIAgrees(i);
      case TypeU =>
        imm := DutImmU(i);
        ImmUAgrees(i);
      case TypeJ =>
        imm := DutImmJ(i);
        ImmJAgrees(i);
      case TypeS =>
        src1, src2, imm := gpr[rs1], gpr[rs2], DutImmS(i);
        ImmSAgrees(i);
      case TypeB =>
        src1, src2, imm := gpr[rs1], gpr[rs2], DutImmB(i);
        ImmBAgrees(i);
      case TypeR =>
        src1, src2 := gpr[rs1], gpr[rs2];
      case TypeN =>
    }

    /** Assignment to a register; register zero is reset only after the instruction. */
    method SetReg(rd: Reg, v: bv32)
      requires |gpr| == 32
      modifies this`gpr
      ensures |gpr| == 32 && gpr == old(gpr)[rd := v]
      ensures old(gpr)[0] == 0 ==> gpr[0 := 0] == Write(old(gpr), rd, v)
    {
      gpr := gpr[rd := v];
    }

    /** Assignment to a register as the whole effect of instruction d. */
    method SetResult(rd: Reg, v: bv32, ghost d: Instr)
      requires Decoding() && Execute(c, Current(), d) == Retired(Next(Current(), rd, v))
      modifies this`gpr
      ensures Executed(old(Current()), d)
    {
      hide Execute, Add;
      SetReg(rd, v);
    }

    /** The result of an arithmetic instruction i. */
    method SetAlu(rd: Reg, v: bv32, ghost i: bv32, ghost alu: Alu)
      requires Decoding()
      requires || (Decode(i) == OpImm(alu, rd, Rs1(i), ImmI(i)) && v == Compute(alu, gpr[Rs1(i)], ImmI(i)))
               || (Decode(i) == Op(alu, rd, Rs1(i), Rs2(i)) && v == Compute(alu, gpr[Rs1(i)], gpr[Rs2(i)]))
      modifies this`gpr
      ensures Executed(old(Current()), Decode(i))
    {
      hide Decode, Execute, Executed, Compute, Rs1, Rs2, ImmI;
      AluInstructions(c, Current(), alu, rd, Rs1(i), Rs2(i), ImmI(i));
      SetResult(rd, v, Decode(i));
    }

    /** The result of a multiplication or division i. */
    method SetMulDiv(rd: Reg, v: bv32, ghost i: bv32, ghost m: MulDivOp)
      requires Decoding()
      requires Decode(i) == MulDiv(m, rd, Rs1(i), Rs2(i)) && v == ComputeMulDiv(m, gpr[Rs1(i)], gpr[Rs2(i)])
      modifies this`gpr
      ensures Executed(old(Current()), Decode(i))
    {
      hide Decode, Execute, Executed, ComputeMulDiv, Rs1, Rs2;
      MulDivInstructions(c, Current(), m, rd, Rs1(i), Rs2(i));
      SetResult(rd, v, Decode(i));
    }

    /** A taken branch: the target is checked for alignment. */
    method CheckedJump(target: bv32)
      modifies this`dnpc, this`exception
      ensures !Unaligned4(target) ==> dnpc == target && exception == old(exception)
    {
      if Unaligned4(target) {
        exception := true;
      } else {
        dnpc := target;
      }
    }

    lemma Reachable(address: bv32)
      ensures forall w :: InRam(c, address, w) ==> Mapped(c, address)
    {
      forall w | InRam(c, address, w) ensures Mapped(c, address) {
        InRamIsMapped(c, address, w);
      }
    }

    /** Mr: a misaligned read raises an exception and gives zero, as does one outside RAM. */
    method ReadMemory(address: bv32, w: Width) returns (v: bv32)
      modifies this`exception
      ensures Mapped(c, address) && Aligned(c, address, w) ==>
                exception == old(exception) && v == LoadMemory(mem, Offset(address), w)
    {
      hide *;
      v := 0;
      if !Aligned(c, address, w) {
        exception := true;
      } else if Mapped(c, address) {
        v := LoadMemory(mem, Offset(address), w);
      }
    }

    method WriteMemory(address: bv32, w: Width, v: bv32)
      modifies this`exception, this`mem
      ensures Mapped(c, address) && Aligned(c, address, w) ==>
                exception == old(exception) && mem == StoreMemory(old(mem), Offset(address), w, v)
    {
      hide *;
      if !Aligned(c, address, w) {
        exception := true;
      } else if Mapped(c, address) {
        mem := StoreMemory(mem, Offset(address), w, v);
      }
    }

    /** lui, auipc, jal and jalr. */
    method ExecUpperAndJumps(i: bv32) returns (matched: bool)
      requires Decoding()
      modifies this
      ensures var d := Decode(i); d.Lui? || d.Auipc? || d.Jal? || d.Jalr? ==> matched
      ensures if matched then Executed(old(Current()), Decode(i)) else Decoding() && Current() == old(Current())
      ensures matched ==> !Decode(i).Fence?
    {
      hide Decode, Rd, Rs1, ImmI, ImmJ, ImmU, Add, Unaligned4, ClearLowBit;
      JumpPatterns(i);
      matched := true;
      if i & 0x7f == 0x37 {
        var rd, _, _, imm := DecodeOperand(i, TypeU);
        SetReg(rd, imm);
      } else if i & 0x7f == 0x17 {
        var rd, _, _, imm := DecodeOperand(i, TypeU);
        SetReg(rd, Add(pc, imm));
      } else if i & 0x7f == 0x6f {
        var rd, _, _, imm := DecodeOperand(i, TypeJ);
        if Unaligned4(Add(pc, imm)) {
          exception := true;
        } else {
          SetReg(rd, Add(pc, 4));
          dnpc := Add(pc, imm);
        }
      } else if i & 0x707f == 0x67 {
        var rd, src1, _, imm := DecodeOperand(i, TypeI);
        var target := ClearLowBit(Add(src1, imm));
        if Unaligned4(target) {
          exception := true;
          SetReg(rd, 0);
        } else {
          dnpc := target;
          SetReg(rd, Add(pc, 4));
        }
      } else {
        matched := false;
        JumpPatternsComplete(i);
      }
    }

    method ExecBranches(i: bv32) returns (matched: bool)
      requires Decoding()
      modifies this
      ensures Decode(i).Branch? ==> matched
      ensures if matched then Executed(old(Current()), Decode(i)) else Decoding() && Current() == old(Current())
      ensures matched ==> !Decode(i).Fence?
    {
      hide Decode, Execute, Taken, Rs1, Rs2, ImmB, Sext13, Add, Less, SignedLess, Unaligned4;
      BranchPatterns(i);
      if Decode(i).Branch? {
        BranchInstructions(c, Current(), Decode(i));
      }
      matched := true;
      var _, src1, src2, imm := DecodeOperand(i, TypeB);
      BranchTable(src1, src2);
      var target := Add(pc, Sext13(imm));
      ImmBFits(i);
      assert gpr[0 := 0] == gpr;
      if i & 0x707f == 0x0063 {
        if src1 == src2 {
          CheckedJump(target);
        }
      } else if i & 0x707f == 0x1063 {
        if src1 != src2 {
          CheckedJump(target);
        }
      } else if i & 0x707f == 0x4063 {
        if SignedLess(src1, src2) {
          CheckedJump(target);
        }
      } else if i & 0x707f == 0x5063 {
        if !SignedLess(src1, src2) {
          CheckedJump(target);
        }
      } else if i & 0x707f == 0x6063 {
        if Less(src1, src2) {
          CheckedJump(target);
        }
      } else if i & 0x707f == 0x7063 {
        if !Less(src1, src2) {
          CheckedJump(target);
        }
      } else {
        matched := false;
        if Decode(i).Branch? {
          BranchPatternsComplete(i);
        }
      }
    }

    method ExecLoads(i: bv32) returns (matched: bool)
      requires Decoding()
      modifies this
      ensures Decode(i).Load? ==> matched
      ensures if matched then Executed(old(Current()), Decode(i)) else Decoding() && Current() == old(Current())
      ensures matched ==> !Decode(i).Fence?
    {
      hide Decode, Rd, Rs1, ImmI, Add, Offset, Mapped, InRam, Aligned, LoadMemory, Sext;
      LoadPatterns(i);
      matched := true;
      var rd, src1, _, imm := DecodeOperand(i, TypeI);
      var address := Add(src1, imm);
      Reachable(address);
      if i & 0x707f == 0x0003 {
        var v := ReadMemory(address, Byte);
        BytesExtend(mem, Offset(address), Byte);
        SetReg(rd, Sext(Byte, v));
      } else if i & 0x707f == 0x1003 {
        var v := ReadMemory(address, Half);
        BytesExtend(mem, Offset(address), Half);
        SetReg(rd, Sext(Half, v));
      } else if i & 0x707f == 0x2003 {
        var v := ReadMemory(address, Word);
        BytesExtend(mem, Offset(address), Word);
        SetReg(rd, Sext(Word, v));
      } else if i & 0x707f == 0x4003 {
        var v := ReadMemory(address, Byte);
        SetReg(rd, v);
      } else if i & 0x707f == 0x5003 {
        var v := ReadMemory(address, Half);
        SetReg(rd, v);
      } else {
        matched := false;
        if Decode(i).Load? {
          LoadPatternsComplete(i);
        }
      }
    }

    method ExecStores(i: bv32) returns (matched: bool)
      requires Decoding()
      modifies this
      ensures Decode(i).Store? ==> matched
      ensures if matched then Executed(old(Current()), Decode(i)) else Decoding() && Current() == old(Current())
      ensures matched ==> !Decode(i).Fence?
    {
      hide Decode, Rs1, Rs2, ImmS, Add, Offset, Mapped, InRam, Aligned, StoreMemory;
      StorePatterns(i);
      matched := true;
      var _, src1, src2, imm := DecodeOperand(i, TypeS);
      var address := Add(src1, imm);
      Reachable(address);
      assert gpr[0 := 0] == gpr;
      if i & 0x707f == 0x0023 {
        WriteMemory(address, Byte, src2);
      } else if i & 0x707f == 0x1023 {
        WriteMemory(address, Half, src2);
      } else if i & 0x707f == 0x2023 {
        WriteMemory(address, Word, src2);
      } else {
        matched := false;
        if Decode(i).Store? {
          StorePatternsComplete(i);
        }
      }
    }

    method ExecOpImm(i: bv32) returns (matched: bool)
      requires Decoding()
      modifies this
      ensures Decode(i).OpImm? ==> matched
      ensures if matched then Executed(old(Current()), Decode(i)) else Decoding() && Current() == old(Current())
      ensures matched ==> !Decode(i).Fence?
    {
      hide Decode, Execute, Executed, Compute, Rd, Rs1, ImmI, Add, And, Or, Xor, Less, SignedLess;
      OpImmPatterns(i);
      matched := true;
      var rd, src1, _, imm := DecodeOperand(i, TypeI);
      AluTable(src1, imm);
      if i & 0x707f == 0x0013 {
        SetAlu(rd, Add(src1, imm), i, AddOp);
      } else if i & 0x707f == 0x2013 {
        SetAlu(rd, if SignedLess(src1, imm) then 1 else 0, i, SltOp);
      } else if i & 0x707f == 0x3013 {
        SetAlu(rd, if Less(src1, imm) then 1 else 0, i, SltuOp);
      } else if i & 0x707f == 0x4013 {
        SetAlu(rd, Xor(src1, imm), i, XorOp);
      } else if i & 0x707f == 0x6013 {
        SetAlu(rd, Or(src1, imm), i, OrOp);
      } else if i & 0x707f == 0x7013 {
        SetAlu(rd, And(src1, imm), i, AndOp);
      } else {
        matched := ExecShiftImm(i, rd, src1, imm);
        if !matched && Decode(i).OpImm? {
          OpImmPatternsComplete(i);
        }
      }
    }

    method ExecShiftImm(i: bv32, rd: Reg, src1: bv32, imm: bv32) returns (matched: bool)
      requires Decoding() && rd == Rd(i) && src1 == gpr[Rs1(i)] && imm == ImmI(i)
      modifies this
      ensures i & 0xfc00_707f == 0x1013 || i & 0xfe00_707f in {0x0000_5013, 0x4000_5013} ==> matched
      ensures if matched then Executed(old(Current()), Decode(i)) else Decoding() && Current() == old(Current())
      ensures matched ==> !Decode(i).Fence?
    {
      hide Decode, Compute, Rd, Rs1, ImmI, ShiftLeft, ShiftRight, ShiftSigned, Amount;
      OpImmPatterns(i);
      matched := true;
      AluTable(src1, imm);
      if i & 0xfc00_707f == 0x1013 {
        SlliPattern(i);
        if imm & 0x20 != 0 {
          exception := true;
        } else {
          SlliAmount(i);
          SetAlu(rd, ShiftLeft(src1, imm & 0x7f), i, SllOp);
        }
      } else if i & 0xfe00_707f == 0x5013 {
        ShiftRightAmount(i);
        SetAlu(rd, ShiftRight(src1, imm & 0x3f), i, SrlOp);
      } else if i & 0xfe00_707f == 0x4000_5013 {
        ShiftRightAmount(i);
        SetAlu(rd, ShiftSigned(src1, imm & 0x3f), i, SraOp);
      } else {
        matched := false;
      }
    }

    method ExecOp(i: bv32) returns (matched: bool)
      requires Decoding()
      modifies this
      ensures Decode(i).Op? ==> matched
      ensures if matched then Executed(old(Current()), Decode(i)) else Decoding() && Current() == old(Current())
      ensures matched ==> !Decode(i).Fence?
    {
      hide Decode, Execute, Executed, Rd, Rs1, Rs2;
      var rd, src1, src2, _ := DecodeOperand(i, TypeR);
      matched := ExecSums(i, rd, src1, src2);
      if !matched {
        matched := ExecBitwise(i, rd, src1, src2);
        if !matched && Decode(i).Op? {
          OpPatternsComplete(i);
        }
      }
    }

    method ExecSums(i: bv32, rd: Reg, src1: bv32, src2: bv32) returns (matched: bool)
      requires Decoding() && rd == Rd(i) && src1 == gpr[Rs1(i)] && src2 == gpr[Rs2(i)]
      modifies this
      ensures i & 0xfe00_707f in {0x0000_0033, 0x4000_0033, 0x0000_1033, 0x0000_2033, 0x0000_3033} ==> matched
      ensures if matched then Executed(old(Current()), Decode(i)) else Decoding() && Current() == old(Current())
      ensures matched ==> !Decode(i).Fence?
    {
      hide Decode, Execute, Executed, Compute, Rd, Rs1, Rs2, Add, Sub, Less, SignedLess, ShiftLeft, Amount;
      OpPatterns(i);
      matched := true;
      var p := i & 0xfe00_707f;
      AluTable(src1, src2);
      if p == 0x0000_0033 {
        SetAlu(rd, Add(src1, src2), i, AddOp);
      } else if p == 0x4000_0033 {
        SetAlu(rd, Sub(src1, src2), i, SubOp);
      } else if p == 0x0000_1033 {
        SetAlu(rd, ShiftLeft(src1, Amount(src2)), i, SllOp);
      } else if p == 0x0000_2033 {
        SetAlu(rd, if SignedLess(src1, src2) then 1 else 0, i, SltOp);
      } else if p == 0x0000_3033 {
        SetAlu(rd, if Less(src1, src2) then 1 else 0, i, SltuOp);
      } else {
        matched := false;
      }
    }

    method ExecBitwise(i: bv32, rd: Reg, src1: bv32, src2: bv32) returns (matched: bool)
      requires Decoding() && rd == Rd(i) && src1 == gpr[Rs1(i)] && src2 == gpr[Rs2(i)]
      modifies this
      ensures i & 0xfe00_707f in {0x0000_4033, 0x0000_5033, 0x4000_5033, 0x0000_6033, 0x0000_7033} ==> matched
      ensures if matched then Executed(old(Current()), Decode(i)) else Decoding() && Current() == old(Current())
      ensures matched ==> !Decode(i).Fence?
    {
      hide Decode, Execute, Executed, Compute, Rd, Rs1, Rs2, And, Or, Xor, ShiftRight, ShiftSigned, Amount;
      OpPatterns(i);
      matched := true;
      var p := i & 0xfe00_707f;
      AluTable(src1, src2);
      if p == 0x0000_4033 {
        SetAlu(rd, Xor(src1, src2), i, XorOp);
      } else if p == 0x0000_5033 {
        SetAlu(rd, ShiftRight(src1, Amount(src2)), i, SrlOp);
      } else if p == 0x4000_5033 {
        SetAlu(rd, ShiftSigned(src1, Amount(src2)), i, SraOp);
      } else if p == 0x0000_6033 {
        SetAlu(rd, Or(src1, src2), i, OrOp);
      } else if p == 0x0000_7033 {
        SetAlu(rd, And(src1, src2), i, AndOp);
      } else {
        matched := false;
      }
    }

    /** The M extension: the products, then the divisions. */
    method ExecMulDiv(i: bv32) returns (matched: bool)
      requires Decoding()
      modifies this
      ensures Decode(i).MulDiv? ==> matched
      ensures if matched then Executed(old(Current()), Decode(i)) else Decoding() && Current() == old(Current())
      ensures matched ==> !Decode(i).Fence?
    {
      hide Decode, Execute, Executed, Rd, Rs1, Rs2;
      var rd, src1, src2, _ := DecodeOperand(i, TypeR);
      matched := ExecProducts(i, rd, src1, src2);
      if !matched {
        matched := ExecDivisions(i, rd, src1, src2);
        if !matched && Decode(i).MulDiv? {
          MulDivPatternsComplete(i);
        }
      }
    }

    method ExecProducts(i: bv32, rd: Reg, src1: bv32, src2: bv32) returns (matched: bool)
      requires Decoding() && rd == Rd(i) && src1 == gpr[Rs1(i)] && src2 == gpr[Rs2(i)]
      modifies this
      ensures i & 0xfe00_707f in {0x0200_0033, 0x0200_1033, 0x0200_2033, 0x0200_3033} ==> matched
      ensures if matched then Executed(old(Current()), Decode(i)) else Decoding() && Current() == old(Current())
      ensures matched ==> !Decode(i).Fence?
    {
      hide Decode, Execute, Executed, Rd, Rs1, Rs2, ComputeMulDiv, LowSigned, HighSigned, HighMixed, HighUnsigned;
      MulDivPatterns(i);
      matched := true;
      var p := i & 0xfe00_707f;
      if p == 0x0200_0033 {
        LowProduct(src1, src2);
        SetMulDiv(rd, LowSigned(src1, src2), i, MulOp);
      } else if p == 0x0200_1033 {
        SignedProduct(src1, src2);
        SetMulDiv(rd, HighSigned(src1, src2), i, MulhOp);
      } else if p == 0x0200_2033 {
        MixedProduct(src1, src2);
        SetMulDiv(rd, HighMixed(src1, src2), i, MulhsuOp);
      } else if p == 0x0200_3033 {
        UnsignedProduct(src1, src2);
        SetMulDiv(rd, HighUnsigned(src1, src2), i, MulhuOp);
      } else {
        matched := false;
      }
    }

    method ExecDivisions(i: bv32, rd: Reg, src1: bv32, src2: bv32) returns (matched: bool)
      requires Decoding() && rd == Rd(i) && src1 == gpr[Rs1(i)] && src2 == gpr[Rs2(i)]
      modifies this
      ensures i & 0xfe00_707f in {0x0200_4033, 0x0200_5033, 0x0200_6033, 0x0200_7033} ==> matched
      ensures if matched then Executed(old(Current()), Decode(i)) else Decoding() && Current() == old(Current())
      ensures matched ==> !Decode(i).Fence?
    {
      hide Decode, Execute, Executed, Rd, Rs1, Rs2, ComputeMulDiv;
      hide DivideSigned, DivideUnsigned, RemainderSigned, RemainderUnsigned;
      MulDivPatterns(i);
      DivisionTable(src1, src2);
      matched := true;
      var p := i & 0xfe00_707f;
      if p == 0x0200_4033 {
        if src1 == 0x8000_0000 && src2 == 0xffff_ffff {
          SetMulDiv(rd, src1, i, DivOp);
        } else if src2 != 0 {
          SetMulDiv(rd, DivideSigned(src1, src2), i, DivOp);
        } else {
          SetMulDiv(rd, 0xffff_ffff, i, DivOp);
        }
      } else if p == 0x0200_5033 {
        if src2 != 0 {
          SetMulDiv(rd, DivideUnsigned(src1, src2), i, DivuOp);
        } else {
          SetMulDiv(rd, 0xffff_ffff, i, DivuOp);
        }
      } else if p == 0x0200_6033 {
        if src1 == 0x8000_0000 && src2 == 0xffff_ffff {
          SetMulDiv(rd, 0, i, RemOp);
        } else if src2 != 0 {
          SetMulDiv(rd, RemainderSigned(src1, src2), i, RemOp);
        } else {
          SetMulDiv(rd, src1, i, RemOp);
        }
      } else if p == 0x0200_7033 {
        if src2 != 0 {
          SetMulDiv(rd, RemainderUnsigned(src1, src2), i, RemuOp);
        } else {
          SetMulDiv(rd, src1, i, RemuOp);
        }
      } else {
        matched := false;
      }
    }

    /** An AMO: read, write the combined value, then set the destination to what was read. */
    method ReadModifyWrite(op: AmoOp, rd: Reg, src1: bv32, src2: bv32, ghost rs1: Reg, ghost rs2: Reg)
      requires Decoding() && src1 == gpr[rs1] && src2 == gpr[rs2]
      modifies this
      ensures Executed(old(Current()), Amo(op, rd, rs1, rs2))
    {
      hide Add, Offset, ComputeAmo, Mapped, InRam, Aligned, Unaligned4, LoadMemory, StoreMemory;
      Reachable(src1);
      if !Unaligned4(src1) {
        WordAligned(c, src1);
      }
      var t := ReadMemory(src1, Word);
      WriteMemory(src1, Word, ComputeAmo(op, t, src2));
      SetReg(rd, t);
    }

    method ExecAmo(i: bv32) returns (matched: bool)
      requires Decoding()
      modifies this
      ensures Decode(i).Amo? ==> matched
      ensures if matched then Executed(old(Current()), Decode(i)) else Decoding() && Current() == old(Current())
      ensures matched ==> !Decode(i).Fence?
    {
      hide Decode, Rd, Rs1, Rs2, Execute;
      AmoPatterns(i);
      matched := true;
      var rd, src1, src2, _ := DecodeOperand(i, TypeR);
      var p := i & 0xf800_707f;
      if p == 0x0800_202f {
        ReadModifyWrite(SwapAmo, rd, src1, src2, Rs1(i), Rs2(i));
      } else if p == 0x0000_202f {
        ReadModifyWrite(AddAmo, rd, src1, src2, Rs1(i), Rs2(i));
      } else if p == 0x2000_202f {
        ReadModifyWrite(XorAmo, rd, src1, src2, Rs1(i), Rs2(i));
      } else if p == 0x6000_202f {
        ReadModifyWrite(AndAmo, rd, src1, src2, Rs1(i), Rs2(i));
      } else if p == 0x4000_202f {
        ReadModifyWrite(OrAmo, rd, src1, src2, Rs1(i), Rs2(i));
      } else if p == 0x8000_202f {
        ReadModifyWrite(MinAmo, rd, src1, src2, Rs1(i), Rs2(i));
      } else if p == 0xa000_202f {
        ReadModifyWrite(MaxAmo, rd, src1, src2, Rs1(i), Rs2(i));
      } else if p == 0xc000_202f {
        ReadModifyWrite(MinuAmo, rd, src1, src2, Rs1(i), Rs2(i));
      } else if p == 0xe000_202f {
        ReadModifyWrite(MaxuAmo, rd, src1, src2, Rs1(i), Rs2(i));
      } else {
        matched := false;
        if Decode(i).Amo? {
          AmoPatternsComplete(i);
        }
      }
    }

    method ExecFence(i: bv32) returns (matched: bool)
      requires Decoding()
      modifies this
      ensures if matched then Executed(old(Current()), Decode(i)) else Decoding() && Current() == old(Current())
      ensures matched <==> PlainFence(i)
    {
      hide Decode, Add;
      FencePatterns(i);
      matched := i & 0xf00f_ffff == 0x0f || i == 0x100f;
      assert gpr[0 := 0] == gpr;
    }

    /** The patterns in their order, until one matches. */
    method ExecMatching(i: bv32) returns (matched: bool)
      requires Decoding()
      modifies this
      ensures if matched then Executed(old(Current()), Decode(i)) else Decoding() && Current() == old(Current())
      ensures matched ==> Recognised(i)
      ensures !matched ==> Decode(i) == Other || !Recognised(i)
    {
      hide Decode, Execute, Executed, PlainFence;
      matched := ExecUpperAndJumps(i);
      if !matched { matched := ExecBranches(i); }
      if !matched { matched := ExecLoads(i); }
      if !matched { matched := ExecStores(i); }
      if !matched { matched := ExecOpImm(i); }
      if !matched { matched := ExecOp(i); }
      if !matched { matched := ExecMulDiv(i); }
      if !matched { matched := ExecAmo(i); }
      if !matched { matched := ExecFence(i); }
    }

    /** decode_exec: a word that matches no pattern is illegal; register zero is reset at the end.  The state is
        that of the definition for every word but the fences no pattern recognises. */
    method DecodeExec(i: bv32)
      requires Ready() && !exception
      modifies this
      ensures Execute(c, old(Current()), Decode(i)).Retired? ==>
                if Recognised(i)
                then !exception && Retired(State(gpr, dnpc, mem)) == Execute(c, old(Current()), Decode(i))
                else exception && gpr == old(gpr) && mem == old(mem)
      ensures |gpr| == 32 && gpr[0] == 0 && pc == old(pc)
    {
      hide Decode, Recognised, Add;
      OtherInstructions(c, Current());
      dnpc := Add(pc, 4);
      var matched := ExecMatching(i);
      if !matched {
        exception := true;
        assert gpr[0 := 0] == gpr;
      }
      gpr := gpr[0 := 0];
    }

    /** isa_exec_once and exec_once: fetch, execute, and move to the next counter.  Traps are left out: an
        exception ends the step. */
    method ExecOnce()
      requires Ready() && !exception
      modifies this
      ensures Ready()
      ensures Step(c, old(Current())).Retired? ==>
                if Recognised(Fetch(old(Current())))
                then !exception && Step(c, old(Current())) == Retired(Current())
                else exception
    {
      hide Execute, Decode, Recognised, Mapped, InRam, Offset, LoadMemory, Unaligned4;
      var i := 0;
      if Mapped(c, pc) {
        i := LoadMemory(mem, Offset(pc), Word);
      }
      Reachable(pc);
      DecodeExec(i);
      pc := dnpc;
    }
  }
}
