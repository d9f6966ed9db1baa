/** The reference interpreter: a switch on the opcode that computes a result, a destination and a program counter
    four less than the next one, which is added at the end of each turn of the loop. */
module Rv32Ref {
  import opened MachineWords
  import opened Isa
  import opened WordProducts

  // ---------- Immediates: fields masked, shifted into place and extended by their top bit ----------

  function RefImmI(ir: bv32): bv32 {
    var imm := ir >> 20;
    imm | (if imm & 0x800 != 0 then 0xffff_f000 else 0)
  }

  function RefFieldJ(ir: bv32): bv32 {
    ((ir & 0x8000_0000) >> 11) | ((ir & 0x7fe0_0000) >> 20) | ((ir & 0x0010_0000) >> 9) | (ir & 0x000f_f000)
  }

  function RefImmJ(ir: bv32): bv32 {
    var rel := RefFieldJ(ir);
    if rel & 0x0010_0000 != 0 then rel | 0xffe0_0000 else rel
  }

  function RefFieldB(ir: bv32): bv32 {
    ((ir & 0xf00) >> 7) | ((ir & 0x7e00_0000) >> 20) | ((ir & 0x80) << 4) | ((ir >> 31) << 12)
  }

  function RefImmB(ir: bv32): bv32 {
    var imm := RefFieldB(ir);
    if imm & 0x1000 != 0 then imm | 0xffff_e000 else imm
  }

  function RefImmS(ir: bv32): bv32 {
    var addy := ((ir >> 7) & 0x1f) | ((ir & 0xfe00_0000) >> 20);
    if addy & 0x800 != 0 then addy | 0xffff_f000 else addy
  }

  lemma RefImmIAgrees(i: bv32)
    ensures RefImmI(i) == ImmI(i)
  {
    assert (var imm := i >> 20; imm | (if imm & 0x800 != 0 then 0xffff_f000 else 0))
        == (if i & 0x8000_0000 != 0 then 0xffff_f800 else 0) | ((i >> 20) & 0x7ff);
  }

  lemma RefImmJAgrees(i: bv32)
    ensures RefImmJ(i) == ImmJ(i)
  {
    hide ImmJ, RefFieldJ;
    SignOfJ(i);
    if i & 0x8000_0000 == 0 {
      PositiveJ(i);
    } else {
      NegativeJ(i);
    }
  }

  lemma SignOfJ(i: bv32)
    ensures RefFieldJ(i) & 0x0010_0000 != 0 <==> i & 0x8000_0000 != 0
  {
  }

  lemma PositiveJ(i: bv32)
    requires i & 0x8000_0000 == 0
    ensures RefFieldJ(i) == ImmJ(i)
  {
  }

  lemma NegativeJ(i: bv32)
    requires i & 0x8000_0000 != 0
    ensures RefFieldJ(i) | 0xffe0_0000 == ImmJ(i)
  {
  }

  lemma RefImmBAgrees(i: bv32)
    ensures RefImmB(i) == ImmB(i)
  {
    hide ImmB, RefFieldB;
    SignOfB(i);
    if i & 0x8000_0000 == 0 {
      PositiveB(i);
    } else {
      NegativeB(i);
    }
  }

  lemma SignOfB(i: bv32)
    ensures RefFieldB(i) & 0x1000 != 0 <==> i & 0x8000_0000 != 0
  {
  }

  lemma PositiveB(i: bv32)
    requires i & 0x8000_0000 == 0
    ensures RefFieldB(i) == ImmB(i)
  {
  }

  lemma NegativeB(i: bv32)
    requires i & 0x8000_0000 != 0
    ensures RefFieldB(i) | 0xffff_e000 == ImmB(i)
  {
  }

  lemma RefImmSAgrees(i: bv32)
    ensures RefImmS(i) == ImmS(i)
  {
    assert (var addy := ((i >> 7) & 0x1f) | ((i & 0xfe00_0000) >> 20);
            if addy & 0x800 != 0 then addy | 0xffff_f000 else addy)
        == (if i & 0x8000_0000 != 0 then 0xffff_f800 else 0) | (((i >> 25) & 0x3f) << 5) | ((i >> 7) & 0x1f);
  }

  /** The second source register is taken from the low bits of the extended immediate. */
  lemma RegisterField(i: bv32)
    ensures Index(RefImmI(i)) == Rs2(i)
  {
    assert (var imm := i >> 20; imm | (if imm & 0x800 != 0 then 0xffff_f000 else 0)) & 0x1f == (i >> 20) & 0x1f;
  }

  // ---------- Addresses ----------

  /** The test of data addresses: whatever the width, four bytes must fit; the subtraction is that of words. */
  predicate OutOfImage(c: Config, offset: bv32) {
    offset as int >= (c.ramSize - 3) % 0x1_0000_0000
  }

  /** The test of the program counter. */
  predicate OutsideRam(c: Config, offset: bv32) {
    offset as int >= c.ramSize
  }

  lemma ImageIsWordInRam(c: Config, address: bv32)
    requires c.ramSize >= 4
    ensures !OutOfImage(c, Offset(address)) <==> InRam(c, address, Word)
  {
    hide Offset;
    LastWord(c.ramSize, Offset(address) as int);
  }

  lemma LastWord(size: int, offset: int)
    requires 4 <= size < 0x1_0000_0000
    ensures offset < (size - 3) % 0x1_0000_0000 <==> offset + 4 <= size
  {
  }

  lemma WordBound(x: bv32)
    ensures 0 <= x as int < 0x1_0000_0000
  {
  }

  lemma WordInImage(c: Config, address: bv32)
    requires InRam(c, address, Word)
    ensures !OutOfImage(c, Offset(address)) && !OutsideRam(c, Offset(address)) && c.ramSize >= 4
  {
    hide Offset, OutOfImage;
    WordBound(Offset(address));
    ImageIsWordInRam(c, address);
  }

  /** The data address of a load or store. */
  function DataAddress(s: State, d: Instr): bv32
    requires ValidState(s) && (d.Load? || d.Store?)
  {
    Add(s.regs[d.rs1], d.imm)
  }

  /** The step has no data access, or one with room for four bytes. */
  predicate Reaches(c: Config, s: State)
    requires ValidState(s)
  {
    var d := Decode(Fetch(s));
    d.Load? || d.Store? ==> InRam(c, DataAddress(s, d), Word)
  }

  /** So do all of n steps. */
  predicate ReachesAll(c: Config, s: State, n: nat)
    requires ValidState(s)
    decreases n
  {
    n > 0 && Step(c, s).Retired? ==> Reaches(c, s) && ReachesAll(c, Step(c, s).s, n - 1)
  }

  function StoreOffset(r: bv32, imm: bv32): bv32 {
    imm + (r - 0x8000_0000)
  }

  lemma StoreOffsetAgrees(r: bv32, imm: bv32)
    ensures StoreOffset(r, imm) == Offset(Add(r, imm))
  {
    SumsAgree(r, imm);
    assert Offset(Add(r, imm)) == (r + imm) - 0x8000_0000;
  }

  lemma SumsAgree(r: bv32, imm: bv32)
    ensures imm + (r - 0x8000_0000) == (r + imm) - 0x8000_0000
  {
  }

  lemma OffsetAlignment(a: bv32)
    ensures Unaligned4(Offset(a)) == Unaligned4(a)
  {
    assert (a - 0x8000_0000) & 3 == a & 3;
  }

  lemma BackFour(x: bv32)
    ensures Add(Sub(x, 4), 4) == x
  {
    assert (x - 4) + 4 == x;
  }

  // ---------- Choosing between the old and the new value ----------

  lemma Unordered(a: bv32, b: bv32)
    requires !Less(a, b) && !Less(b, a)
    ensures a == b
  {
    assert (a as int) as bv32 == a;
    assert (b as int) as bv32 == b;
  }

  lemma SignedUnordered(a: bv32, b: bv32)
    requires !SignedLess(a, b) && !SignedLess(b, a)
    ensures a == b
  {
    hide Less;
    Unordered(a ^ 0x8000_0000, b ^ 0x8000_0000);
    assert (a ^ 0x8000_0000) ^ 0x8000_0000 == a;
    assert (b ^ 0x8000_0000) ^ 0x8000_0000 == b;
  }

  lemma SignedAsymmetric(a: bv32, b: bv32)
    requires SignedLess(a, b)
    ensures !SignedLess(b, a)
  {
  }

  /** Minimum and maximum do not depend on which operand is compared with which. */
  lemma SelectionsAgree(t: bv32, b: bv32)
    ensures (if SignedLess(b, t) then b else t) == ComputeAmo(MinAmo, t, b)
    ensures (if SignedLess(t, b) then b else t) == ComputeAmo(MaxAmo, t, b)
    ensures (if Less(b, t) then b else t) == ComputeAmo(MinuAmo, t, b)
    ensures (if Less(t, b) then b else t) == ComputeAmo(MaxuAmo, t, b)
  {
    hide SignedLess;
    if !SignedLess(b, t) && !SignedLess(t, b) {
      SignedUnordered(b, t);
    } else if SignedLess(b, t) {
      SignedAsymmetric(b, t);
    }
    if !Less(b, t) && !Less(t, b) {
      Unordered(b, t);
    }
  }

  // ---------- The cases of the switch ----------

  lemma JumpCases(i: bv32)
    ensures i & 0x7f == 0x37 ==> Decode(i) == Lui(Rd(i), ImmU(i))
    ensures i & 0x7f == 0x17 ==> Decode(i) == Auipc(Rd(i), ImmU(i))
    ensures i & 0x7f == 0x6f ==> Decode(i) == Jal(Rd(i), ImmJ(i))
    ensures i & 0x7f == 0x67 ==> Decode(i) == Jalr(Rd(i), Rs1(i), ImmI(i)) || Decode(i) == Other
  {
    hide Rd, Rs1, Rs2, ImmI, ImmJ, ImmU, ImmB, ImmS;
  }

  lemma BranchCases(i: bv32)
    requires i & 0x7f == 0x63
    ensures Funct3(i) == 0 ==> Decode(i) == Branch(Beq, Rs1(i), Rs2(i), ImmB(i))
    ensures Funct3(i) == 1 ==> Decode(i) == Branch(Bne, Rs1(i), Rs2(i), ImmB(i))
    ensures Funct3(i) == 4 ==> Decode(i) == Branch(Blt, Rs1(i), Rs2(i), ImmB(i))
    ensures Funct3(i) == 5 ==> Decode(i) == Branch(Bge, Rs1(i), Rs2(i), ImmB(i))
    ensures Funct3(i) == 6 ==> Decode(i) == Branch(Bltu, Rs1(i), Rs2(i), ImmB(i))
    ensures Funct3(i) == 7 ==> Decode(i) == Branch(Bgeu, Rs1(i), Rs2(i), ImmB(i))
    ensures Funct3(i) !in {0, 1, 4, 5, 6, 7} ==> Decode(i) == Other
  {
    hide Rd, Rs1, Rs2, ImmI, ImmJ, ImmU, ImmB, ImmS;
  }

  lemma LoadCases(i: bv32)
    requires i & 0x7f == 0x03
    ensures Funct3(i) == 0 ==> Decode(i) == Load(Byte, true, Rd(i), Rs1(i), ImmI(i))
    ensures Funct3(i) == 1 ==> Decode(i) == Load(Half, true, Rd(i), Rs1(i), ImmI(i))
    ensures Funct3(i) == 2 ==> Decode(i) == Load(Word, true, Rd(i), Rs1(i), ImmI(i))
    ensures Funct3(i) == 4 ==> Decode(i) == Load(Byte, false, Rd(i), Rs1(i), ImmI(i))
    ensures Funct3(i) == 5 ==> Decode(i) == Load(Half, false, Rd(i), Rs1(i), ImmI(i))
    ensures Funct3(i) !in {0, 1, 2, 4, 5} ==> Decode(i) == Other
  {
    hide Rd, Rs1, Rs2, ImmI, ImmJ, ImmU, ImmB, ImmS;
  }

  lemma StoreCases(i: bv32)
    requires i & 0x7f == 0x23
    ensures Funct3(i) == 0 ==> Decode(i) == Store(Byte, Rs1(i), Rs2(i), ImmS(i))
    ensures Funct3(i) == 1 ==> Decode(i) == Store(Half, Rs1(i), Rs2(i), ImmS(i))
    ensures Funct3(i) == 2 ==> Decode(i) == Store(Word, Rs1(i), Rs2(i), ImmS(i))
    ensures Funct3(i) !in {0, 1, 2} ==> Decode(i) == Other
  {
    hide Rd, Rs1, Rs2, ImmI, ImmJ, ImmU, ImmB, ImmS;
  }

  /** The operation that the switch shared by both forms performs. */
  function SwitchedAlu(isReg: bool, bit30: bool, f: bv32): Alu {
    if f == 0 then if isReg && bit30 then SubOp else AddOp
    else if f == 1 then SllOp
    else if f == 2 then SltOp
    else if f == 3 then SltuOp
    else if f == 4 then XorOp
    else if f == 5 then if bit30 then SraOp else SrlOp
    else if f == 6 then OrOp
    else AndOp
  }

  lemma OpImmCases(i: bv32)
    requires i & 0x7f == 0x13
    ensures || Decode(i) == OpImm(SwitchedAlu(false, i & 0x4000_0000 != 0, Funct3(i)), Rd(i), Rs1(i), ImmI(i))
            || Decode(i) == Other
  {
    hide Rd, Rs1, Rs2, ImmI, ImmJ, ImmU, ImmB, ImmS;
  }

  lemma OpCases(i: bv32)
    requires i & 0x7f == 0x33 && i & 0x0200_0000 == 0
    ensures || Decode(i) == Op(SwitchedAlu(true, i & 0x4000_0000 != 0, Funct3(i)), Rd(i), Rs1(i), Rs2(i))
            || Decode(i) == Other
  {
    hide Rd, Rs1, Rs2, ImmI, ImmJ, ImmU, ImmB, ImmS;
  }

  lemma MulDivCases(i: bv32)
    requires i & 0x7f == 0x33 && i & 0x0200_0000 != 0 && Funct3(i) < 8
    ensures || Decode(i) == MulDiv(DecodeMulDiv(Funct3(i)), Rd(i), Rs1(i), Rs2(i))
            || Decode(i) == Other
  {
    hide Rd, Rs1, Rs2, ImmI, ImmJ, ImmU, ImmB, ImmS;
  }

  lemma AmoCases(i: bv32)
    requires i & 0x7f == 0x2f
    ensures (i >> 27) & 0x1f == 1 ==> Decode(i) == Amo(SwapAmo, Rd(i), Rs1(i), Rs2(i)) || Decode(i) == Other
    ensures (i >> 27) & 0x1f == 0 ==> Decode(i) == Amo(AddAmo, Rd(i), Rs1(i), Rs2(i)) || Decode(i) == Other
    ensures (i >> 27) & 0x1f == 4 ==> Decode(i) == Amo(XorAmo, Rd(i), Rs1(i), Rs2(i)) || Decode(i) == Other
    ensures (i >> 27) & 0x1f == 12 ==> Decode(i) == Amo(AndAmo, Rd(i), Rs1(i), Rs2(i)) || Decode(i) == Other
    ensures (i >> 27) & 0x1f == 8 ==> Decode(i) == Amo(OrAmo, Rd(i), Rs1(i), Rs2(i)) || Decode(i) == Other
    ensures (i >> 27) & 0x1f == 16 ==> Decode(i) == Amo(MinAmo, Rd(i), Rs1(i), Rs2(i)) || Decode(i) == Other
    ensures (i >> 27) & 0x1f == 20 ==> Decode(i) == Amo(MaxAmo, Rd(i), Rs1(i), Rs2(i)) || Decode(i) == Other
    ensures (i >> 27) & 0x1f == 24 ==> Decode(i) == Amo(MinuAmo, Rd(i), Rs1(i), Rs2(i)) || Decode(i) == Other
    ensures (i >> 27) & 0x1f == 28 ==> Decode(i) == Amo(MaxuAmo, Rd(i), Rs1(i), Rs2(i)) || Decode(i) == Other
    ensures (i >> 27) & 0x1f !in {1, 0, 4, 12, 8, 16, 20, 24, 28} ==> Decode(i) == Other
  {
    hide Rd, Rs1, Rs2, ImmI, ImmJ, ImmU, ImmB, ImmS;
  }

  lemma Funct3IsSmall(i: bv32)
    ensures Funct3(i) < 8
  {
  }

  lemma Unextended(signed: bool, v: bv32)
    ensures Extend(Word, signed, v) == v
  {
  }

  lemma ZeroExtended(w: Width, v: bv32)
    ensures Extend(w, false, v) == v
  {
  }

  lemma ArithmeticCases(i: bv32)
    requires i & 0x7f in {0x13, 0x33}
    ensures !Decode(i).Load? && !Decode(i).Store?
  {
    hide Rd, Rs1, Rs2, ImmI, ImmJ, ImmU, ImmB, ImmS;
    assert i & 0x7f != 0x03 && i & 0x7f != 0x23;
  }

  lemma OtherCases(i: bv32)
    ensures i & 0x7f == 0x0f ==> Decode(i) == Fence || Decode(i) == Other
    ensures i & 0x7f !in {0x37, 0x17, 0x6f, 0x67, 0x63, 0x03, 0x23, 0x13, 0x33, 0x0f, 0x2f} ==> Decode(i) == Other
  {
    hide Rd, Rs1, Rs2, ImmI, ImmJ, ImmU, ImmB, ImmS;
  }

  class Ref {
    const c: Config
    var regs: seq<bv32>
    var pc: bv32
    var mem: Memory

    constructor (c: Config, s: State)
      requires ValidState(s)
      ensures this.c == c && Ready() && Current() == s
    {
      this.c := c;
      regs, pc, mem := s.regs, s.pc, s.mem;
    }

    function Current(): State
      reads this
    {
      State(regs, pc, mem)
    }

    ghost predicate Ready()
      reads this
    {
      ValidState(Current())
    }

    /** The data address passes the test of the image. */
    ghost predicate Imaged(s: State, d: Instr)
      requires ValidState(s)
    {
      d.Load? || d.Store? ==> !OutOfImage(c, Offset(DataAddress(s, d)))
    }

    /** From state s, writing the result and adding four to the counter completes instruction d, unless it is one
        the definition excludes or its address fails the test, which traps.  A trap leaves everything as it was. */
    ghost predicate Computed(s: State, d: Instr, rdid: Reg, rval: bv32, trap: nat)
      requires ValidState(s)
      reads this
    {
      var r := Execute(c, s, d);
      && regs == s.regs && (trap != 0 ==> Current() == s)
      && (r.Retired? ==>
            if Imaged(s, d) then trap == 0 && r.s == State(Write(s.regs, rdid, rval), Add(pc, 4), mem)
            else trap == if d.Load? then 6 else 8)
    }

    /** LUI, AUIPC, JAL and JALR. */
    method UpperAndJumps(ir: bv32) returns (rdid: Reg, rval: bv32)
      requires Ready() && ir & 0x7f in {0x37, 0x17, 0x6f, 0x67}
      modifies this`pc
      ensures Computed(old(Current()), Decode(ir), rdid, rval, 0)
    {
      hide Decode, Rd, Rs1, ImmI, ImmJ, ImmU, Add, Sub, Unaligned4, ClearLowBit;
      JumpCases(ir);
      rdid := Rd(ir);
      if ir & 0x7f == 0x37 {
        rval := ImmU(ir);
      } else if ir & 0x7f == 0x17 {
        rval := Add(pc, ImmU(ir));
      } else if ir & 0x7f == 0x6f {
        RefImmJAgrees(ir);
        rval := Add(pc, 4);
        BackFour(Add(pc, RefImmJ(ir)));
        pc := Sub(Add(pc, RefImmJ(ir)), 4);
      } else {
        RefImmIAgrees(ir);
        rval := Add(pc, 4);
        var target := ClearLowBit(Add(regs[Rs1(ir)], RefImmI(ir)));
        BackFour(target);
        pc := Sub(target, 4);
      }
    }

    method Branches(ir: bv32) returns (rdid: Reg, rval: bv32, trap: nat)
      requires Ready() && ir & 0x7f == 0x63
      modifies this`pc
      ensures Computed(old(Current()), Decode(ir), rdid, rval, trap)
    {
      hide Decode, Execute, Funct3, Rs1, Rs2, ImmB, RefImmB, Add, Sub, Less, SignedLess, Unaligned4;
      BranchCases(ir);
      OtherInstructions(c, Current());
      if Decode(ir).Branch? {
        BranchInstructions(c, Current(), Decode(ir));
      }
      RefImmBAgrees(ir);
      rdid, rval, trap := 0, 0, 0;
      var rs1, rs2 := regs[Rs1(ir)], regs[Rs2(ir)];
      var target := Sub(Add(pc, RefImmB(ir)), 4);
      BackFour(Add(pc, RefImmB(ir)));
      var f := Funct3(ir);
      if f == 0 {
        if rs1 == rs2 { pc := target; }
      } else if f == 1 {
        if rs1 != rs2 { pc := target; }
      } else if f == 4 {
        if SignedLess(rs1, rs2) { pc := target; }
      } else if f == 5 {
        if !SignedLess(rs1, rs2) { pc := target; }
      } else if f == 6 {
        if Less(rs1, rs2) { pc := target; }
      } else if f == 7 {
        if !Less(rs1, rs2) { pc := target; }
      } else {
        trap := 3;
      }
    }

    method Loads(ir: bv32) returns (rdid: Reg, rval: bv32, trap: nat)
      requires Ready() && ir & 0x7f == 0x03
      ensures Computed(Current(), Decode(ir), rdid, rval, trap)
    {
      hide Decode, Funct3, Rd, Rs1, ImmI, RefImmI, Add, Offset, InRam, OutOfImage, Aligned, LoadMemory, Extend;
      LoadCases(ir);
      RefImmIAgrees(ir);
      rdid, rval, trap := Rd(ir), 0, 0;
      var address := Add(regs[Rs1(ir)], RefImmI(ir));
      var rsval := Offset(address);
      var f := Funct3(ir);
      if OutOfImage(c, rsval) {
        trap, rval := 6, address;
      } else if f == 0 {
        rval := Extend(Byte, true, LoadMemory(mem, rsval, Byte));
      } else if f == 1 {
        rval := Extend(Half, true, LoadMemory(mem, rsval, Half));
      } else if f == 2 {
        rval := LoadMemory(mem, rsval, Word);
        Unextended(true, rval);
      } else if f == 4 {
        rval := LoadMemory(mem, rsval, Byte);
        ZeroExtended(Byte, rval);
      } else if f == 5 {
        rval := LoadMemory(mem, rsval, Half);
        ZeroExtended(Half, rval);
      } else {
        trap := 3;
      }
    }

    method Stores(ir: bv32) returns (rdid: Reg, rval: bv32, trap: nat)
      requires Ready() && ir & 0x7f == 0x23
      modifies this`mem
      ensures Computed(old(Current()), Decode(ir), rdid, rval, trap)
    {
      hide Decode, Funct3, Rs1, Rs2, ImmS, RefImmS, Add, Offset, StoreOffset, InRam, OutOfImage, Aligned, StoreMemory;
      StoreCases(ir);
      RefImmSAgrees(ir);
      rdid, rval, trap := 0, 0, 0;
      var rs1, rs2 := regs[Rs1(ir)], regs[Rs2(ir)];
      var addy := StoreOffset(rs1, RefImmS(ir));
      StoreOffsetAgrees(rs1, RefImmS(ir));
      var f := Funct3(ir);
      if OutOfImage(c, addy) {
        trap, rval := 8, Add(rs1, RefImmS(ir));
      } else if f == 0 {
        mem := StoreMemory(mem, addy, Byte, rs2);
      } else if f == 1 {
        mem := StoreMemory(mem, addy, Half, rs2);
      } else if f == 2 {
        mem := StoreMemory(mem, addy, Word, rs2);
      } else {
        trap := 3;
      }
    }

    /** Register-immediate and register-register operations share one case. */
    method Arithmetic(ir: bv32) returns (rdid: Reg, rval: bv32)
      requires Ready() && ir & 0x7f in {0x13, 0x33}
      ensures Computed(Current(), Decode(ir), rdid, rval, 0)
    {
      hide Decode, Execute, Rd, Rs1, Rs2, ImmI, RefImmI, Index, Add;
      RefImmIAgrees(ir);
      RegisterField(ir);
      ArithmeticCases(ir);
      rdid := Rd(ir);
      var imm := RefImmI(ir);
      var rs1 := regs[Rs1(ir)];
      var isReg := ir & 0x20 != 0;
      var rs2 := if isReg then regs[Index(imm)] else imm;
      if isReg && ir & 0x0200_0000 != 0 {
        rval := MultiplyOrDivide(ir, rs1, rs2);
      } else if isReg {
        rval := Operate(ir, true, rs1, rs2);
      } else {
        rval := Operate(ir, false, rs1, rs2);
      }
    }

    /** Instruction d, unless excluded, puts the value into its destination and does nothing else. */
    ghost predicate Evaluated(d: Instr, rd: Reg, rval: bv32)
      requires Ready()
      reads this
    {
      var r := Execute(c, Current(), d);
      r.Retired? ==> r.s == Next(Current(), rd, rval)
    }

    method Operate(ir: bv32, isReg: bool, rs1: bv32, rs2: bv32) returns (rval: bv32)
      requires Ready() && rs1 == regs[Rs1(ir)]
      requires if isReg then ir & 0x7f == 0x33 && ir & 0x0200_0000 == 0 && rs2 == regs[Rs2(ir)]
               else ir & 0x7f == 0x13 && rs2 == ImmI(ir)
      ensures Evaluated(Decode(ir), Rd(ir), rval)
    {
      hide Decode, Execute, Compute, SwitchedAlu, Funct3, Rd, Rs1, Rs2, ImmI;
      if isReg { OpCases(ir); } else { OpImmCases(ir); }
      ghost var alu := SwitchedAlu(isReg, ir & 0x4000_0000 != 0, Funct3(ir));
      AluInstructions(c, Current(), alu, Rd(ir), Rs1(ir), Rs2(ir), ImmI(ir));
      OtherInstructions(c, Current());
      rval := AluSwitch(isReg, ir & 0x4000_0000 != 0, Funct3(ir), rs1, rs2);
    }

    method AluSwitch(isReg: bool, bit30: bool, f: bv32, rs1: bv32, rs2: bv32) returns (rval: bv32)
      ensures rval == Compute(SwitchedAlu(isReg, bit30, f), rs1, rs2)
    {
      hide Add, Sub, Less, SignedLess, And, Or, Xor, ShiftLeft, ShiftRight, ShiftSigned, Amount;
      if f == 0 {
        rval := if isReg && bit30 then Sub(rs1, rs2) else Add(rs1, rs2);
      } else if f == 1 {
        rval := ShiftLeft(rs1, Amount(rs2));
      } else if f == 2 {
        rval := if SignedLess(rs1, rs2) then 1 else 0;
      } else if f == 3 {
        rval := if Less(rs1, rs2) then 1 else 0;
      } else if f == 4 {
        rval := Xor(rs1, rs2);
      } else if f == 5 {
        rval := if bit30 then ShiftSigned(rs1, Amount(rs2)) else ShiftRight(rs1, Amount(rs2));
      } else if f == 6 {
        rval := Or(rs1, rs2);
      } else {
        rval := And(rs1, rs2);
      }
    }

    method MultiplyOrDivide(ir: bv32, rs1: bv32, rs2: bv32) returns (rval: bv32)
      requires Ready() && rs1 == regs[Rs1(ir)] && rs2 == regs[Rs2(ir)]
      requires ir & 0x7f == 0x33 && ir & 0x0200_0000 != 0
      ensures Evaluated(Decode(ir), Rd(ir), rval)
    {
      hide Decode, Execute, ComputeMulDiv, DecodeMulDiv, Funct3, Rd, Rs1, Rs2;
      Funct3IsSmall(ir);
      MulDivCases(ir);
      MulDivInstructions(c, Current(), DecodeMulDiv(Funct3(ir)), Rd(ir), Rs1(ir), Rs2(ir));
      OtherInstructions(c, Current());
      rval := MulDivSwitch(Funct3(ir), rs1, rs2);
    }

    method MulDivSwitch(f: bv32, rs1: bv32, rs2: bv32) returns (rval: bv32)
      requires f < 8
      ensures rval == ComputeMulDiv(DecodeMulDiv(f), rs1, rs2)
    {
      hide LowUnsigned, HighSigned, HighMixed, HighUnsigned, High, ToSigned;
      hide DivideSigned, DivideUnsigned, RemainderSigned, RemainderUnsigned;
      if f == 0 {
        rval := LowUnsigned(rs1, rs2);
      } else if f == 1 {
        rval := HighSigned(rs1, rs2);
        SignedProduct(rs1, rs2);
      } else if f == 2 {
        rval := HighMixed(rs1, rs2);
        MixedProduct(rs1, rs2);
      } else if f == 3 {
        rval := HighUnsigned(rs1, rs2);
        UnsignedProduct(rs1, rs2);
      } else if f == 4 {
        if rs2 == 0 {
          rval := 0xffff_ffff;
        } else {
          rval := if rs1 == 0x8000_0000 && rs2 == 0xffff_ffff then rs1 else DivideSigned(rs1, rs2);
        }
      } else if f == 5 {
        rval := if rs2 == 0 then 0xffff_ffff else DivideUnsigned(rs1, rs2);
      } else if f == 6 {
        if rs2 == 0 {
          rval := rs1;
        } else {
          rval := if rs1 == 0x8000_0000 && rs2 == 0xffff_ffff then 0 else RemainderSigned(rs1, rs2);
        }
      } else {
        rval := if rs2 == 0 then rs1 else RemainderUnsigned(rs1, rs2);
      }
    }

    /** The AMOs; load-reserved and store-conditional are not part of this model. */
    method Atomics(ir: bv32) returns (rdid: Reg, rval: bv32, trap: nat)
      requires Ready() && ir & 0x7f == 0x2f
      modifies this`mem
      ensures Computed(old(Current()), Decode(ir), rdid, rval, trap)
    {
      hide Decode, Rd, Rs1, Rs2, Add, Offset, ComputeAmo, InRam, OutOfImage, Aligned, LoadMemory, StoreMemory;
      rdid, trap := Rd(ir), 0;
      var address := regs[Rs1(ir)];
      if InRam(c, address, Word) {
        WordInImage(c, address);
      }
      var rs1 := Offset(address);
      if OutOfImage(c, rs1) {
        trap, rval := 8, address;
      } else {
        rval := LoadMemory(mem, rs1, Word);
        var rs2;
        rs2, trap := Combine(ir, rval, regs[Rs2(ir)]);
        if trap == 0 {
          mem := StoreMemory(mem, rs1, Word, rs2);
        }
      }
      AmoCases(ir);
    }

    method Combine(ir: bv32, rval: bv32, rs2: bv32) returns (v: bv32, trap: nat)
      requires ir & 0x7f == 0x2f
      ensures Decode(ir) == Other || (trap == 0 && Decode(ir).Amo? && v == ComputeAmo(Decode(ir).amo, rval, rs2))
    {
      hide Decode, Rd, Rs1, Rs2, Add, And, Or, Xor, Less, SignedLess;
      AmoCases(ir);
      SelectionsAgree(rval, rs2);
      v, trap := rs2, 0;
      var irmid := (ir >> 27) & 0x1f;
      if irmid == 1 {
      } else if irmid == 0 {
        v := Add(rval, rs2);
      } else if irmid == 4 {
        v := Xor(rval, rs2);
      } else if irmid == 12 {
        v := And(rval, rs2);
      } else if irmid == 8 {
        v := Or(rval, rs2);
      } else if irmid == 16 {
        v := if SignedLess(rs2, rval) then rs2 else rval;
      } else if irmid == 20 {
        v := if SignedLess(rval, rs2) then rs2 else rval;
      } else if irmid == 24 {
        v := if Less(rs2, rval) then rs2 else rval;
      } else if irmid == 28 {
        v := if Less(rval, rs2) then rs2 else rval;
      } else {
        trap := 3;
      }
    }

    /** The switch on the opcode; system instructions are not part of this model. */
    method Switch(ir: bv32) returns (rdid: Reg, rval: bv32, trap: nat)
      requires Ready()
      modifies this`pc, this`mem
      ensures Computed(old(Current()), Decode(ir), rdid, rval, trap)
    {
      hide Decode, Add;
      rdid, rval, trap := 0, 0, 0;
      var op := ir & 0x7f;
      OtherCases(ir);
      if op in {0x37, 0x17, 0x6f, 0x67} {
        rdid, rval := UpperAndJumps(ir);
      } else if op == 0x63 {
        rdid, rval, trap := Branches(ir);
      } else if op == 0x03 {
        rdid, rval, trap := Loads(ir);
      } else if op == 0x23 {
        rdid, rval, trap := Stores(ir);
      } else if op in {0x13, 0x33} {
        rdid, rval := Arithmetic(ir);
      } else if op == 0x0f {
        rdid := 0;
      } else if op == 0x2f {
        rdid, rval, trap := Atomics(ir);
      } else {
        trap := 3;
      }
    }

    /** One turn of the loop is a step of the definition exactly when the data access, if any, has room for four
        bytes.  A trap ends the turn before anything is written back. */
    method Turn() returns (trap: nat)
      requires Ready()
      modifies this
      ensures Ready() && (trap != 0 ==> Current() == old(Current()))
      ensures Step(c, old(Current())).Retired? ==>
                if Reaches(c, old(Current()))
                then trap == 0 && Step(c, old(Current())) == Retired(Current())
                else trap == if Decode(Fetch(old(Current()))).Load? then 6 else 8
    {
      hide Decode, Execute, Add, OutOfImage, OutsideRam, InRam, Offset, LoadMemory, Unaligned4;
      if InRam(c, pc, Word) {
        WordInImage(c, pc);
      }
      ReachesIsImaged();
      OffsetAlignment(pc);
      if OutsideRam(c, Offset(pc)) {
        trap := 2;
      } else if Unaligned4(Offset(pc)) {
        trap := 1;
      } else {
        var ir := LoadMemory(mem, Offset(pc), Word);
        var rdid, rval;
        rdid, rval, trap := Switch(ir);
        if trap == 0 {
          if rdid != 0 {
            regs := regs[rdid := rval];
          }
          pc := Add(pc, 4);
        }
      }
    }

    lemma ReachesIsImaged()
      requires Ready()
      ensures c.ramSize >= 4 ==> (Reaches(c, Current()) <==> Imaged(Current(), Decode(Fetch(Current()))))
    {
      hide Decode, Fetch, Add, Offset, InRam, OutOfImage;
      var d := Decode(Fetch(Current()));
      if c.ramSize >= 4 && (d.Load? || d.Store?) {
        ImageIsWordInRam(c, DataAddress(Current(), d));
      }
    }

    /** MiniRV32IMAStep without timer, interrupts and traps: turns of the loop until the count or a trap. */
    method StepMany(count: nat) returns (trap: nat)
      requires Ready()
      modifies this
      ensures Ready()
      ensures Run(c, old(Current()), count).Retired? ==>
                && (trap == 0 <==> ReachesAll(c, old(Current()), count))
                && (trap == 0 ==> Run(c, old(Current()), count) == Retired(Current()))
    {
      hide Step, Reaches;
      trap := 0;
      var icount := 0;
      while icount < count && trap == 0
        invariant icount <= count && Ready()
        invariant Run(c, old(Current()), count).Retired? ==>
                    if trap == 0 then
                      && Run(c, Current(), count - icount) == Run(c, old(Current()), count)
                      && (ReachesAll(c, Current(), count - icount) <==> ReachesAll(c, old(Current()), count))
                    else !ReachesAll(c, old(Current()), count)
        decreases count - icount, trap == 0
      {
        trap := Turn();
        icount := icount + 1;
      }
    }
  }
}
