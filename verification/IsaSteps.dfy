/** Each instruction of the definition as a step on numbers: where it goes on, what it writes, and when it is excluded. */
module IsaSteps {
  import opened MachineWords
  import opened Isa
  import opened Powers
  import opened WordBits
  import opened WordNumbers
  import opened IsaNumbers
  import opened IsaFields
  import opened IsaMemory

  lemma AlignmentMasks()
    ensures OnesBelow(1) && OnesBelow(3) && Number(1) == 1 && Number(3) == 3 && Number(4) == 4
    ensures Number(0x8000_0000) == 0x8000_0000
  {
  }

  lemma MaskedLow(a: bv32)
    ensures a & 3 == And(a, 3) && a & 1 == And(a, 1)
  {
  }

  lemma LowBitCleared(a: bv32)
    ensures Apart(ClearLowBit(a), And(a, 1)) && Or(ClearLowBit(a), And(a, 1)) == a
  {
  }

  /** Alignment is divisibility, and clearing the low bit rounds down to an even number. */
  lemma AlignmentNumbers(a: bv32)
    ensures Unaligned4(a) <==> Number(a) % 4 != 0
    ensures a & 1 == 0 <==> Number(a) % 2 == 0
    ensures Number(ClearLowBit(a)) == Number(a) - Number(a) % 2
  {
    AlignmentMasks();
    MaskedLow(a);
    LowBitCleared(a);
    ZeroNumber(a & 3);
    ZeroNumber(a & 1);
    hide Number, And, ClearLowBit, Apart, Or, OnesBelow;
    MaskedNumber(a, 3);
    MaskedNumber(a, 1);
    ApartNumber(ClearLowBit(a), And(a, 1));
  }

  /** RAM begins at 2^31. */
  lemma OffsetNumber(a: bv32)
    ensures Number(Offset(a)) == (Number(a) - 0x8000_0000) % WORDS
  {
    AlignmentMasks();
    OffsetIsSub(a);
    SubNumber(a, 0x8000_0000);
    hide *;
  }

  lemma OffsetIsSub(a: bv32)
    ensures Offset(a) == Sub(a, 0x8000_0000)
  {
  }

  /** A displacement counts as a signed number. */
  lemma DisplacedNumber(a: bv32, imm: bv32)
    ensures Number(Add(a, imm)) == (Number(a) + ToSigned(imm)) % WORDS
  {
    AddNumber(a, imm);
    SignedNumber(imm);
    hide Number, Add, ToSigned;
  }

  // ---------- Steps ----------

  /** The state r is s, gone on at pc, with v in register rd (register 0 stays zero) and with the given memory. */
  predicate Moved(s: State, r: State, pc: nat, rd: Reg, v: nat, mem: Memory) {
    && |s.regs| == |r.regs| == 32
    && Number(r.pc) == pc && r.mem == mem
    && (forall k | 0 <= k < 32 && k != rd :: r.regs[k] == s.regs[k])
    && (if rd == 0 then r.regs[0] == s.regs[0] else Number(r.regs[rd]) == v)
  }

  function After(s: State, n: int): nat {
    (Number(s.pc) + n) % WORDS
  }

  lemma Following(s: State)
    ensures Number(Add(s.pc, 4)) == After(s, 4)
  {
    AlignmentMasks();
    AddNumber(s.pc, 4);
    hide Number, Add;
  }

  lemma NextMoves(s: State, rd: Reg, v: bv32)
    requires ValidState(s)
    ensures Moved(s, Next(s, rd, v), After(s, 4), rd, Number(v), s.mem)
  {
    Following(s);
    hide Number, Add, After;
  }

  lemma JumpMoves(s: State, rd: Reg, target: bv32)
    requires ValidState(s)
    ensures match JumpTo(s, rd, target)
            case Excluded => Number(target) % 4 != 0
            case Retired(r) => Number(target) % 4 == 0 && Moved(s, r, Number(target), rd, After(s, 4), s.mem)
  {
    Following(s);
    AlignmentNumbers(target);
    hide Number, Add, After, Unaligned4;
  }

  /** Upper immediates. */
  lemma UpperSteps(c: Config, s: State, rd: Reg, imm: bv32)
    requires ValidState(s)
    ensures var r := Execute(c, s, Lui(rd, imm));
            r.Retired? && Moved(s, r.s, After(s, 4), rd, Number(imm), s.mem)
    ensures var r := Execute(c, s, Auipc(rd, imm));
            r.Retired? && Moved(s, r.s, After(s, 4), rd, After(s, Number(imm)), s.mem)
  {
    NextMoves(s, rd, imm);
    NextMoves(s, rd, Add(s.pc, imm));
    AddNumber(s.pc, imm);
    hide Number, Add, Next, Moved;
  }

  /** Jumps leave the address of the next instruction behind and are excluded where the target is unaligned. */
  lemma JumpSteps(c: Config, s: State, rd: Reg, rs1: Reg, imm: bv32)
    requires ValidState(s)
    ensures var target := After(s, ToSigned(imm));
            match Execute(c, s, Jal(rd, imm)) {
              case Excluded => target % 4 != 0
              case Retired(r) => target % 4 == 0 && Moved(s, r, target, rd, After(s, 4), s.mem)
            }
    ensures var sum := (Number(s.regs[rs1]) + ToSigned(imm)) % WORDS;
            var target := sum - sum % 2;
            match Execute(c, s, Jalr(rd, rs1, imm)) {
              case Excluded => target % 4 != 0
              case Retired(r) => target % 4 == 0 && Moved(s, r, target, rd, After(s, 4), s.mem)
            }
  {
    hide Number, Add, Moved, JumpTo, ClearLowBit, ToSigned, Execute;
    var sum := Add(s.regs[rs1], imm);
    JumpInstructions(c, s, rd, rs1, imm);
    DisplacedNumber(s.pc, imm);
    DisplacedNumber(s.regs[rs1], imm);
    AlignmentNumbers(sum);
    JumpMoves(s, rd, Add(s.pc, imm));
    JumpMoves(s, rd, ClearLowBit(sum));
  }

  lemma JumpInstructions(c: Config, s: State, rd: Reg, rs1: Reg, imm: bv32)
    requires ValidState(s)
    ensures Execute(c, s, Jal(rd, imm)) == JumpTo(s, rd, Add(s.pc, imm))
    ensures Execute(c, s, Jalr(rd, rs1, imm)) == JumpTo(s, rd, ClearLowBit(Add(s.regs[rs1], imm)))
  {
    hide Add, JumpTo, ClearLowBit;
  }

  /** Branches. */
  lemma BranchSteps(c: Config, s: State, cond: Condition, rs1: Reg, rs2: Reg, imm: bv32)
    requires ValidState(s)
    ensures var target := After(s, if Taken(cond, s.regs[rs1], s.regs[rs2]) then ToSigned(imm) else 4);
            match Execute(c, s, Branch(cond, rs1, rs2, imm)) {
              case Excluded => Taken(cond, s.regs[rs1], s.regs[rs2]) && target % 4 != 0
              case Retired(r) =>
                && (Taken(cond, s.regs[rs1], s.regs[rs2]) ==> target % 4 == 0)
                && Moved(s, r, target, 0, 0, s.mem)
            }
  {
    hide Number, Add, Taken, Unaligned4, ToSigned, Execute;
    BranchInstructions(c, s, Branch(cond, rs1, rs2, imm));
    DisplacedNumber(s.pc, imm);
    AlignmentNumbers(Add(s.pc, imm));
    Following(s);
  }

  /** The address of an access, and whether all its bytes lie in RAM and it is aligned or need not be. */
  function Accessed(s: State, rs1: Reg, imm: bv32): nat
    requires ValidState(s)
  {
    (Number(s.regs[rs1]) + ToSigned(imm)) % WORDS
  }

  predicate Reachable(c: Config, address: nat, w: Width) {
    && (address - 0x8000_0000) % WORDS + Bytes(w) <= c.ramSize
    && (c.misaligned || address % Bytes(w) == 0)
  }

  lemma ReachableExactly(c: Config, a: bv32, w: Width)
    ensures InRam(c, a, w) && Aligned(c, a, w) <==> Reachable(c, Number(a), w)
    ensures InRam(c, a, w) <==> (Number(a) - 0x8000_0000) % WORDS + Bytes(w) <= c.ramSize
  {
    hide Number, Offset, InRam, Aligned, Unaligned4;
    AccessNumbers(c, a, w);
    OffsetNumber(a);
    AlignmentNumbers(a);
  }

  lemma AccessNumbers(c: Config, a: bv32, w: Width)
    ensures InRam(c, a, w) <==> Number(Offset(a)) + Bytes(w) <= c.ramSize
    ensures Aligned(c, a, w) <==> c.misaligned || w == Byte || (w == Half && a & 1 == 0) || (w == Word && !Unaligned4(a))
  {
    hide Offset;
  }

  /** Loads read the bytes from their address on as a signed or an unsigned number. */
  lemma LoadSteps(c: Config, s: State, w: Width, signed: bool, rd: Reg, rs1: Reg, imm: bv32)
    requires ValidState(s)
    ensures var address := Accessed(s, rs1, imm);
            var v := LittleEndian(s.mem, (address - 0x8000_0000) % WORDS, Bytes(w));
            var x := if signed && 2 * v >= Size(w) then v - Size(w) else v;
            match Execute(c, s, Load(w, signed, rd, rs1, imm)) {
              case Excluded => !Reachable(c, address, w)
              case Retired(r) => Reachable(c, address, w) && Moved(s, r, After(s, 4), rd, x % WORDS, s.mem)
            }
  {
    hide Number, Add, Offset, InRam, Aligned, LoadMemory, Extend, Next, Moved, ToSigned, LittleEndian, Execute;
    var a := Add(s.regs[rs1], imm);
    LoadInstruction(c, s, w, signed, rd, rs1, imm);
    DisplacedNumber(s.regs[rs1], imm);
    ReachableExactly(c, a, w);
    OffsetNumber(a);
    if InRam(c, a, w) {
      LoadedNumber(s.mem, Offset(a), w, signed);
      NextMoves(s, rd, Extend(w, signed, LoadMemory(s.mem, Offset(a), w)));
    }
  }

  lemma LoadInstruction(c: Config, s: State, w: Width, signed: bool, rd: Reg, rs1: Reg, imm: bv32)
    requires ValidState(s)
    ensures var a := Add(s.regs[rs1], imm);
            Execute(c, s, Load(w, signed, rd, rs1, imm))
            == if InRam(c, a, w) && Aligned(c, a, w) then Retired(Next(s, rd, Extend(w, signed, LoadMemory(s.mem, Offset(a), w))))
               else Excluded
  {
    hide Add, InRam, Aligned, Next, Extend, LoadMemory, Offset;
  }

  lemma LoadedNumber(m: Memory, o: bv32, w: Width, signed: bool)
    requires Number(o) + Bytes(w) <= WORDS
    ensures var v := LittleEndian(m, Number(o), Bytes(w));
            Number(Extend(w, signed, LoadMemory(m, o, w))) == (if signed && 2 * v >= Size(w) then v - Size(w) else v) % WORDS
  {
    hide Number, ToSigned, Extend, LoadMemory, LittleEndian;
    var v := LoadMemory(m, o, w);
    LoadNumber(m, o, w);
    LittleEndianSize(m, Number(o), w);
    ExtendNumber(w, v);
    ToSignedExactly(Extend(w, true, v), ToSigned(Extend(w, true, v)));
  }

  lemma LittleEndianSize(m: Memory, k: int, w: Width)
    ensures LittleEndian(m, k, Bytes(w)) < Size(w)
  {
    FourBytes(m, k);
    hide LittleEndian, ByteNumber;
  }

  /** Stores write the low bytes of a register from their address on. */
  lemma StoreSteps(c: Config, s: State, w: Width, rs1: Reg, rs2: Reg, imm: bv32)
    requires ValidState(s)
    ensures var address := Accessed(s, rs1, imm);
            match Execute(c, s, Store(w, rs1, rs2, imm)) {
              case Excluded => !Reachable(c, address, w)
              case Retired(r) =>
                && Reachable(c, address, w)
                && Moved(s, r, After(s, 4), 0, 0, r.mem)
                && Written(s.mem, r.mem, (address - 0x8000_0000) % WORDS, w, Number(s.regs[rs2]))
            }
  {
    hide Number, Add, Offset, InRam, Aligned, StoreMemory, ToSigned, Written, Execute;
    var a := Add(s.regs[rs1], imm);
    StoreInstruction(c, s, w, rs1, rs2, imm);
    DisplacedNumber(s.regs[rs1], imm);
    ReachableExactly(c, a, w);
    OffsetNumber(a);
    Following(s);
    if InRam(c, a, w) {
      WrittenByStore(s.mem, Offset(a), w, s.regs[rs2]);
    }
  }

  lemma StoreInstruction(c: Config, s: State, w: Width, rs1: Reg, rs2: Reg, imm: bv32)
    requires ValidState(s)
    ensures var a := Add(s.regs[rs1], imm);
            Execute(c, s, Store(w, rs1, rs2, imm))
            == if InRam(c, a, w) && Aligned(c, a, w) then
                 Retired(s.(pc := Add(s.pc, 4), mem := StoreMemory(s.mem, Offset(a), w, s.regs[rs2])))
               else Excluded
  {
    hide Add, InRam, Aligned, StoreMemory, Offset;
  }

  /** The memory n is m with the low bytes of a number written from offset k on, lowest first. */
  ghost predicate Written(m: Memory, n: Memory, k: int, w: Width, v: nat) {
    forall j :: ByteNumber(n, j) == if k <= j < k + Bytes(w) then ByteOf(v, j - k) else ByteNumber(m, j)
  }

  lemma WrittenByStore(m: Memory, o: bv32, w: Width, v: bv32)
    requires Number(o) + Bytes(w) <= WORDS
    ensures Written(m, StoreMemory(m, o, w, v), Number(o), w, Number(v))
  {
    forall j
      ensures ByteNumber(StoreMemory(m, o, w, v), j)
           == if Number(o) <= j < Number(o) + Bytes(w) then ByteOf(Number(v), j - Number(o)) else ByteNumber(m, j)
    {
      StoreNumber(m, o, w, v, j);
    }
    hide Number, StoreMemory, ByteNumber, ByteOf;
  }

  /** AMOs give the old word at their address and write the new one. */
  lemma AmoSteps(c: Config, s: State, op: AmoOp, rd: Reg, rs1: Reg, rs2: Reg)
    requires ValidState(s)
    ensures var address := Number(s.regs[rs1]);
            var k := (address - 0x8000_0000) % WORDS;
            match Execute(c, s, Amo(op, rd, rs1, rs2)) {
              case Excluded => !(k + 4 <= c.ramSize && address % 4 == 0)
              case Retired(r) =>
                && k + 4 <= c.ramSize && address % 4 == 0
                && Moved(s, r, After(s, 4), rd, LittleEndian(s.mem, k, 4), r.mem)
                && exists t: bv32 :: Number(t) == LittleEndian(s.mem, k, 4)
                     && Written(s.mem, r.mem, k, Word, Number(ComputeAmo(op, t, s.regs[rs2])))
            }
  {
    hide Number, Add, Offset, InRam, StoreMemory, LoadMemory, ComputeAmo, Unaligned4, Written, LittleEndian, Execute, Write;
    var a := s.regs[rs1];
    AmoInstruction(c, s, op, rd, rs1, rs2);
    ReachableExactly(c, a, Word);
    AlignmentNumbers(a);
    OffsetNumber(a);
    Following(s);
    var t := LoadMemory(s.mem, Offset(a), Word);
    RegisterWritten(s.regs, rd, t);
    if InRam(c, a, Word) {
      LoadNumber(s.mem, Offset(a), Word);
      WrittenByStore(s.mem, Offset(a), Word, ComputeAmo(op, t, s.regs[rs2]));
    }
  }

  lemma AmoInstruction(c: Config, s: State, op: AmoOp, rd: Reg, rs1: Reg, rs2: Reg)
    requires ValidState(s)
    ensures var a := s.regs[rs1];
            var t := LoadMemory(s.mem, Offset(a), Word);
            Execute(c, s, Amo(op, rd, rs1, rs2))
            == if InRam(c, a, Word) && !Unaligned4(a) then
                 Retired(State(Write(s.regs, rd, t), Add(s.pc, 4),
                               StoreMemory(s.mem, Offset(a), Word, ComputeAmo(op, t, s.regs[rs2]))))
               else Excluded
  {
    hide Add, InRam, Unaligned4, StoreMemory, LoadMemory, Offset, ComputeAmo, Write;
  }

  lemma RegisterWritten(regs: seq<bv32>, rd: Reg, v: bv32)
    requires |regs| == 32
    ensures |Write(regs, rd, v)| == 32
    ensures forall k | 0 <= k < 32 :: Write(regs, rd, v)[k] == if k == rd && k != 0 then v else regs[k]
  {
  }

  /** Operations on registers write what they compute, and fences do nothing. */
  lemma RegisterSteps(c: Config, s: State, alu: Alu, m: MulDivOp, rd: Reg, rs1: Reg, rs2: Reg, imm: bv32)
    requires ValidState(s)
    ensures var x, y := s.regs[rs1], s.regs[rs2];
            && Execute(c, s, OpImm(alu, rd, rs1, imm)).Retired?
            && Moved(s, Execute(c, s, OpImm(alu, rd, rs1, imm)).s, After(s, 4), rd, Number(Compute(alu, x, imm)), s.mem)
            && Execute(c, s, Op(alu, rd, rs1, rs2)).Retired?
            && Moved(s, Execute(c, s, Op(alu, rd, rs1, rs2)).s, After(s, 4), rd, Number(Compute(alu, x, y)), s.mem)
            && Execute(c, s, MulDiv(m, rd, rs1, rs2)).Retired?
            && Moved(s, Execute(c, s, MulDiv(m, rd, rs1, rs2)).s, After(s, 4), rd, Number(ComputeMulDiv(m, x, y)), s.mem)
    ensures Execute(c, s, Fence).Retired? && Moved(s, Execute(c, s, Fence).s, After(s, 4), 0, 0, s.mem)
  {
    AluInstructions(c, s, alu, rd, rs1, rs2, imm);
    MulDivInstructions(c, s, m, rd, rs1, rs2);
    NextMoves(s, rd, Compute(alu, s.regs[rs1], imm));
    NextMoves(s, rd, Compute(alu, s.regs[rs1], s.regs[rs2]));
    NextMoves(s, rd, ComputeMulDiv(m, s.regs[rs1], s.regs[rs2]));
    FenceMoves(c, s);
    hide Number, Compute, ComputeMulDiv, Next, Moved, Execute;
  }

  lemma FenceMoves(c: Config, s: State)
    requires ValidState(s)
    ensures Execute(c, s, Fence).Retired? && Moved(s, Execute(c, s, Fence).s, After(s, 4), 0, 0, s.mem)
  {
    Following(s);
    hide Number, Add;
  }
}
