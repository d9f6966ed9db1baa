/** 32-bit machine words as the C language computes with them. */
module MachineWords {
  // The operations of unsigned words, by name.

  function Add(a: bv32, b: bv32): bv32 { a + b }
  function Sub(a: bv32, b: bv32): bv32 { a - b }
  function And(a: bv32, b: bv32): bv32 { a & b }
  function Or(a: bv32, b: bv32): bv32 { a | b }
  function Xor(a: bv32, b: bv32): bv32 { a ^ b }
  function Complement(a: bv32): bv32 { !a }
  predicate Less(a: bv32, b: bv32) { a as int < b as int }

  function ShiftLeft(a: bv32, n: bv32): bv32
    requires n < 32
  {
    a << n
  }

  function ShiftRight(a: bv32, n: bv32): bv32
    requires n < 32
  {
    a >> n
  }

  /** The five bits that give a shift amount. */
  function Amount(b: bv32): (n: bv32)
    ensures n < 32
  {
    b & 0x1f
  }

  /** Whether a word is not a multiple of four. */
  predicate Unaligned4(a: bv32) {
    a & 3 != 0
  }

  function ClearLowBit(a: bv32): bv32 {
    a & 0xffff_fffe
  }

  /** Comparison of words as signed numbers. */
  predicate SignedLess(a: bv32, b: bv32) {
    Less(a ^ 0x8000_0000, b ^ 0x8000_0000)
  }

  /** Shift right that copies the sign. */
  function ShiftSigned(a: bv32, n: bv32): bv32
    requires n < 32
  {
    if a & 0x8000_0000 != 0 then Complement(ShiftRight(Complement(a), n)) else ShiftRight(a, n)
  }

  function ToSigned(a: bv32): int {
    if a & 0x8000_0000 != 0 then a as int - 0x1_0000_0000 else a as int
  }

  function ToWord(x: int): bv32 {
    (x % 0x1_0000_0000) as bv32
  }

  // Products as the 64-bit arithmetic of C gives them: unsigned when either factor is.

  function Wrap64(x: int): int {
    x % 0x1_0000_0000_0000_0000
  }

  function HighSigned(a: bv32, b: bv32): bv32 {
    ToWord((ToSigned(a) * ToSigned(b)) / 0x1_0000_0000)
  }

  function HighMixed(a: bv32, b: bv32): bv32 {
    ToWord(Wrap64(Wrap64(ToSigned(a)) * b as int) / 0x1_0000_0000)
  }

  function HighUnsigned(a: bv32, b: bv32): bv32 {
    ToWord(Wrap64(a as int * b as int) / 0x1_0000_0000)
  }

  function LowSigned(a: bv32, b: bv32): bv32 {
    ToWord(ToSigned(a) * ToSigned(b))
  }

  function LowUnsigned(a: bv32, b: bv32): bv32 {
    ToWord(a as int * b as int)
  }

  /** Division and remainder of signed numbers, rounded toward zero. */
  function Quotient(x: int, y: int): int
    requires y != 0
  {
    var q := (if x < 0 then -x else x) / (if y < 0 then -y else y);
    if (x < 0) == (y < 0) then q else -q
  }

  function Remainder(x: int, y: int): int
    requires y != 0
  {
    x - y * Quotient(x, y)
  }

  function Nonzero(b: bv32): (n: int)
    requires b != 0
    ensures n != 0
  {
    b as int
  }

  function SignedNonzero(b: bv32): (n: int)
    requires b != 0
    ensures n != 0
  {
    ToSigned(b)
  }

  function DivideSigned(a: bv32, b: bv32): bv32
    requires b != 0
  {
    ToWord(Quotient(ToSigned(a), SignedNonzero(b)))
  }

  function RemainderSigned(a: bv32, b: bv32): bv32
    requires b != 0
  {
    ToWord(Remainder(ToSigned(a), SignedNonzero(b)))
  }

  function DivideUnsigned(a: bv32, b: bv32): bv32
    requires b != 0
  {
    ToWord(Quotient(a as int, Nonzero(b)))
  }

  function RemainderUnsigned(a: bv32, b: bv32): bv32
    requires b != 0
  {
    ToWord(Remainder(a as int, Nonzero(b)))
  }
}

/** The RV32IM, fence and AMO instructions as the RISC-V Unprivileged ISA (20191213) defines them: chapter 2 for
    the base set and its immediates, chapter 3 for FENCE.I, chapter 7 for M, section 8.4 for the AMOs.
    Instructions and situations in which a hart would trap or leave this subset are excluded. */
module Isa {
  import opened MachineWords

  datatype Condition = Beq | Bne | Blt | Bge | Bltu | Bgeu
  datatype Alu = AddOp | SubOp | SllOp | SltOp | SltuOp | XorOp | SrlOp | SraOp | OrOp | AndOp
  datatype MulDivOp = MulOp | MulhOp | MulhsuOp | MulhuOp | DivOp | DivuOp | RemOp | RemuOp
  datatype AmoOp = SwapAmo | AddAmo | XorAmo | AndAmo | OrAmo | MinAmo | MaxAmo | MinuAmo | MaxuAmo
  datatype Width = Byte | Half | Word

  type Reg = r: nat | r < 32

  datatype Instr =
    | Lui(rd: Reg, imm: bv32)
    | Auipc(rd: Reg, imm: bv32)
    | Jal(rd: Reg, imm: bv32)
    | Jalr(rd: Reg, rs1: Reg, imm: bv32)
    | Branch(cond: Condition, rs1: Reg, rs2: Reg, imm: bv32)
    | Load(width: Width, signed: bool, rd: Reg, rs1: Reg, imm: bv32)
    | Store(width: Width, rs1: Reg, rs2: Reg, imm: bv32)
    | OpImm(alu: Alu, rd: Reg, rs1: Reg, imm: bv32)
    | Op(alu: Alu, rd: Reg, rs1: Reg, rs2: Reg)
    | MulDiv(m: MulDivOp, rd: Reg, rs1: Reg, rs2: Reg)
    | Amo(amo: AmoOp, rd: Reg, rs1: Reg, rs2: Reg)
    | Fence
    | Other

  // ---------- Fields and immediates ----------

  function Index(x: bv32): Reg {
    (x & 0x1f) as nat
  }

  function Rd(i: bv32): Reg { Index(i >> 7) }
  function Rs1(i: bv32): Reg { Index(i >> 15) }
  function Rs2(i: bv32): Reg { Index(i >> 20) }

  // In every immediate the upper bits are copies of the instruction's top bit.

  function ImmI(i: bv32): bv32 {
    (if i & 0x8000_0000 != 0 then 0xffff_f800 else 0) | ((i >> 20) & 0x7ff)
  }

  function ImmS(i: bv32): bv32 {
    (if i & 0x8000_0000 != 0 then 0xffff_f800 else 0) | (((i >> 25) & 0x3f) << 5) | ((i >> 7) & 0x1f)
  }

  function ImmB(i: bv32): bv32 {
    (if i & 0x8000_0000 != 0 then 0xffff_f000 else 0) | (((i >> 7) & 1) << 11) | (((i >> 25) & 0x3f) << 5)
    | (((i >> 8) & 0xf) << 1)
  }

  function ImmU(i: bv32): bv32 {
    i & 0xffff_f000
  }

  function ImmJ(i: bv32): bv32 {
    (if i & 0x8000_0000 != 0 then 0xfff0_0000 else 0) | (((i >> 12) & 0xff) << 12) | (((i >> 20) & 1) << 11)
    | (((i >> 25) & 0x3f) << 5) | (((i >> 21) & 0xf) << 1)
  }

  // ---------- Decoding ----------

  function Opcode(i: bv32): bv32 { i & 0x7f }
  function Funct3(i: bv32): bv32 { (i >> 12) & 7 }
  function Funct7(i: bv32): bv32 { i >> 25 }
  function Funct5(i: bv32): bv32 { i >> 27 }

  function DecodeBranch(i: bv32): Instr {
    var f := Funct3(i);
    if f == 0 then Branch(Beq, Rs1(i), Rs2(i), ImmB(i))
    else if f == 1 then Branch(Bne, Rs1(i), Rs2(i), ImmB(i))
    else if f == 4 then Branch(Blt, Rs1(i), Rs2(i), ImmB(i))
    else if f == 5 then Branch(Bge, Rs1(i), Rs2(i), ImmB(i))
    else if f == 6 then Branch(Bltu, Rs1(i), Rs2(i), ImmB(i))
    else if f == 7 then Branch(Bgeu, Rs1(i), Rs2(i), ImmB(i))
    else Other
  }

  function DecodeLoad(i: bv32): Instr {
    var f := Funct3(i);
    if f == 0 then Load(Byte, true, Rd(i), Rs1(i), ImmI(i))
    else if f == 1 then Load(Half, true, Rd(i), Rs1(i), ImmI(i))
    else if f == 2 then Load(Word, true, Rd(i), Rs1(i), ImmI(i))
    else if f == 4 then Load(Byte, false, Rd(i), Rs1(i), ImmI(i))
    else if f == 5 then Load(Half, false, Rd(i), Rs1(i), ImmI(i))
    else Other
  }

  function DecodeStore(i: bv32): Instr {
    var f := Funct3(i);
    if f == 0 then Store(Byte, Rs1(i), Rs2(i), ImmS(i))
    else if f == 1 then Store(Half, Rs1(i), Rs2(i), ImmS(i))
    else if f == 2 then Store(Word, Rs1(i), Rs2(i), ImmS(i))
    else Other
  }

  function DecodeOpImm(i: bv32): Instr {
    var f, g := Funct3(i), Funct7(i);
    if f == 0 then OpImm(AddOp, Rd(i), Rs1(i), ImmI(i))
    else if f == 2 then OpImm(SltOp, Rd(i), Rs1(i), ImmI(i))
    else if f == 3 then OpImm(SltuOp, Rd(i), Rs1(i), ImmI(i))
    else if f == 4 then OpImm(XorOp, Rd(i), Rs1(i), ImmI(i))
    else if f == 6 then OpImm(OrOp, Rd(i), Rs1(i), ImmI(i))
    else if f == 7 then OpImm(AndOp, Rd(i), Rs1(i), ImmI(i))
    else if f == 1 && g == 0 then OpImm(SllOp, Rd(i), Rs1(i), ImmI(i))
    else if f == 5 && g == 0 then OpImm(SrlOp, Rd(i), Rs1(i), ImmI(i))
    else if f == 5 && g == 0x20 then OpImm(SraOp, Rd(i), Rs1(i), ImmI(i))
    else Other
  }

  function DecodeAlu(f: bv32): Alu
    requires f < 8
  {
    if f == 0 then AddOp else if f == 1 then SllOp else if f == 2 then SltOp else if f == 3 then SltuOp
    else if f == 4 then XorOp else if f == 5 then SrlOp else if f == 6 then OrOp else AndOp
  }

  function DecodeMulDiv(f: bv32): MulDivOp
    requires f < 8
  {
    if f == 0 then MulOp else if f == 1 then MulhOp else if f == 2 then MulhsuOp else if f == 3 then MulhuOp
    else if f == 4 then DivOp else if f == 5 then DivuOp else if f == 6 then RemOp else RemuOp
  }

  function DecodeOp(i: bv32): Instr {
    var f, g := Funct3(i), Funct7(i);
    if g == 0 then Op(DecodeAlu(f), Rd(i), Rs1(i), Rs2(i))
    else if g == 0x20 && f == 0 then Op(SubOp, Rd(i), Rs1(i), Rs2(i))
    else if g == 0x20 && f == 5 then Op(SraOp, Rd(i), Rs1(i), Rs2(i))
    else if g == 1 then MulDiv(DecodeMulDiv(f), Rd(i), Rs1(i), Rs2(i))
    else Other
  }

  function DecodeAmo(i: bv32): Instr {
    var f := Funct5(i);
    if Funct3(i) != 2 then Other
    else if f == 1 then Amo(SwapAmo, Rd(i), Rs1(i), Rs2(i))
    else if f == 0 then Amo(AddAmo, Rd(i), Rs1(i), Rs2(i))
    else if f == 4 then Amo(XorAmo, Rd(i), Rs1(i), Rs2(i))
    else if f == 12 then Amo(AndAmo, Rd(i), Rs1(i), Rs2(i))
    else if f == 8 then Amo(OrAmo, Rd(i), Rs1(i), Rs2(i))
    else if f == 16 then Amo(MinAmo, Rd(i), Rs1(i), Rs2(i))
    else if f == 20 then Amo(MaxAmo, Rd(i), Rs1(i), Rs2(i))
    else if f == 24 then Amo(MinuAmo, Rd(i), Rs1(i), Rs2(i))
    else if f == 28 then Amo(MaxuAmo, Rd(i), Rs1(i), Rs2(i))
    else Other
  }

  function Decode(i: bv32): Instr {
    var op := Opcode(i);
    if op == 0x37 then Lui(Rd(i), ImmU(i))
    else if op == 0x17 then Auipc(Rd(i), ImmU(i))
    else if op == 0x6f then Jal(Rd(i), ImmJ(i))
    else if op == 0x67 then if Funct3(i) == 0 then Jalr(Rd(i), Rs1(i), ImmI(i)) else Other
    else if op == 0x63 then DecodeBranch(i)
    else if op == 0x03 then DecodeLoad(i)
    else if op == 0x23 then DecodeStore(i)
    else if op == 0x13 then DecodeOpImm(i)
    else if op == 0x33 then DecodeOp(i)
    else if op == 0x2f then DecodeAmo(i)
    else if op == 0x0f then
      // FENCE, with any mode, and FENCE.I; rd, rs1 and the other unused fields are ignored
      if Funct3(i) == 0 || Funct3(i) == 1 then Fence else Other
    else Other
  }

  // ---------- Execution ----------

  /** Memory by offset from the start of RAM; bytes never written read as zero. */
  type Memory = map<int, bv8>

  datatype State = State(regs: seq<bv32>, pc: bv32, mem: Memory)

  /** RAM starts at 0x80000000 and ends no later than the address space. */
  type RamSize = size: nat | size <= 0x8000_0000

  /** The size of RAM and whether misaligned loads and stores are supported. */
  datatype Config = Config(ramSize: RamSize, misaligned: bool)

  /** The offset of an address from the start of RAM. */
  function Offset(address: bv32): bv32 {
    address - 0x8000_0000
  }

  datatype Outcome = Excluded | Retired(s: State)

  predicate ValidState(s: State) {
    |s.regs| == 32 && s.regs[0] == 0
  }

  function Bytes(w: Width): int {
    match w
    case Byte => 1
    case Half => 2
    case Word => 4
  }

  /** All bytes of an access lie in RAM. */
  predicate InRam(c: Config, address: bv32, w: Width) {
    Offset(address) as int + Bytes(w) <= c.ramSize
  }

  function ByteAt(m: Memory, offset: bv32): bv32 {
    if offset as int in m then m[offset as int] as bv32 else 0
  }

  /** Four bytes side by side, the first lowest. */
  function SideBySide(a: bv32, b: bv32, c: bv32, d: bv32): bv32 {
    Or(Or(Or(a, ShiftLeft(b, 8)), ShiftLeft(c, 16)), ShiftLeft(d, 24))
  }

  function LoadWord(m: Memory, offset: bv32): bv32 {
    SideBySide(ByteAt(m, offset), ByteAt(m, Add(offset, 1)), ByteAt(m, Add(offset, 2)), ByteAt(m, Add(offset, 3)))
  }

  function LoadHalf(m: Memory, offset: bv32): bv32 {
    Or(ByteAt(m, offset), ShiftLeft(ByteAt(m, Add(offset, 1)), 8))
  }

  function LoadMemory(m: Memory, offset: bv32, w: Width): bv32 {
    match w
    case Byte => ByteAt(m, offset)
    case Half => LoadHalf(m, offset)
    case Word => LoadWord(m, offset)
  }

  function StoreByte(m: Memory, offset: bv32, v: bv32): Memory {
    m[offset as int := (v & 0xff) as bv8]
  }

  function StoreMemory(m: Memory, offset: bv32, w: Width, v: bv32): Memory {
    match w
    case Byte => StoreByte(m, offset, v)
    case Half => StoreByte(StoreByte(m, offset, v), Add(offset, 1), ShiftRight(v, 8))
    case Word =>
      var half := StoreByte(StoreByte(m, offset, v), Add(offset, 1), ShiftRight(v, 8));
      StoreByte(StoreByte(half, Add(offset, 2), ShiftRight(v, 16)), Add(offset, 3), ShiftRight(v, 24))
  }

  predicate Aligned(c: Config, address: bv32, w: Width) {
    c.misaligned ||
    match w {
      case Byte => true
      case Half => address & 1 == 0
      case Word => address & 3 == 0
    }
  }

  function Extend(w: Width, signed: bool, v: bv32): bv32 {
    match w
    case Byte => if signed && v & 0x80 != 0 then v | 0xffff_ff00 else v
    case Half => if signed && v & 0x8000 != 0 then v | 0xffff_0000 else v
    case Word => v
  }

  predicate Taken(c: Condition, a: bv32, b: bv32) {
    match c
    case Beq => a == b
    case Bne => a != b
    case Blt => SignedLess(a, b)
    case Bge => !SignedLess(a, b)
    case Bltu => Less(a, b)
    case Bgeu => !Less(a, b)
  }

  function Compute(alu: Alu, a: bv32, b: bv32): bv32 {
    match alu
    case AddOp => Add(a, b)
    case SubOp => Sub(a, b)
    case SllOp => ShiftLeft(a, Amount(b))
    case SltOp => if SignedLess(a, b) then 1 else 0
    case SltuOp => if Less(a, b) then 1 else 0
    case XorOp => Xor(a, b)
    case SrlOp => ShiftRight(a, Amount(b))
    case SraOp => ShiftSigned(a, Amount(b))
    case OrOp => Or(a, b)
    case AndOp => And(a, b)
  }

  /** The upper half of a 64-bit product. */
  function High(product: int): bv32 {
    ToWord(product / 0x1_0000_0000)
  }

  /** Division by zero gives all ones and leaves the dividend as remainder; the one overflow gives the dividend
      and remainder zero. */
  function ComputeMulDiv(m: MulDivOp, a: bv32, b: bv32): bv32 {
    var overflow := a == 0x8000_0000 && b == 0xffff_ffff;
    match m
    case MulOp => LowUnsigned(a, b)
    case MulhOp => High(ToSigned(a) * ToSigned(b))
    case MulhsuOp => High(ToSigned(a) * b as int)
    case MulhuOp => High(a as int * b as int)
    case DivOp => if b == 0 then 0xffff_ffff else if overflow then a else DivideSigned(a, b)
    case DivuOp => if b == 0 then 0xffff_ffff else DivideUnsigned(a, b)
    case RemOp => if b == 0 then a else if overflow then 0 else RemainderSigned(a, b)
    case RemuOp => if b == 0 then a else RemainderUnsigned(a, b)
  }

  function ComputeAmo(op: AmoOp, old_: bv32, b: bv32): bv32 {
    match op
    case SwapAmo => b
    case AddAmo => Add(old_, b)
    case XorAmo => Xor(old_, b)
    case AndAmo => And(old_, b)
    case OrAmo => Or(old_, b)
    case MinAmo => if SignedLess(old_, b) then old_ else b
    case MaxAmo => if SignedLess(b, old_) then old_ else b
    case MinuAmo => if Less(old_, b) then old_ else b
    case MaxuAmo => if Less(b, old_) then old_ else b
  }

  function Write(regs: seq<bv32>, rd: Reg, v: bv32): (r: seq<bv32>)
    requires |regs| == 32
    ensures |r| == 32 && (regs[0] == 0 ==> r[0] == 0)
  {
    if rd == 0 then regs else regs[rd := v]
  }

  /** The state after writing a register and going on to the next instruction. */
  function Next(s: State, rd: Reg, v: bv32): (r: State)
    requires ValidState(s)
    ensures ValidState(r)
  {
    State(Write(s.regs, rd, v), Add(s.pc, 4), s.mem)
  }

  function JumpTo(s: State, rd: Reg, target: bv32): (r: Outcome)
    requires ValidState(s)
    ensures r.Retired? ==> ValidState(r.s)
  {
    if Unaligned4(target) then Excluded else Retired(State(Write(s.regs, rd, Add(s.pc, 4)), target, s.mem))
  }

  function Execute(c: Config, s: State, d: Instr): (r: Outcome)
    requires ValidState(s)
    ensures r.Retired? ==> ValidState(r.s)
  {
    var x := s.regs;
    match d
    case Lui(rd, imm) => Retired(Next(s, rd, imm))
    case Auipc(rd, imm) => Retired(Next(s, rd, Add(s.pc, imm)))
    case Jal(rd, imm) => JumpTo(s, rd, Add(s.pc, imm))
    case Jalr(rd, rs1, imm) => JumpTo(s, rd, ClearLowBit(Add(x[rs1], imm)))
    case Branch(cond, rs1, rs2, imm) =>
      if Taken(cond, x[rs1], x[rs2]) then
        if Unaligned4(Add(s.pc, imm)) then Excluded else Retired(s.(pc := Add(s.pc, imm)))
      else Retired(s.(pc := Add(s.pc, 4)))
    case Load(w, signed, rd, rs1, imm) =>
      var address := Add(x[rs1], imm);
      if !InRam(c, address, w) || !Aligned(c, address, w) then Excluded
      else Retired(Next(s, rd, Extend(w, signed, LoadMemory(s.mem, Offset(address), w))))
    case Store(w, rs1, rs2, imm) =>
      var address := Add(x[rs1], imm);
      if !InRam(c, address, w) || !Aligned(c, address, w) then Excluded
      else Retired(s.(pc := Add(s.pc, 4), mem := StoreMemory(s.mem, Offset(address), w, x[rs2])))
    case OpImm(alu, rd, rs1, imm) => Retired(Next(s, rd, Compute(alu, x[rs1], imm)))
    case Op(alu, rd, rs1, rs2) => Retired(Next(s, rd, Compute(alu, x[rs1], x[rs2])))
    case MulDiv(m, rd, rs1, rs2) => Retired(Next(s, rd, ComputeMulDiv(m, x[rs1], x[rs2])))
    case Amo(amo, rd, rs1, rs2) =>
      var address := x[rs1];
      if !InRam(c, address, Word) || Unaligned4(address) then Excluded
      else
        var t := LoadMemory(s.mem, Offset(address), Word);
        var mem := StoreMemory(s.mem, Offset(address), Word, ComputeAmo(amo, t, x[rs2]));
        Retired(State(Write(x, rd, t), Add(s.pc, 4), mem))
    case Fence => Retired(s.(pc := Add(s.pc, 4)))
    case Other => Excluded
  }

  // The tables of operations, entry by entry.

  lemma AluTable(a: bv32, b: bv32)
    ensures Compute(AddOp, a, b) == Add(a, b) && Compute(SubOp, a, b) == Sub(a, b)
    ensures Compute(AndOp, a, b) == And(a, b) && Compute(OrOp, a, b) == Or(a, b) && Compute(XorOp, a, b) == Xor(a, b)
    ensures Compute(SltOp, a, b) == (if SignedLess(a, b) then 1 else 0)
    ensures Compute(SltuOp, a, b) == (if Less(a, b) then 1 else 0)
    ensures Compute(SllOp, a, b) == ShiftLeft(a, Amount(b))
    ensures Compute(SrlOp, a, b) == ShiftRight(a, Amount(b))
    ensures Compute(SraOp, a, b) == ShiftSigned(a, Amount(b))
  {
    hide Add, Sub, And, Or, Xor, Less, SignedLess, ShiftLeft, ShiftRight, ShiftSigned, Amount;
  }

  lemma DivisionTable(a: bv32, b: bv32)
    ensures var overflow := a == 0x8000_0000 && b == 0xffff_ffff;
            && ComputeMulDiv(DivOp, a, b)
               == (if b == 0 then 0xffff_ffff else if overflow then a else DivideSigned(a, b))
            && ComputeMulDiv(DivuOp, a, b) == (if b == 0 then 0xffff_ffff else DivideUnsigned(a, b))
            && ComputeMulDiv(RemOp, a, b) == (if b == 0 then a else if overflow then 0 else RemainderSigned(a, b))
            && ComputeMulDiv(RemuOp, a, b) == (if b == 0 then a else RemainderUnsigned(a, b))
  {
    hide DivideSigned, DivideUnsigned, RemainderSigned, RemainderUnsigned;
  }

  lemma BranchTable(a: bv32, b: bv32)
    ensures Taken(Beq, a, b) == (a == b) && Taken(Bne, a, b) == (a != b)
    ensures Taken(Blt, a, b) == SignedLess(a, b) && Taken(Bge, a, b) == !SignedLess(a, b)
    ensures Taken(Bltu, a, b) == Less(a, b) && Taken(Bgeu, a, b) == !Less(a, b)
  {
    hide Less, SignedLess;
  }

  // The register-writing instructions, and the words outside the subset, one by one.

  lemma AluInstructions(c: Config, s: State, alu: Alu, rd: Reg, rs1: Reg, rs2: Reg, imm: bv32)
    requires ValidState(s)
    ensures Execute(c, s, OpImm(alu, rd, rs1, imm)) == Retired(Next(s, rd, Compute(alu, s.regs[rs1], imm)))
    ensures Execute(c, s, Op(alu, rd, rs1, rs2)) == Retired(Next(s, rd, Compute(alu, s.regs[rs1], s.regs[rs2])))
  {
    hide Compute;
  }

  lemma MulDivInstructions(c: Config, s: State, m: MulDivOp, rd: Reg, rs1: Reg, rs2: Reg)
    requires ValidState(s)
    ensures Execute(c, s, MulDiv(m, rd, rs1, rs2)) == Retired(Next(s, rd, ComputeMulDiv(m, s.regs[rs1], s.regs[rs2])))
  {
    hide ComputeMulDiv;
  }

  lemma BranchInstructions(c: Config, s: State, d: Instr)
    requires ValidState(s) && d.Branch?
    ensures Execute(c, s, d)
         == if !Taken(d.cond, s.regs[d.rs1], s.regs[d.rs2]) then Retired(s.(pc := Add(s.pc, 4)))
            else if Unaligned4(Add(s.pc, d.imm)) then Excluded
            else Retired(s.(pc := Add(s.pc, d.imm)))
  {
    hide Taken, Add, Unaligned4;
  }

  lemma OtherInstructions(c: Config, s: State)
    requires ValidState(s)
    ensures Execute(c, s, Other) == Excluded
  {
  }

  function Fetch(s: State): bv32 {
    LoadMemory(s.mem, Offset(s.pc), Word)
  }

  /** One instruction. */
  function Step(c: Config, s: State): (r: Outcome)
    requires ValidState(s)
    ensures r.Retired? ==> ValidState(r.s)
  {
    if !InRam(c, s.pc, Word) || Unaligned4(s.pc) then Excluded else Execute(c, s, Decode(Fetch(s)))
  }

  /** n instructions, if none of them is excluded. */
  function Run(c: Config, s: State, n: nat): (r: Outcome)
    requires ValidState(s)
    ensures r.Retired? ==> ValidState(r.s)
    decreases n
  {
    if n == 0 then Retired(s)
    else
      var r := Step(c, s);
      if r == Excluded then Excluded else Run(c, r.s, n - 1)
  }
}
