/** The table of the interpreter under test: the pattern strings, and the instructions whose words they select. */
module InstTable {
  import opened MachineWords
  import opened Isa
  import opened PatternWords
  import opened Rv32Dut

  /** A row: the pattern string, field by field, and the mask and key it is decoded to.  AMO patterns have a space
      inside the first field. */
  datatype Row = Row(fields: Fields, space: string, mask: bv32, key: bv32) {
    function Text(): string {
      fields.Text(space)
    }
  }

  /** The string selects the words that the mask and key do. */
  predicate Right(r: Row, i: bv32) {
    Selects(r.Text(), i) <==> Selected(i, r.mask, r.key)
  }

  lemma Known(r: Row, i: bv32)
    requires r.fields.Valid() && r.space in {"", " "} && MaskOf(r.fields) == r.mask && KeyOf(r.fields) == r.key
    ensures Right(r, i)
  {
    hide Selects, Selected, MaskOf, KeyOf;
    Entry(r.fields, r.space, i, r.mask, r.key);
  }

  function UpperRow(op: string, key: bv32): Row {
    Row(Upper(op), "", 0x7f, key)
  }

  function ImmediateRow(f3: string, op: string, key: bv32): Row {
    Row(Immediate(f3, op), "", 0x707f, key)
  }

  function RegisterRow(high: string, low: string, f3: string, op: string, key: bv32): Row {
    Row(Register(high, low, f3, op), "", 0xfe00_707f, key)
  }

  // ---------- Branches ----------

  function BranchRow(x: Condition): Row {
    match x
    case Beq => ImmediateRow("000", "11000", 0x0063)
    case Bne => ImmediateRow("001", "11000", 0x1063)
    case Blt => ImmediateRow("100", "11000", 0x4063)
    case Bge => ImmediateRow("101", "11000", 0x5063)
    case Bltu => ImmediateRow("110", "11000", 0x6063)
    case Bgeu => ImmediateRow("111", "11000", 0x7063)
  }

  lemma BranchString(x: Condition, i: bv32)
    ensures Right(BranchRow(x), i)
  {
    TwoBitFields();
    ThreeBitFields();
    FiveBitFields();
    hide MaskWord, KeyWord, Right;
    match x
    case Beq => Known(ImmediateRow("000", "11000", 0x0063), i);
    case Bne => Known(ImmediateRow("001", "11000", 0x1063), i);
    case Blt => Known(ImmediateRow("100", "11000", 0x4063), i);
    case Bge => Known(ImmediateRow("101", "11000", 0x5063), i);
    case Bltu => Known(ImmediateRow("110", "11000", 0x6063), i);
    case Bgeu => Known(ImmediateRow("111", "11000", 0x7063), i);
  }

  lemma BranchKey(x: Condition, i: bv32)
    requires Selected(i, BranchRow(x).mask, BranchRow(x).key)
    ensures Decode(i).Branch? && Decode(i).cond == x
  {
    hide Decode, Register, Immediate;
    var masked := i & BranchRow(x).mask;
    assert masked == BranchRow(x).key;
    hide Selected;
    BranchPatterns(i);
  }

  lemma BranchFound(i: bv32)
    requires Decode(i).Branch?
    ensures var r := BranchRow(Decode(i).cond); Selected(i, r.mask, r.key)
  {
    hide Decode;
    BranchPatterns(i);
    BranchPatternsComplete(i);
  }

  lemma BranchDecodes(x: Condition, i: bv32)
    ensures Selects(BranchRow(x).Text(), i) <==> Decode(i).Branch? && Decode(i).cond == x
  {
    hide Decode, Selects, Selected, BranchRow;
    BranchString(x, i);
    if Selected(i, BranchRow(x).mask, BranchRow(x).key) {
      BranchKey(x, i);
    }
    if Decode(i).Branch? {
      BranchFound(i);
    }
  }

  // ---------- Stores ----------

  function StoreRow(x: Width): Row {
    match x
    case Byte => ImmediateRow("000", "01000", 0x0023)
    case Half => ImmediateRow("001", "01000", 0x1023)
    case Word => ImmediateRow("010", "01000", 0x2023)
  }

  lemma StoreString(x: Width, i: bv32)
    ensures Right(StoreRow(x), i)
  {
    TwoBitFields();
    ThreeBitFields();
    FiveBitFields();
    hide MaskWord, KeyWord, Right;
    match x
    case Byte => Known(ImmediateRow("000", "01000", 0x0023), i);
    case Half => Known(ImmediateRow("001", "01000", 0x1023), i);
    case Word => Known(ImmediateRow("010", "01000", 0x2023), i);
  }

  lemma StoreKey(x: Width, i: bv32)
    requires Selected(i, StoreRow(x).mask, StoreRow(x).key)
    ensures Decode(i).Store? && Decode(i).width == x
  {
    hide Decode, Register, Immediate;
    var masked := i & StoreRow(x).mask;
    assert masked == StoreRow(x).key;
    hide Selected;
    StorePatterns(i);
  }

  lemma StoreFound(i: bv32)
    requires Decode(i).Store?
    ensures var r := StoreRow(Decode(i).width); Selected(i, r.mask, r.key)
  {
    hide Decode;
    StorePatterns(i);
    StorePatternsComplete(i);
  }

  lemma StoreDecodes(x: Width, i: bv32)
    ensures Selects(StoreRow(x).Text(), i) <==> Decode(i).Store? && Decode(i).width == x
  {
    hide Decode, Selects, Selected, StoreRow;
    StoreString(x, i);
    if Selected(i, StoreRow(x).mask, StoreRow(x).key) {
      StoreKey(x, i);
    }
    if Decode(i).Store? {
      StoreFound(i);
    }
  }

  // ---------- Register-register operations ----------

  function OpRow(x: Alu): Row {
    match x
    case AddOp => RegisterRow("00000", "00", "000", "01100", 0x0000_0033)
    case SubOp => RegisterRow("01000", "00", "000", "01100", 0x4000_0033)
    case SllOp => RegisterRow("00000", "00", "001", "01100", 0x0000_1033)
    case SltOp => RegisterRow("00000", "00", "010", "01100", 0x0000_2033)
    case SltuOp => RegisterRow("00000", "00", "011", "01100", 0x0000_3033)
    case XorOp => RegisterRow("00000", "00", "100", "01100", 0x0000_4033)
    case SrlOp => RegisterRow("00000", "00", "101", "01100", 0x0000_5033)
    case SraOp => RegisterRow("01000", "00", "101", "01100", 0x4000_5033)
    case OrOp => RegisterRow("00000", "00", "110", "01100", 0x0000_6033)
    case AndOp => RegisterRow("00000", "00", "111", "01100", 0x0000_7033)
  }

  lemma OpString(x: Alu, i: bv32)
    ensures Right(OpRow(x), i)
  {
    TwoBitFields();
    ThreeBitFields();
    FiveBitFields();
    hide MaskWord, KeyWord, Right;
    match x
    case AddOp => Known(RegisterRow("00000", "00", "000", "01100", 0x0000_0033), i);
    case SubOp => Known(RegisterRow("01000", "00", "000", "01100", 0x4000_0033), i);
    case SllOp => Known(RegisterRow("00000", "00", "001", "01100", 0x0000_1033), i);
    case SltOp => Known(RegisterRow("00000", "00", "010", "01100", 0x0000_2033), i);
    case SltuOp => Known(RegisterRow("00000", "00", "011", "01100", 0x0000_3033), i);
    case XorOp => Known(RegisterRow("00000", "00", "100", "01100", 0x0000_4033), i);
    case SrlOp => Known(RegisterRow("00000", "00", "101", "01100", 0x0000_5033), i);
    case SraOp => Known(RegisterRow("01000", "00", "101", "01100", 0x4000_5033), i);
    case OrOp => Known(RegisterRow("00000", "00", "110", "01100", 0x0000_6033), i);
    case AndOp => Known(RegisterRow("00000", "00", "111", "01100", 0x0000_7033), i);
  }

  lemma OpKey(x: Alu, i: bv32)
    requires Selected(i, OpRow(x).mask, OpRow(x).key)
    ensures Decode(i).Op? && Decode(i).alu == x
  {
    hide Decode, Register, Immediate;
    var masked := i & OpRow(x).mask;
    assert masked == OpRow(x).key;
    hide Selected;
    OpPatterns(i);
  }

  lemma OpFound(i: bv32)
    requires Decode(i).Op?
    ensures var r := OpRow(Decode(i).alu); Selected(i, r.mask, r.key)
  {
    hide Decode;
    OpPatterns(i);
    OpPatternsComplete(i);
  }

  lemma OpDecodes(x: Alu, i: bv32)
    ensures Selects(OpRow(x).Text(), i) <==> Decode(i).Op? && Decode(i).alu == x
  {
    hide Decode, Selects, Selected, OpRow;
    OpString(x, i);
    if Selected(i, OpRow(x).mask, OpRow(x).key) {
      OpKey(x, i);
    }
    if Decode(i).Op? {
      OpFound(i);
    }
  }

  // ---------- Multiplication and division ----------

  function MulDivRow(x: MulDivOp): Row {
    match x
    case MulOp => RegisterRow("00000", "01", "000", "01100", 0x0200_0033)
    case MulhOp => RegisterRow("00000", "01", "001", "01100", 0x0200_1033)
    case MulhsuOp => RegisterRow("00000", "01", "010", "01100", 0x0200_2033)
    case MulhuOp => RegisterRow("00000", "01", "011", "01100", 0x0200_3033)
    case DivOp => RegisterRow("00000", "01", "100", "01100", 0x0200_4033)
    case DivuOp => RegisterRow("00000", "01", "101", "01100", 0x0200_5033)
    case RemOp => RegisterRow("00000", "01", "110", "01100", 0x0200_6033)
    case RemuOp => RegisterRow("00000", "01", "111", "01100", 0x0200_7033)
  }

  lemma MulDivString(x: MulDivOp, i: bv32)
    ensures Right(MulDivRow(x), i)
  {
    TwoBitFields();
    ThreeBitFields();
    FiveBitFields();
    hide MaskWord, KeyWord, Right;
    match x
    case MulOp => Known(RegisterRow("00000", "01", "000", "01100", 0x0200_0033), i);
    case MulhOp => Known(RegisterRow("00000", "01", "001", "01100", 0x0200_1033), i);
    case MulhsuOp => Known(RegisterRow("00000", "01", "010", "01100", 0x0200_2033), i);
    case MulhuOp => Known(RegisterRow("00000", "01", "011", "01100", 0x0200_3033), i);
    case DivOp => Known(RegisterRow("00000", "01", "100", "01100", 0x0200_4033), i);
    case DivuOp => Known(RegisterRow("00000", "01", "101", "01100", 0x0200_5033), i);
    case RemOp => Known(RegisterRow("00000", "01", "110", "01100", 0x0200_6033), i);
    case RemuOp => Known(RegisterRow("00000", "01", "111", "01100", 0x0200_7033), i);
  }

  lemma MulDivKey(x: MulDivOp, i: bv32)
    requires Selected(i, MulDivRow(x).mask, MulDivRow(x).key)
    ensures Decode(i).MulDiv? && Decode(i).m == x
  {
    hide Decode, Register, Immediate;
    var masked := i & MulDivRow(x).mask;
    assert masked == MulDivRow(x).key;
    hide Selected;
    MulDivPatterns(i);
  }

  lemma MulDivFound(i: bv32)
    requires Decode(i).MulDiv?
    ensures var r := MulDivRow(Decode(i).m); Selected(i, r.mask, r.key)
  {
    hide Decode;
    MulDivPatterns(i);
    MulDivPatternsComplete(i);
  }

  lemma MulDivDecodes(x: MulDivOp, i: bv32)
    ensures Selects(MulDivRow(x).Text(), i) <==> Decode(i).MulDiv? && Decode(i).m == x
  {
    hide Decode, Selects, Selected, MulDivRow;
    MulDivString(x, i);
    if Selected(i, MulDivRow(x).mask, MulDivRow(x).key) {
      MulDivKey(x, i);
    }
    if Decode(i).MulDiv? {
      MulDivFound(i);
    }
  }

  function AmoRowOf(high: string, key: bv32): Row {
    Row(Register(high, "??", "010", "01011"), " ", 0xf800_707f, key)
  }

  // ---------- AMOs ----------

  function AmoRow(x: AmoOp): Row {
    match x
    case SwapAmo => AmoRowOf("00001", 0x0800_202f)
    case AddAmo => AmoRowOf("00000", 0x0000_202f)
    case XorAmo => AmoRowOf("00100", 0x2000_202f)
    case AndAmo => AmoRowOf("01100", 0x6000_202f)
    case OrAmo => AmoRowOf("01000", 0x4000_202f)
    case MinAmo => AmoRowOf("10000", 0x8000_202f)
    case MaxAmo => AmoRowOf("10100", 0xa000_202f)
    case MinuAmo => AmoRowOf("11000", 0xc000_202f)
    case MaxuAmo => AmoRowOf("11100", 0xe000_202f)
  }

  lemma AmoString(x: AmoOp, i: bv32)
    ensures Right(AmoRow(x), i)
  {
    TwoBitFields();
    ThreeBitFields();
    FiveBitFields();
    hide MaskWord, KeyWord, Right;
    match x
    case SwapAmo => Known(AmoRowOf("00001", 0x0800_202f), i);
    case AddAmo => Known(AmoRowOf("00000", 0x0000_202f), i);
    case XorAmo => Known(AmoRowOf("00100", 0x2000_202f), i);
    case AndAmo => Known(AmoRowOf("01100", 0x6000_202f), i);
    case OrAmo => Known(AmoRowOf("01000", 0x4000_202f), i);
    case MinAmo => Known(AmoRowOf("10000", 0x8000_202f), i);
    case MaxAmo => Known(AmoRowOf("10100", 0xa000_202f), i);
    case MinuAmo => Known(AmoRowOf("11000", 0xc000_202f), i);
    case MaxuAmo => Known(AmoRowOf("11100", 0xe000_202f), i);
  }

  lemma AmoKey(x: AmoOp, i: bv32)
    requires Selected(i, AmoRow(x).mask, AmoRow(x).key)
    ensures Decode(i).Amo? && Decode(i).amo == x
  {
    hide Decode, Register, Immediate;
    var masked := i & AmoRow(x).mask;
    assert masked == AmoRow(x).key;
    hide Selected;
    AmoPatterns(i);
  }

  lemma AmoFound(i: bv32)
    requires Decode(i).Amo?
    ensures var r := AmoRow(Decode(i).amo); Selected(i, r.mask, r.key)
  {
    hide Decode;
    AmoPatterns(i);
    AmoPatternsComplete(i);
  }

  lemma AmoDecodes(x: AmoOp, i: bv32)
    ensures Selects(AmoRow(x).Text(), i) <==> Decode(i).Amo? && Decode(i).amo == x
  {
    hide Decode, Selects, Selected, AmoRow;
    AmoString(x, i);
    if Selected(i, AmoRow(x).mask, AmoRow(x).key) {
      AmoKey(x, i);
    }
    if Decode(i).Amo? {
      AmoFound(i);
    }
  }

  // ---------- Register-immediate operations ----------

  function OpImmRow(x: Alu): Row
    requires x != SubOp
  {
    match x
    case AddOp => ImmediateRow("000", "00100", 0x0013)
    case SltOp => ImmediateRow("010", "00100", 0x2013)
    case SltuOp => ImmediateRow("011", "00100", 0x3013)
    case XorOp => ImmediateRow("100", "00100", 0x4013)
    case OrOp => ImmediateRow("110", "00100", 0x6013)
    case AndOp => ImmediateRow("111", "00100", 0x7013)
    case SllOp => Row(Register("00000", "0?", "001", "00100"), "", 0xfc00_707f, 0x1013)
    case SrlOp => RegisterRow("00000", "00", "101", "00100", 0x0000_5013)
    case SraOp => RegisterRow("01000", "00", "101", "00100", 0x4000_5013)
  }

  lemma OpImmString(x: Alu, i: bv32)
    requires x != SubOp
    ensures Right(OpImmRow(x), i)
  {
    TwoBitFields();
    ThreeBitFields();
    FiveBitFields();
    hide MaskWord, KeyWord, Right;
    match x
    case AddOp => Known(OpImmRow(x), i);
    case SltOp => Known(OpImmRow(x), i);
    case SltuOp => Known(OpImmRow(x), i);
    case XorOp => Known(OpImmRow(x), i);
    case OrOp => Known(OpImmRow(x), i);
    case AndOp => Known(OpImmRow(x), i);
    case SllOp => Known(OpImmRow(x), i);
    case SrlOp => Known(OpImmRow(x), i);
    case SraOp => Known(OpImmRow(x), i);
  }

  /** The string of slli also selects words with a sixth bit of the shift amount, which are illegal. */
  lemma OpImmDecodes(x: Alu, i: bv32)
    requires x != SubOp
    ensures Selects(OpImmRow(x).Text(), i) && (x == SllOp ==> ImmI(i) & 0x20 == 0)
       <==> Decode(i).OpImm? && Decode(i).alu == x
  {
    hide Decode, Selects, ImmI;
    OpImmString(x, i);
    OpImmPatterns(i);
    if i & 0xfc00_707f == 0x1013 {
      SlliPattern(i);
    }
    if Decode(i).OpImm? {
      OpImmPatternsComplete(i);
    }
  }

  // ---------- Loads ----------

  function LoadRow(w: Width, signed: bool): Row
    requires w == Word ==> signed
  {
    match w
    case Byte => if signed then ImmediateRow("000", "00000", 0x0003) else ImmediateRow("100", "00000", 0x4003)
    case Half => if signed then ImmediateRow("001", "00000", 0x1003) else ImmediateRow("101", "00000", 0x5003)
    case Word => ImmediateRow("010", "00000", 0x2003)
  }

  lemma LoadString(w: Width, signed: bool, i: bv32)
    requires w == Word ==> signed
    ensures Right(LoadRow(w, signed), i)
  {
    TwoBitFields();
    ThreeBitFields();
    FiveBitFields();
    hide MaskWord, KeyWord, Right;
    match w
    case Byte => Known(LoadRow(w, signed), i);
    case Half => Known(LoadRow(w, signed), i);
    case Word => Known(LoadRow(w, signed), i);
  }

  lemma LoadDecodes(w: Width, signed: bool, i: bv32)
    requires w == Word ==> signed
    ensures Selects(LoadRow(w, signed).Text(), i)
       <==> Decode(i).Load? && Decode(i).width == w && Decode(i).signed == signed
  {
    hide Decode, Selects;
    LoadString(w, signed, i);
    LoadPatterns(i);
    if Decode(i).Load? {
      LoadPatternsComplete(i);
    }
  }

  // ---------- Upper immediates, jumps and fences ----------

  lemma JumpStrings(i: bv32)
    ensures Right(UpperRow("01101", 0x37), i) && Right(UpperRow("00101", 0x17), i)
    ensures Right(UpperRow("11011", 0x6f), i) && Right(ImmediateRow("000", "11001", 0x67), i)
  {
    TwoBitFields();
    ThreeBitFields();
    FiveBitFields();
    hide MaskWord, KeyWord, Right;
    Known(UpperRow("01101", 0x37), i);
    Known(UpperRow("00101", 0x17), i);
    Known(UpperRow("11011", 0x6f), i);
    Known(ImmediateRow("000", "11001", 0x67), i);
  }

  lemma JumpsDecode(i: bv32)
    ensures Selects(UpperRow("01101", 0x37).Text(), i) <==> Decode(i).Lui?
    ensures Selects(UpperRow("00101", 0x17).Text(), i) <==> Decode(i).Auipc?
    ensures Selects(UpperRow("11011", 0x6f).Text(), i) <==> Decode(i).Jal?
    ensures Selects(ImmediateRow("000", "11001", 0x67).Text(), i) <==> Decode(i).Jalr?
  {
    hide Decode, Selects;
    JumpStrings(i);
    JumpPatterns(i);
    JumpPatternsComplete(i);
  }

  /** fence, or fence.i. */
  function FenceRow(ordering: bool): Row {
    if ordering
    then Row(Fields("0000?", "??", "?????", "00000", "000", "00000", "00011"), "", 0xf00f_ffff, 0x000f)
    else Row(Fields("00000", "00", "00000", "00000", "001", "00000", "00011"), "", 0xffff_ffff, 0x100f)
  }

  lemma FenceString(ordering: bool, i: bv32)
    ensures Right(FenceRow(ordering), i)
  {
    TwoBitFields();
    ThreeBitFields();
    FiveBitFields();
    hide MaskWord, KeyWord, Right;
    if ordering {
      Known(FenceRow(true), i);
    } else {
      Known(FenceRow(false), i);
    }
  }

  /** The fences that one of the two strings selects are those the interpreter recognises. */
  lemma FencesSelected(i: bv32)
    ensures Selects(FenceRow(true).Text(), i) || Selects(FenceRow(false).Text(), i) <==> PlainFence(i)
  {
    hide Selects, Selected, PlainFence;
    FenceString(true, i);
    FenceString(false, i);
    PlainFenceSelected(i);
  }

  lemma PlainFenceSelected(i: bv32)
    ensures PlainFence(i) <==> Selected(i, 0xf00f_ffff, 0x000f) || Selected(i, 0xffff_ffff, 0x100f)
  {
    WholeWord(i);
  }

  lemma WholeWord(i: bv32)
    ensures i & 0xffff_ffff == i
  {
  }
}
