/** Loads, stores and AMOs of the definition in terms of bytes and numbers. */
module IsaMemory {
  import opened MachineWords
  import opened Isa
  import opened Powers
  import opened WordBits
  import opened WordNumbers
  import opened IsaNumbers
  import opened IsaFields

  /** The byte at an offset of RAM. */
  function ByteNumber(m: Memory, k: int): (n: nat)
    ensures n < 256
  {
    if k in m then m[k] as int else 0
  }

  /** The number that some bytes make, the first being the lowest. */
  function LittleEndian(m: Memory, k: int, n: nat): nat
    decreases n
  {
    if n == 0 then 0 else ByteNumber(m, k) + 256 * LittleEndian(m, k + 1, n - 1)
  }

  lemma ByteAtNumber(m: Memory, o: bv32)
    ensures Number(ByteAt(m, o)) == ByteNumber(m, Number(o))
  {
    if Number(o) in m {
      WidenedByte(m[Number(o)]);
    } else {
      ZeroNumber(0);
    }
  }

  lemma WidenedByte(b: bv8)
    ensures (b as bv32) as int == b as int
  {
  }

  lemma NextOffset(o: bv32, k: bv32)
    requires Number(o) + Number(k) < WORDS
    ensures Number(Add(o, k)) == Number(o) + Number(k)
  {
    AddNumber(o, k);
    hide *;
  }

  lemma ByteBounds(a: bv32)
    requires Number(a) < 256
    ensures a & 0xffff_ff00 == 0
  {
    assert a < 0x100;
  }

  lemma BytesApart(a: bv32, b: bv32, c: bv32, d: bv32)
    requires a & 0xffff_ff00 == 0 && b & 0xffff_ff00 == 0 && c & 0xffff_ff00 == 0 && d & 0xffff_ff00 == 0
    ensures Apart(a, ShiftLeft(b, 8)) && Apart(Or(a, ShiftLeft(b, 8)), ShiftLeft(c, 16))
    ensures Apart(Or(Or(a, ShiftLeft(b, 8)), ShiftLeft(c, 16)), ShiftLeft(d, 24))
  {
  }

  lemma BytesDoNotMeet(a: bv32, b: bv32, c: bv32, d: bv32)
    requires Number(a) < 256 && Number(b) < 256 && Number(c) < 256 && Number(d) < 256
    ensures Apart(a, ShiftLeft(b, 8)) && Apart(Or(a, ShiftLeft(b, 8)), ShiftLeft(c, 16))
    ensures Apart(Or(Or(a, ShiftLeft(b, 8)), ShiftLeft(c, 16)), ShiftLeft(d, 24))
  {
    ByteBounds(a);
    ByteBounds(b);
    ByteBounds(c);
    ByteBounds(d);
    BytesApart(a, b, c, d);
    hide *;
  }

  lemma BytePowers()
    ensures Pow2(8) == 0x100 && Pow2(16) == 0x1_0000 && Pow2(24) == 0x100_0000
    ensures Number(1) == 1 && Number(2) == 2 && Number(3) == 3
    ensures Number(8) == 8 && Number(16) == 16 && Number(24) == 24
  {
    assert Pow2(4) == 0x10;
    assert Pow2(8) == 0x100;
    assert Pow2(12) == 0x1000;
    assert Pow2(20) == 0x10_0000;
  }

  /** Bytes put side by side. */
  lemma BytesNumber(a: bv32, b: bv32, c: bv32, d: bv32)
    requires Number(a) < 256 && Number(b) < 256 && Number(c) < 256 && Number(d) < 256
    ensures Number(Or(Or(Or(a, ShiftLeft(b, 8)), ShiftLeft(c, 16)), ShiftLeft(d, 24)))
         == Number(a) + 0x100 * Number(b) + 0x1_0000 * Number(c) + 0x100_0000 * Number(d)
  {
    hide Number, Or, ShiftLeft, Apart;
    BytesDoNotMeet(a, b, c, d);
    PlacedByte(b, 8);
    PlacedByte(c, 16);
    PlacedByte(d, 24);
    JoinedParts(a, ShiftLeft(b, 8), ShiftLeft(c, 16), ShiftLeft(d, 24));
  }

  lemma TwoBytesNumber(a: bv32, b: bv32)
    requires Number(a) < 256 && Number(b) < 256
    ensures Number(Or(a, ShiftLeft(b, 8))) == Number(a) + 0x100 * Number(b)
  {
    hide Number, Or, ShiftLeft, Apart;
    BytesDoNotMeet(a, b, a, b);
    PlacedByte(b, 8);
    ApartNumber(a, ShiftLeft(b, 8));
  }

  lemma PlacedByte(b: bv32, n: bv32)
    requires Number(b) < 256 && n in {8, 16, 24}
    ensures Number(ShiftLeft(b, n)) == (if n == 8 then 0x100 else if n == 16 then 0x1_0000 else 0x100_0000) * Number(b)
  {
    BytePowers();
    hide Number, ShiftLeft, Pow2;
    ShiftedPart(b, n);
  }

  /** A load reads the bytes from the offset on, lowest first. */
  lemma LoadNumber(m: Memory, o: bv32, w: Width)
    requires Number(o) + Bytes(w) <= WORDS
    ensures Number(LoadMemory(m, o, w)) == LittleEndian(m, Number(o), Bytes(w))
  {
    hide Number, ByteAt, LoadHalf, LoadWord, LoadMemory, LittleEndian, ByteNumber;
    FourBytes(m, Number(o));
    LoadByWidth(m, o);
    if w == Byte {
      ByteAtNumber(m, o);
    } else if w == Half {
      LoadHalfNumber(m, o);
    } else {
      LoadWordNumber(m, o);
    }
  }

  lemma LoadByWidth(m: Memory, o: bv32)
    ensures LoadMemory(m, o, Byte) == ByteAt(m, o)
    ensures LoadMemory(m, o, Half) == LoadHalf(m, o)
    ensures LoadMemory(m, o, Word) == LoadWord(m, o)
  {
    hide ByteAt, LoadHalf, LoadWord;
  }

  lemma LoadHalfNumber(m: Memory, o: bv32)
    requires Number(o) + 2 <= WORDS
    ensures Number(LoadHalf(m, o)) == ByteNumber(m, Number(o)) + 0x100 * ByteNumber(m, Number(o) + 1)
  {
    BytePowers();
    hide Number, ByteAt, ByteNumber, Add, Or, ShiftLeft;
    NextOffset(o, 1);
    ByteAtNumber(m, o);
    ByteAtNumber(m, Add(o, 1));
    TwoBytesNumber(ByteAt(m, o), ByteAt(m, Add(o, 1)));
  }

  lemma LoadWordNumber(m: Memory, o: bv32)
    requires Number(o) + 4 <= WORDS
    ensures Number(LoadWord(m, o))
         == ByteNumber(m, Number(o)) + 0x100 * ByteNumber(m, Number(o) + 1)
            + 0x1_0000 * ByteNumber(m, Number(o) + 2) + 0x100_0000 * ByteNumber(m, Number(o) + 3)
  {
    BytePowers();
    hide Number, ByteAt, ByteNumber, Add, Or, ShiftLeft;
    NextOffset(o, 1);
    NextOffset(o, 2);
    NextOffset(o, 3);
    ByteAtNumber(m, o);
    ByteAtNumber(m, Add(o, 1));
    ByteAtNumber(m, Add(o, 2));
    ByteAtNumber(m, Add(o, 3));
    BytesNumber(ByteAt(m, o), ByteAt(m, Add(o, 1)), ByteAt(m, Add(o, 2)), ByteAt(m, Add(o, 3)));
  }

  lemma FourBytes(m: Memory, k: int)
    ensures LittleEndian(m, k, 1) == ByteNumber(m, k)
    ensures LittleEndian(m, k, 2) == ByteNumber(m, k) + 0x100 * ByteNumber(m, k + 1)
    ensures LittleEndian(m, k, 4)
         == ByteNumber(m, k) + 0x100 * ByteNumber(m, k + 1) + 0x1_0000 * ByteNumber(m, k + 2) + 0x100_0000 * ByteNumber(m, k + 3)
  {
    assert LittleEndian(m, k + 1, 1) == ByteNumber(m, k + 1);
    assert LittleEndian(m, k + 3, 1) == ByteNumber(m, k + 3);
    assert LittleEndian(m, k + 2, 2) == ByteNumber(m, k + 2) + 256 * LittleEndian(m, k + 3, 1);
    assert LittleEndian(m, k + 1, 3) == ByteNumber(m, k + 1) + 256 * LittleEndian(m, k + 2, 2);
  }

  // ---------- Stores ----------

  lemma LowByte(v: bv32)
    ensures ((v & 0xff) as bv8) as int == (v & 0xff) as int
  {
  }

  lemma EightOnes()
    ensures OnesBelow(0xff) && Number(0xff) == 0xff
  {
  }

  lemma StoreByteNumber(m: Memory, o: bv32, v: bv32, k: int)
    ensures ByteNumber(StoreByte(m, o, v), k) == if k == Number(o) then Number(v) % 256 else ByteNumber(m, k)
  {
    LowByte(v);
    EightOnes();
    MaskedNumber(v, 0xff);
    assert And(v, 0xff) == v & 0xff;
    assert k == Number(o) ==> ByteNumber(StoreByte(m, o, v), k) == ((v & 0xff) as bv8) as int;
  }

  lemma ShiftedBytes(v: bv32)
    ensures Number(ShiftRight(v, 8)) == Number(v) / 0x100 && Number(ShiftRight(v, 16)) == Number(v) / 0x1_0000
    ensures Number(ShiftRight(v, 24)) == Number(v) / 0x100_0000
  {
    BytePowers();
    ShiftRightNumber(v, 8);
    ShiftRightNumber(v, 16);
    ShiftRightNumber(v, 24);
  }

  /** A byte of a number, counted from the lowest. */
  function ByteOf(v: nat, j: nat): nat {
    if j == 0 then v % 256 else ByteOf(v / 256, j - 1)
  }

  lemma BytesOf(v: nat)
    ensures ByteOf(v, 0) == v % 256 && ByteOf(v, 1) == v / 0x100 % 256
    ensures ByteOf(v, 2) == v / 0x1_0000 % 256 && ByteOf(v, 3) == v / 0x100_0000 % 256
  {
    assert v / 0x100 / 0x100 == v / 0x1_0000;
    assert v / 0x1_0000 / 0x100 == v / 0x100_0000;
    assert ByteOf(v, 1) == ByteOf(v / 256, 0);
    assert ByteOf(v, 2) == ByteOf(v / 256, 1) == ByteOf(v / 256 / 256, 0);
    assert ByteOf(v, 3) == ByteOf(v / 256, 2) == ByteOf(v / 256 / 256, 1) == ByteOf(v / 256 / 256 / 256, 0);
  }

  /** A store writes the low bytes of the value from the offset on, lowest first, and nothing else. */
  lemma StoreNumber(m: Memory, o: bv32, w: Width, v: bv32, k: int)
    requires Number(o) + Bytes(w) <= WORDS
    ensures ByteNumber(StoreMemory(m, o, w, v), k)
         == if Number(o) <= k < Number(o) + Bytes(w) then ByteOf(Number(v), k - Number(o)) else ByteNumber(m, k)
  {
    BytesOf(Number(v));
    match w
    case Byte =>
      StoreByteNumber(m, o, v, k);
      hide *;
    case Half =>
      StoreHalfNumber(m, o, v, k);
      hide *;
    case Word =>
      StoreWordNumber(m, o, v, k);
      hide *;
  }

  lemma StoreHalfNumber(m: Memory, o: bv32, v: bv32, k: int)
    requires Number(o) + 2 <= WORDS
    ensures ByteNumber(StoreMemory(m, o, Half, v), k)
         == if k == Number(o) then Number(v) % 256
            else if k == Number(o) + 1 then Number(v) / 0x100 % 256
            else ByteNumber(m, k)
  {
    StoreHalfParts(m, o, v);
    BytePowers();
    ShiftedBytes(v);
    NextOffset(o, 1);
    StoreByteNumber(m, o, v, k);
    StoreByteNumber(StoreByte(m, o, v), Add(o, 1), ShiftRight(v, 8), k);
    hide Number, StoreMemory, StoreByte, ByteNumber, Add;
  }

  lemma StoreHalfParts(m: Memory, o: bv32, v: bv32)
    ensures StoreMemory(m, o, Half, v) == StoreByte(StoreByte(m, o, v), Add(o, 1), ShiftRight(v, 8))
  {
    hide StoreByte, Add, ShiftRight;
  }

  lemma StoreWordParts(m: Memory, o: bv32, v: bv32)
    ensures StoreMemory(m, o, Word, v)
         == StoreByte(StoreByte(StoreByte(StoreByte(m, o, v), Add(o, 1), ShiftRight(v, 8)), Add(o, 2), ShiftRight(v, 16)), Add(o, 3), ShiftRight(v, 24))
  {
    hide StoreByte, Add, ShiftRight;
  }

  lemma StoreWordNumber(m: Memory, o: bv32, v: bv32, k: int)
    requires Number(o) + 4 <= WORDS
    ensures ByteNumber(StoreMemory(m, o, Word, v), k)
         == if k == Number(o) then Number(v) % 256
            else if k == Number(o) + 1 then Number(v) / 0x100 % 256
            else if k == Number(o) + 2 then Number(v) / 0x1_0000 % 256
            else if k == Number(o) + 3 then Number(v) / 0x100_0000 % 256
            else ByteNumber(m, k)
  {
    StoreWordParts(m, o, v);
    BytePowers();
    ShiftedBytes(v);
    hide Number, StoreMemory, StoreByte, ByteNumber, Add;
    NextOffset(o, 1);
    NextOffset(o, 2);
    NextOffset(o, 3);
    var n := StoreByte(m, o, v);
    var p := StoreByte(n, Add(o, 1), ShiftRight(v, 8));
    var q := StoreByte(p, Add(o, 2), ShiftRight(v, 16));
    StoreByteNumber(m, o, v, k);
    StoreByteNumber(n, Add(o, 1), ShiftRight(v, 8), k);
    StoreByteNumber(p, Add(o, 2), ShiftRight(v, 16), k);
    StoreByteNumber(q, Add(o, 3), ShiftRight(v, 24), k);
  }

  lemma {:induction false} WrittenBytes(m: Memory, k: int, n: nat, v: nat)
    requires forall j | 0 <= j < n :: ByteNumber(m, k + j) == ByteOf(v, j)
    ensures LittleEndian(m, k, n) == v % Pow2(8 * n)
    decreases n
  {
    if n > 0 {
      forall j | 0 <= j < n - 1 ensures ByteNumber(m, k + 1 + j) == ByteOf(v / 256, j) {
        assert ByteNumber(m, k + (j + 1)) == ByteOf(v, j + 1);
      }
      WrittenBytes(m, k + 1, n - 1, v / 256);
      EightMore(8 * (n - 1));
      ModuloBytes(v, Pow2(8 * (n - 1)));
      assert ByteNumber(m, k + 0) == ByteOf(v, 0);
    }
  }

  lemma EightMore(n: nat)
    ensures Pow2(n + 8) == 256 * Pow2(n)
  {
    assert Pow2(n + 4) == 16 * Pow2(n) by {
      assert Pow2(n + 2) == 4 * Pow2(n);
    }
    assert Pow2(n + 6) == 4 * Pow2(n + 4);
  }

  lemma ModuloBytes(v: nat, p: nat)
    requires p > 0
    ensures v % (256 * p) == v % 256 + 256 * (v / 256 % p)
  {
    var u := v / 256;
    assert u == p * (u / p) + u % p;
    assert v == (256 * p) * (u / p) + (256 * (u % p) + v % 256);
    QuotientIs(v, 256 * p, u / p, 256 * (u % p) + v % 256);
  }

  /** Loading what was stored gives it back, as far as it fits. */
  lemma LoadStored(m: Memory, o: bv32, w: Width, v: bv32)
    requires Number(o) + Bytes(w) <= WORDS
    ensures Number(LoadMemory(StoreMemory(m, o, w, v), o, w)) == Number(v) % Pow2(8 * Bytes(w))
  {
    var n, k := StoreMemory(m, o, w, v), Number(o);
    hide Number, StoreMemory, LoadMemory, ByteNumber, ByteOf, Pow2;
    forall j | 0 <= j < Bytes(w) ensures ByteNumber(n, k + j) == ByteOf(Number(v), j) {
      StoreNumber(m, o, w, v, k + j);
    }
    WrittenBytes(n, k, Bytes(w), Number(v));
    LoadNumber(n, o, w);
  }

  /** A store leaves what is loaded from elsewhere alone. */
  lemma LoadElsewhere(m: Memory, o: bv32, w: Width, v: bv32, at: bv32, u: Width)
    requires Number(o) + Bytes(w) <= WORDS && Number(at) + Bytes(u) <= WORDS
    requires Number(at) + Bytes(u) <= Number(o) || Number(o) + Bytes(w) <= Number(at)
    ensures LoadMemory(StoreMemory(m, o, w, v), at, u) == LoadMemory(m, at, u)
  {
    var n, k := StoreMemory(m, o, w, v), Number(at);
    hide Number, StoreMemory, LoadMemory, ByteNumber, ByteOf;
    forall j | k <= j < k + Bytes(u) ensures ByteNumber(n, j) == ByteNumber(m, j) {
      StoreNumber(m, o, w, v, j);
    }
    SameBytes(m, n, k, Bytes(u));
    LoadNumber(m, at, u);
    LoadNumber(n, at, u);
    SameNumber(LoadMemory(n, at, u), LoadMemory(m, at, u));
  }

  lemma {:induction false} SameBytes(m: Memory, n: Memory, k: int, size: nat)
    requires forall j | k <= j < k + size :: ByteNumber(n, j) == ByteNumber(m, j)
    ensures LittleEndian(n, k, size) == LittleEndian(m, k, size)
    decreases size
  {
    if size > 0 {
      SameBytes(m, n, k + 1, size - 1);
    }
  }

  // ---------- Extension, addresses and AMOs ----------

  lemma ExtendParts(v: bv32)
    ensures v & 0xffff_ff00 == 0 ==>
              && Apart(v, 0xffff_ff00) && v | 0xffff_ff00 == Or(v, 0xffff_ff00)
              && (v & 0x80 != 0 <==> !(v < 0x80))
    ensures v & 0xffff_0000 == 0 ==>
              && Apart(v, 0xffff_0000) && v | 0xffff_0000 == Or(v, 0xffff_0000)
              && (v & 0x8000 != 0 <==> !(v < 0x8000))
  {
  }

  lemma ByteBound(v: bv32)
    ensures Number(v) < 0x100 ==> v & 0xffff_ff00 == 0
    ensures v < 0x80 <==> Number(v) < 0x80
  {
    assert v < 0x100 ==> v & 0xffff_ff00 == 0;
  }

  lemma HalfBound(v: bv32)
    ensures Number(v) < 0x1_0000 ==> v & 0xffff_0000 == 0
    ensures v < 0x8000 <==> Number(v) < 0x8000
  {
    assert v < 0x1_0000 ==> v & 0xffff_0000 == 0;
  }

  lemma Extensions()
    ensures Number(0xffff_ff00) == WORDS - 0x100 && Number(0xffff_0000) == WORDS - 0x1_0000
  {
  }

  /** How many numbers there are of a width. */
  function Size(w: Width): nat {
    match w
    case Byte => 0x100
    case Half => 0x1_0000
    case Word => WORDS
  }

  /** A loaded value is read as a signed number of its width, or as an unsigned one. */
  lemma ExtendNumber(w: Width, v: bv32)
    requires Number(v) < Size(w)
    ensures Number(Extend(w, false, v)) == Number(v)
    ensures ToSigned(Extend(w, true, v)) == if 2 * Number(v) >= Size(w) then Number(v) - Size(w) else Number(v)
  {
    ByteBound(v);
    HalfBound(v);
    Extensions();
    ExtendParts(v);
    SignedNumber(v);
    SignedNumber(Extend(w, true, v));
    hide Number, ToSigned, Or, Apart;
    match w
    case Byte =>
      if v & 0x80 != 0 {
        ApartNumber(v, 0xffff_ff00);
      }
    case Half =>
      if v & 0x8000 != 0 {
        ApartNumber(v, 0xffff_0000);
      }
    case Word =>
  }

  /** AMOs add modulo 2^32, swap, work bit by bit, or choose the lesser or greater of two numbers. */
  lemma AmoNumbers(old_: bv32, b: bv32)
    ensures Number(ComputeAmo(AddAmo, old_, b)) == (Number(old_) + Number(b)) % WORDS
    ensures Number(ComputeAmo(SwapAmo, old_, b)) == Number(b)
    ensures ToSigned(ComputeAmo(MinAmo, old_, b)) == if ToSigned(old_) <= ToSigned(b) then ToSigned(old_) else ToSigned(b)
    ensures ToSigned(ComputeAmo(MaxAmo, old_, b)) == if ToSigned(old_) >= ToSigned(b) then ToSigned(old_) else ToSigned(b)
    ensures Number(ComputeAmo(MinuAmo, old_, b)) == if Number(old_) <= Number(b) then Number(old_) else Number(b)
    ensures Number(ComputeAmo(MaxuAmo, old_, b)) == if Number(old_) >= Number(b) then Number(old_) else Number(b)
  {
    AmoTable(old_, b);
    AddNumber(old_, b);
    LessNumber(old_, b);
    LessNumber(b, old_);
    SignedLessExactly(old_, b);
    SignedLessExactly(b, old_);
    hide *;
  }

  lemma AmoTable(old_: bv32, b: bv32)
    ensures ComputeAmo(AddAmo, old_, b) == Add(old_, b) && ComputeAmo(SwapAmo, old_, b) == b
    ensures ComputeAmo(AndAmo, old_, b) == And(old_, b) && ComputeAmo(OrAmo, old_, b) == Or(old_, b)
    ensures ComputeAmo(XorAmo, old_, b) == Xor(old_, b)
    ensures ComputeAmo(MinAmo, old_, b) == if SignedLess(old_, b) then old_ else b
    ensures ComputeAmo(MaxAmo, old_, b) == if SignedLess(b, old_) then old_ else b
    ensures ComputeAmo(MinuAmo, old_, b) == if Less(old_, b) then old_ else b
    ensures ComputeAmo(MaxuAmo, old_, b) == if Less(b, old_) then old_ else b
  {
    hide Add, And, Or, Xor, SignedLess, Less;
  }

  lemma AmoBits(old_: bv32, b: bv32, k: bv32)
    requires k < 32
    ensures Bit(ComputeAmo(AndAmo, old_, b), k) == if Bit(old_, k) == 1 && Bit(b, k) == 1 then 1 else 0
    ensures Bit(ComputeAmo(OrAmo, old_, b), k) == if Bit(old_, k) == 1 || Bit(b, k) == 1 then 1 else 0
    ensures Bit(ComputeAmo(XorAmo, old_, b), k) == if Bit(old_, k) != Bit(b, k) then 1 else 0
  {
    AmoTable(old_, b);
    BitwiseNumbers(old_, b, k);
    hide *;
  }
}
