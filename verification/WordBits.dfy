/** Words bit by bit. */
module WordBits {
  import opened MachineWords

  function Halved(x: bv32): bv32 { x >> 1 }

  function Push(x: bv32, b: bv32): bv32 { (x << 1) | b }

  /** The lowest bit as a number. */
  function LowBit(x: bv32): nat {
    if x & 1 == 1 then 1 else 0
  }

  /** A position can be pushed without losing one. */
  predicate Roomy(x: bv32) {
    x & 0x8000_0000 == 0
  }

  /** No bit stands outside these. */
  predicate Inside(x: bv32, ones: bv32) {
    x & !ones == 0
  }

  /** Ones up to some position, zeros above. */
  predicate OnesBelow(x: bv32) {
    x & (x + 1) == 0
  }

  predicate IsBit(b: bv32) {
    b <= 1
  }

  lemma HalfPush(x: bv32, b: bv32)
    requires Roomy(x) && IsBit(b)
    ensures Halved(Push(x, b)) == x && LowBit(Push(x, b)) == LowBit(b)
  {
  }

  lemma HalfAnd(x: bv32, y: bv32)
    ensures Halved(And(x, y)) == And(Halved(x), Halved(y)) && LowBit(And(x, y)) == LowBit(x) * LowBit(y)
  {
    HalfOfAnd(x, y);
    LowOfAnd(x, y);
    hide *;
  }

  lemma HalfOfAnd(x: bv32, y: bv32)
    ensures Halved(And(x, y)) == And(Halved(x), Halved(y))
  {
    AndShifted(x, y);
  }

  lemma AndShifted(x: bv32, y: bv32)
    ensures (x & y) >> 1 == (x >> 1) & (y >> 1)
  {
  }

  lemma LowOfAnd(x: bv32, y: bv32)
    ensures LowBit(And(x, y)) == LowBit(x) * LowBit(y)
  {
    LowestOfAnd(x, y);
  }

  lemma LowestOfAnd(x: bv32, y: bv32)
    ensures (x & y) & 1 == 1 <==> x & 1 == 1 && y & 1 == 1
  {
  }

  function Low(x: bv32): bv32 { x & 1 }

  lemma Rebuilt(x: bv32)
    ensures Push(Halved(x), Low(x)) == x
  {
    assert ((x >> 1) << 1) | (x & 1) == x;
  }

  lemma SameLow(x: bv32, y: bv32)
    requires LowBit(x) == LowBit(y)
    ensures Low(x) == Low(y)
  {
    assert x & 1 == 0 || x & 1 == 1;
    assert y & 1 == 0 || y & 1 == 1;
  }

  lemma SameHalves(x: bv32, y: bv32)
    requires Halved(x) == Halved(y) && LowBit(x) == LowBit(y)
    ensures x == y
  {
    SameLow(x, y);
    hide *;
    Rebuilt(x);
    Rebuilt(y);
  }

  lemma HalfOfNothing()
    ensures Halved(0) == 0 && LowBit(0) == 0
  {
  }

  lemma HalfIsNothing(x: bv32)
    requires Halved(x) == 0 && x != 0
    ensures LowBit(x) == 1
  {
  }

  lemma AndNothing(x: bv32)
    ensures And(0, x) == 0
  {
  }

  lemma PushInside(x: bv32, ones: bv32, b: bv32)
    requires Inside(x, ones) && IsBit(b)
    ensures Inside(Push(x, b), Push(ones, 1))
  {
    PushedInside(x, ones, b);
  }

  lemma PushedInside(x: bv32, ones: bv32, b: bv32)
    requires x & !ones == 0 && b <= 1
    ensures ((x << 1) | b) & !((ones << 1) | 1) == 0
  {
  }

  lemma InsideRoomy(x: bv32, ones: bv32)
    requires Inside(x, ones) && Roomy(ones)
    ensures Roomy(x)
  {
  }

  lemma NothingInside(ones: bv32)
    ensures Inside(0, ones) && OnesBelow(0)
  {
  }

  lemma PushOr(x: bv32, y: bv32, b: bv32)
    ensures Push(Or(x, y), b) == Or(Push(x, 0), Push(y, b))
  {
  }

  /** Shifting left by the length of a field. */
  function Shift(x: bv32, n: nat): bv32
    requires n <= 5
  {
    match n
    case 0 => x
    case 1 => x << 1
    case 2 => x << 2
    case 3 => x << 3
    case 4 => x << 4
    case 5 => x << 5
  }

  lemma LaidRaw(high: bv32, low: bv32, rs2: bv32, rs1: bv32, f3: bv32, rd: bv32, op: bv32)
    ensures (((((((((((((high << 2) | low) << 5) | rs2) << 5) | rs1) << 3) | f3) << 5) | rd) << 5) | op) << 2) | 3
         == Flat(high, low, rs2, rs1, f3, rd, op)
  {
  }

  /** Field values side by side, above the lowest two bits of an instruction. */
  function Flat(high: bv32, low: bv32, rs2: bv32, rs1: bv32, f3: bv32, rd: bv32, op: bv32): bv32 {
    (high << 27) | (low << 25) | (rs2 << 20) | (rs1 << 15) | (f3 << 12) | (rd << 7) | (op << 2) | 3
  }

  lemma OrNothing(x: bv32)
    ensures Or(x, 0) == x && Shift(x, 0) == x
  {
  }

  lemma PushedTwice(x: bv32)
    ensures ((x << 1) << 1) | 0 == x << 2
  {
  }

  lemma PushedThrice(x: bv32)
    ensures ((x << 2) << 1) | 0 == x << 3
  {
  }

  lemma PushedFourTimes(x: bv32)
    ensures ((x << 3) << 1) | 0 == x << 4
  {
  }

  lemma PushedFiveTimes(x: bv32)
    ensures ((x << 4) << 1) | 0 == x << 5
  {
  }

  lemma PushShift(x: bv32, n: nat)
    requires n < 5
    ensures Push(Shift(x, n), 0) == Shift(x, n + 1)
  {
    match n
    case 0 =>
    case 1 => PushedTwice(x);
    case 2 => PushedThrice(x);
    case 3 => PushedFourTimes(x);
    case 4 => PushedFiveTimes(x);
  }

  lemma InsideNothing(x: bv32)
    requires Inside(x, 0)
    ensures x == 0
  {
    assert x & !0 == x;
  }

  lemma HalfInside(x: bv32, ones: bv32)
    requires Inside(x, Push(ones, 1)) && Roomy(ones)
    ensures Inside(Halved(x), ones)
  {
  }

  lemma PushOnes(x: bv32)
    requires OnesBelow(x)
    ensures OnesBelow(Push(x, 1)) && (Roomy(Push(x, 1)) ==> Roomy(x))
  {
    assert ((x << 1) | 1) & (((x << 1) | 1) + 1) == 0;
  }
}
