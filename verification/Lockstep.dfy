/** The differential test: both interpreters execute one instruction at a time and are compared after each. */
module Lockstep {
  import opened MachineWords
  import opened Isa
  import opened Rv32Dut
  import opened Rv32Ref

  /** A run goes on from where a shorter run ends. */
  lemma {:induction false} RunExtends(c: Config, s: State, k: nat)
    requires ValidState(s)
    ensures Run(c, s, k + 1) == if Run(c, s, k) == Excluded then Excluded else Step(c, Run(c, s, k).s)
    decreases k
  {
    hide Step;
    var r := Step(c, s);
    if k == 0 {
      assert r != Excluded ==> Run(c, r.s, 0) == r;
    } else if r != Excluded {
      RunExtends(c, r.s, k - 1);
    }
  }

  lemma {:induction false} RunStaysExcluded(c: Config, s: State, j: nat, n: nat)
    requires ValidState(s) && j <= n && Run(c, s, j) == Excluded
    ensures Run(c, s, n) == Excluded
    decreases n - j
  {
    if j < n {
      RunExtends(c, s, j);
      RunStaysExcluded(c, s, j + 1, n);
    }
  }

  // ---------- Where the interpreters part ----------

  /** The guard: the interpreter under test recognises the word, and the reference reaches the data address. */
  predicate Common(c: Config, s: State)
    requires ValidState(s)
  {
    Recognised(Fetch(s)) && Reaches(c, s)
  }

  /** The guard holds before each of the first n instructions. */
  ghost predicate CommonUpTo(c: Config, s: State, n: nat)
    requires ValidState(s)
  {
    forall k | 0 <= k < n && Run(c, s, k).Retired? :: Common(c, Run(c, s, k).s)
  }

  /** One instruction on both machines: whether neither raised an exception and their states are the same. */
  method StepBoth(dut: Dut, reference: Ref) returns (agreed: bool)
    requires dut.c == reference.c && dut.Ready() && !dut.exception && reference.Ready()
    requires dut.Current() == reference.Current()
    modifies dut, reference
    ensures dut.Ready() && reference.Ready()
    ensures agreed ==> !dut.exception && dut.Current() == reference.Current()
    ensures var r := Step(dut.c, old(dut.Current()));
            r.Retired? ==> (agreed <==> Common(dut.c, old(dut.Current()))) && (agreed ==> r == Retired(dut.Current()))
  {
    hide Step, Recognised, Reaches;
    ghost var c, s := dut.c, dut.Current();
    OneTurn(c, s);
    dut.ExecOnce();
    var trap := reference.StepMany(1);
    agreed := !dut.exception && trap == 0 && dut.Current() == reference.Current();
  }

  lemma OneTurn(c: Config, s: State)
    requires ValidState(s)
    ensures Run(c, s, 1) == Step(c, s)
    ensures Step(c, s).Retired? ==> (ReachesAll(c, s, 1) <==> Reaches(c, s))
  {
    hide Step, Reaches;
    RunExtends(c, s, 0);
  }

  /** The states seen so far are those of the defined run. */
  ghost predicate Follows(c: Config, s: State, trace: seq<State>)
    requires ValidState(s)
  {
    forall k | 0 <= k < |trace| :: Run(c, s, k) == Retired(trace[k])
  }

  /** However long both run, they agree in registers, program counter and memory after every instruction if and
      only if the guard holds before every instruction, and then with the instruction set's definition. */
  method Compare(c: Config, s: State, n: nat) returns (agreed: bool, dutTrace: seq<State>, refTrace: seq<State>)
    requires ValidState(s)
    ensures Run(c, s, n).Retired? ==> (agreed <==> CommonUpTo(c, s, n))
    ensures Run(c, s, n).Retired? && agreed ==>
              && |dutTrace| == |refTrace| == n + 1
              && forall k :: 0 <= k <= n ==> Retired(dutTrace[k]) == Retired(refTrace[k]) == Run(c, s, k)
  {
    hide Step, Common;
    forall j | 0 <= j <= n && Run(c, s, n).Retired?
      ensures Run(c, s, j).Retired?
    {
      if Run(c, s, j) == Excluded {
        RunStaysExcluded(c, s, j, n);
      }
    }
    var dut := new Dut(c, s);
    var reference := new Ref(c, s);
    agreed, dutTrace, refTrace := true, [s], [s];
    var k := 0;
    while k < n && agreed
      invariant k <= n && |dutTrace| == |refTrace| == k + 1
      invariant fresh(dut) && fresh(reference) && dut.c == reference.c == c
      invariant dut.Ready() && reference.Ready()
      invariant agreed ==> !dut.exception && dut.Current() == reference.Current()
      invariant Run(c, s, n).Retired? && agreed ==>
                  && CommonUpTo(c, s, k) && Run(c, s, k) == Retired(dut.Current())
                  && Follows(c, s, dutTrace) && Follows(c, s, refTrace)
      invariant Run(c, s, n).Retired? && !agreed ==> !CommonUpTo(c, s, n)
      decreases n - k, agreed
    {
      RunExtends(c, s, k);
      agreed := StepBoth(dut, reference);
      dutTrace, refTrace := dutTrace + [dut.Current()], refTrace + [reference.Current()];
      k := k + 1;
    }
  }

  // ---------- Witnesses ----------

  /** 32 MiB of RAM. */
  const SMALL: Config := Config(0x200_0000, false)

  /** One instruction at the start of RAM, and the address of the last byte of RAM in x2. */
  function AtTheEnd(b0: bv8, b1: bv8, b2: bv8, b3: bv8): (s: State)
    ensures ValidState(s)
  {
    State(seq(32, i => if i == 2 then 0x81ff_ffff else 0), 0x8000_0000, map[0 := b0, 1 := b1, 2 := b2, 3 := b3])
  }

  lemma FourBytes(b0: bv8, b1: bv8, b2: bv8, b3: bv8)
    ensures var m := map[0 := b0, 1 := b1, 2 := b2, 3 := b3];
            && ByteAt(m, 0) == b0 as bv32 && ByteAt(m, 1) == b1 as bv32
            && ByteAt(m, 2) == b2 as bv32 && ByteAt(m, 3) == b3 as bv32
  {
  }

  lemma StartOfRam()
    ensures Offset(0x8000_0000) == 0
    ensures InRam(SMALL, 0x8000_0000, Word) && !Unaligned4(0x8000_0000)
  {
  }

  lemma WordAtZero(m: Memory)
    ensures LoadWord(m, 0) == ByteAt(m, 0) | (ByteAt(m, 1) << 8) | (ByteAt(m, 2) << 16) | (ByteAt(m, 3) << 24)
  {
    hide ByteAt;
    var zero: bv32 := 0;
    assert zero + 1 == 1 && zero + 2 == 2 && zero + 3 == 3;
  }

  lemma FetchesAtTheEnd(b0: bv8, b1: bv8, b2: bv8, b3: bv8)
    ensures var s := AtTheEnd(b0, b1, b2, b3);
            && InRam(SMALL, s.pc, Word) && !Unaligned4(s.pc)
            && Fetch(s) == (b0 as bv32) | ((b1 as bv32) << 8) | ((b2 as bv32) << 16) | ((b3 as bv32) << 24)
  {
    hide ByteAt, LoadWord, Offset, InRam, Unaligned4;
    StartOfRam();
    FourBytes(b0, b1, b2, b3);
    WordAtZero(AtTheEnd(b0, b1, b2, b3).mem);
  }

  /** lb x1, 0(x2): a legal load of the last byte of RAM. */
  lemma LoadAtTheEnd()
    ensures var s := AtTheEnd(0x83, 0x00, 0x01, 0x00);
            && Decode(Fetch(s)) == Load(Byte, true, 1, 2, 0)
            && Step(SMALL, s).Retired? && Recognised(Fetch(s)) && !Reaches(SMALL, s)
  {
    FetchesAtTheEnd(0x83, 0x00, 0x01, 0x00);
    var s := AtTheEnd(0x83, 0x00, 0x01, 0x00);
    assert Fetch(s) == 0x0001_0083;
    LastByte();
  }

  /** sb x1, 0(x2): a legal store to the last byte of RAM. */
  lemma StoreAtTheEnd()
    ensures var s := AtTheEnd(0x23, 0x00, 0x11, 0x00);
            && Decode(Fetch(s)) == Store(Byte, 2, 1, 0)
            && Step(SMALL, s).Retired? && Recognised(Fetch(s)) && !Reaches(SMALL, s)
  {
    FetchesAtTheEnd(0x23, 0x00, 0x11, 0x00);
    var s := AtTheEnd(0x23, 0x00, 0x11, 0x00);
    assert Fetch(s) == 0x0011_0023;
    LastByte();
  }

  lemma LastByte()
    ensures Add(0x81ff_ffff, 0) == 0x81ff_ffff
    ensures InRam(SMALL, 0x81ff_ffff, Byte) && !InRam(SMALL, 0x81ff_ffff, Word)
    ensures Aligned(SMALL, 0x81ff_ffff, Byte)
  {
    assert Offset(0x81ff_ffff) == 0x1ff_ffff;
  }

  /** fence.tso. */
  lemma FenceTso()
    ensures var s := AtTheEnd(0x0f, 0x00, 0x30, 0x83);
            && Decode(Fetch(s)) == Fence
            && Step(SMALL, s).Retired? && !Recognised(Fetch(s)) && Reaches(SMALL, s)
  {
    FetchesAtTheEnd(0x0f, 0x00, 0x30, 0x83);
    var s := AtTheEnd(0x0f, 0x00, 0x30, 0x83);
    assert Fetch(s) == 0x8330_000f;
  }

  /** On the load the interpreter under test goes on and the reference traps; likewise on the store. */
  method RunAtTheEnd(store: bool) returns (exception: bool, trap: nat)
    ensures !exception && trap == if store then 8 else 6
  {
    hide *;
    LoadAtTheEnd();
    StoreAtTheEnd();
    var s := if store then AtTheEnd(0x23, 0x00, 0x11, 0x00) else AtTheEnd(0x83, 0x00, 0x01, 0x00);
    var dut := new Dut(SMALL, s);
    dut.ExecOnce();
    var reference := new Ref(SMALL, s);
    trap := reference.Turn();
    exception := dut.exception;
  }

  /** On fence.tso the interpreter under test raises an exception and the reference goes on. */
  method RunFenceTso() returns (exception: bool, trap: nat)
    ensures exception && trap == 0
  {
    hide *;
    FenceTso();
    var s := AtTheEnd(0x0f, 0x00, 0x30, 0x83);
    var dut := new Dut(SMALL, s);
    dut.ExecOnce();
    var reference := new Ref(SMALL, s);
    trap := reference.Turn();
    exception := dut.exception;
  }
}
