/** Packets as the protocol describes them: bytes written singly or in runs, and a checksum that is a total. */
module PacketBytes {
  import opened GdbPackets

  function Total(s: seq<byte>): nat {
    if s == [] then 0 else Total(s[..|s| - 1]) + s[|s| - 1]
  }

  lemma {:induction false} TotalFirst(s: seq<byte>)
    requires s != []
    ensures Total(s) == s[0] + Total(s[1..])
  {
    if |s| > 1 {
      TotalFirst(s[..|s| - 1]);
      assert s[1..][..|s| - 2] == s[..|s| - 1][1..];
    } else {
      assert s[..0] == [] && s[1..] == [];
    }
  }

  /** The checksum is the total of the bytes modulo 256. */
  lemma {:induction false} SumIsTotal(s: seq<byte>)
    ensures Sum(s) == Total(s) % 256
  {
    if s != [] {
      SumIsTotal(s[1..]);
      TotalFirst(s);
    }
  }

  function AsByte(b: bv8): byte {
    b as int
  }

  function Xored(b: bv8): byte {
    (b ^ 0x20) as int
  }

  /** Escaping is exclusive or with 0x20. */
  lemma FlipIsXor(b: bv8)
    ensures Flip(AsByte(b)) == Xored(b)
  {
    XorBit(b);
  }

  lemma XorBit(v: bv8)
    ensures (v ^ 0x20) as int == if (v as int / 32) % 2 == 1 then v as int - 32 else v as int + 32
  {
    assert v & 0x20 == 0 ==> v ^ 0x20 == v + 0x20 && v <= 0xdf;
    assert v & 0x20 != 0 ==> v ^ 0x20 == v - 0x20 && v >= 0x20;
    assert v & 0x20 == ((v >> 5) & 1) << 5;
    assert (v >> 5) as int == v as int / 32;
    assert ((v >> 5) & 1) as int == (v >> 5) as int % 2;
  }

  lemma DigitsAreThose(d: byte)
    requires d < 16
    ensures HexEncode(d) == "0123456789abcdef"[d] as int && HexUpper(d) == "0123456789ABCDEF"[d] as int
  {
  }

  // ---------- Runs ----------

  /** The same byte a number of times. */
  datatype Group = Group(b: bv8, times: nat) {
    function Copies(): (s: seq<byte>)
      ensures |s| == times
    {
      seq(times, k => AsByte(b))
    }
  }

  /** A group of more than one byte is written with a count of what follows the first, to which 29 is added; the
      count character is printable and no marker. */
  predicate Writable(g: Group) {
    && 1 <= g.times
    && (g.times == 1 || (g.times + 28 <= 126 && g.times + 28 != 0x24 && g.times + 28 != 0x23))
  }

  function Single(b: bv8): seq<byte> {
    var c := AsByte(b);
    if c == 0x24 || c == 0x23 || c == 0x7d || c == 0x2a then [0x7d, Xored(b)] else [c]
  }

  function Written(g: Group): seq<byte>
    requires Writable(g)
  {
    Single(g.b) + if g.times == 1 then [] else [0x2a, g.times + 28]
  }

  function AllWritten(groups: seq<Group>): seq<byte>
    requires forall g | g in groups :: Writable(g)
  {
    if groups == [] then [] else Written(groups[0]) + AllWritten(groups[1..])
  }

  function Spelled(groups: seq<Group>): seq<byte> {
    if groups == [] then [] else groups[0].Copies() + Spelled(groups[1..])
  }

  function PiecesOf(groups: seq<Group>): seq<Piece>
    requires forall g | g in groups :: Writable(g)
  {
    if groups == [] then [] else PiecesOfGroup(groups[0]) + PiecesOf(groups[1..])
  }

  function PiecesOfGroup(g: Group): seq<Piece>
    requires Writable(g)
  {
    [if Ordinary(AsByte(g.b)) then Literal(AsByte(g.b)) else Escaped(AsByte(g.b))] + if g.times == 1 then [] else [Run(g.times + 28)]
  }

  lemma {:induction false} EncodeAppend(p: seq<Piece>, q: seq<Piece>)
    ensures Encode(p + q) == Encode(p) + Encode(q)
  {
    if p == [] {
      assert p + q == q;
    } else {
      assert (p + q)[1..] == p[1..] + q;
      EncodeAppend(p[1..], q);
    }
  }

  lemma GroupEncoded(g: Group)
    requires Writable(g)
    ensures Encode(PiecesOfGroup(g)) == Written(g)
  {
    hide AsByte, Xored, Flip;
    FlipIsXor(g.b);
    var p := PiecesOfGroup(g);
    assert Encode(p[1..]) == if g.times == 1 then [] else [STAR, g.times + 28] by {
      if g.times > 1 {
        assert p[1..] == [Run(g.times + 28)] && p[1..][1..] == [];
      } else {
        assert p[1..] == [];
      }
    }
    assert Code(p[0]) == Single(g.b);
  }

  lemma {:induction false} GroupsEncoded(groups: seq<Group>)
    requires forall g | g in groups :: Writable(g)
    ensures Encode(PiecesOf(groups)) == AllWritten(groups)
  {
    if groups != [] {
      GroupEncoded(groups[0]);
      GroupsEncoded(groups[1..]);
      EncodeAppend(PiecesOfGroup(groups[0]), PiecesOf(groups[1..]));
    }
  }

  lemma {:induction false} RepeatIsSeq(b: byte, n: nat)
    ensures Repeat(b, n) == seq(n, k => b)
  {
    if n > 0 {
      RepeatIsSeq(b, n - 1);
    }
  }

  /** A group adds its bytes to what is decoded. */
  lemma GroupExpands(out: seq<byte>, g: Group, more: seq<Piece>)
    requires Writable(g) && ValidPieces(more, true)
    ensures ValidPieces(PiecesOfGroup(g) + more, out != [])
    ensures Expand(out, PiecesOfGroup(g) + more) == Expand(out + g.Copies(), more)
  {
    hide AsByte;
    var p := PiecesOfGroup(g) + more;
    var first := out + [AsByte(g.b)];
    assert Emit(out, p[0]) == first;
    if g.times == 1 {
      assert p[1..] == more && [AsByte(g.b)] == g.Copies();
    } else {
      var run := Run(g.times + 28);
      assert p[1..] == [run] + more && p[1..][1..] == more;
      RepeatIsSeq(AsByte(g.b), g.times - 1);
      assert Emit(first, run) == first + seq(g.times - 1, k => AsByte(g.b));
      assert first + seq(g.times - 1, k => AsByte(g.b)) == out + g.Copies();
    }
  }

  lemma GroupThenOthers(out: seq<byte>, g: Group, more: seq<Piece>, tail: seq<byte>)
    requires Writable(g) && ValidPieces(more, true) && Expand(out + g.Copies(), more) == out + g.Copies() + tail
    ensures ValidPieces(PiecesOfGroup(g) + more, out != [])
    ensures Expand(out, PiecesOfGroup(g) + more) == out + (g.Copies() + tail)
  {
    hide Expand, ValidPieces, PiecesOfGroup, Emit, Group.Copies;
    GroupExpands(out, g, more);
    assert out + g.Copies() + tail == out + (g.Copies() + tail);
  }

  lemma {:induction false} GroupsExpand(out: seq<byte>, groups: seq<Group>)
    requires forall g | g in groups :: Writable(g)
    ensures ValidPieces(PiecesOf(groups), out != [])
    ensures Expand(out, PiecesOf(groups)) == out + Spelled(groups)
    decreases |groups|
  {
    if groups == [] {
      assert out + [] == out;
    } else {
      assert groups[0] in groups;
      hide Expand, ValidPieces, PiecesOfGroup, Emit, Group.Copies;
      GroupsExpand(out + groups[0].Copies(), groups[1..]);
      GroupThenOthers(out, groups[0], PiecesOf(groups[1..]), Spelled(groups[1..]));
    }
  }

  /** Bytes written one by one or in runs, with markers escaped, between '$' and '#' and the total modulo 256 as two
      hexadecimal digits, are received as those bytes and with a good checksum. */
  lemma RunsReceived(groups: seq<Group>, rest: seq<byte>)
    requires forall g | g in groups :: Writable(g)
    ensures var payload := AllWritten(groups);
            var sum := Total(payload) % 256;
            var digits := ["0123456789ABCDEF"[sum / 16] as int, "0123456789ABCDEF"[sum % 16] as int];
            ReceivePacket([0x24] + payload + [0x23] + digits + rest) == Packet(Spelled(groups), true, rest)
  {
    hide Sum, ReceivePacket, Expand, Encode, PiecesOf, ValidPieces, Total, AllWritten, Spelled;
    var payload := AllWritten(groups);
    var sum := Sum(payload);
    SumIsTotal(payload);
    GroupsEncoded(groups);
    GroupsExpand([], groups);
    assert [] + Spelled(groups) == Spelled(groups);
    HexRoundTrip(sum);
    DigitsAreThose(sum / 16);
    DigitsAreThose(sum % 16);
    var msb, lsb := HexUpper(sum / 16), HexUpper(sum % 16);
    ReceiveValid([], PiecesOf(groups), msb, lsb, rest);
    assert [] + [0x24] + (payload + ([0x23, msb, lsb] + rest)) == [0x24] + payload + [0x23] + [msb, lsb] + rest;
  }

  /** What is sent. */
  lemma SentIsThat(command: seq<byte>)
    ensures var sum := Total(command) % 256;
            SendPacket(command) == [0x24] + command
              + [0x23, "0123456789ABCDEF"[sum / 16] as int, "0123456789ABCDEF"[sum % 16] as int]
  {
    SumIsTotal(command);
    DigitsAreThose(Sum(command) / 16);
    DigitsAreThose(Sum(command) % 16);
  }

  /** A star with nothing before it to repeat, or without a count behind it, stands for itself. */
  lemma StarKept(out: seq<byte>, sum: byte, rest: seq<byte>)
    requires out == [] || rest == [] || !(29 <= rest[0] <= 126) || rest[0] == 0x24 || rest[0] == 0x23
    ensures Receive(out, sum, false, [0x2a] + rest) == Receive(out + [0x2a], (sum + 0x2a) % 256, false, rest)
  {
    assert ([0x2a] + rest)[1..] == rest;
  }
}
