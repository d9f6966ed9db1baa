/** Packets of the GDB remote serial protocol: sending, and receiving with escapes and run lengths. */
module GdbPackets {
  type byte = x: int | 0 <= x < 256

  const DOLLAR: byte := 0x24
  const HASH: byte := 0x23
  const ESCAPE: byte := 0x7d
  const STAR: byte := 0x2a

  // ---------- Hexadecimal digits ----------

  predicate IsHex(c: byte) {
    0x30 <= c <= 0x39 || 0x41 <= c <= 0x46 || 0x61 <= c <= 0x66
  }

  function HexNibble(c: byte): byte
    requires IsHex(c)
  {
    if c <= 0x39 then c - 0x30 else if c <= 0x46 then c + 0x20 - 0x61 + 10 else c - 0x61 + 10
  }

  /** hex_encode. */
  function HexEncode(digit: byte): byte
    requires digit < 16
  {
    if digit > 9 then 0x61 + digit - 10 else 0x30 + digit
  }

  /** The digits printed for a checksum are upper case. */
  function HexUpper(digit: byte): byte
    requires digit < 16
  {
    if digit > 9 then 0x41 + digit - 10 else 0x30 + digit
  }

  /** gdb_decode_hex: 0xffff where a digit is no digit. */
  function DecodeHex(msb: byte, lsb: byte): int {
    if !IsHex(msb) || !IsHex(lsb) then 0xffff else 16 * HexNibble(msb) + HexNibble(lsb)
  }

  /** Decoding two digits undoes encoding a byte, in either case of letters. */
  lemma HexRoundTrip(b: byte)
    ensures DecodeHex(HexEncode(b / 16), HexEncode(b % 16)) == b
    ensures DecodeHex(HexUpper(b / 16), HexUpper(b % 16)) == b
  {
  }

  // ---------- Sums of bytes ----------

  /** Addition of unsigned bytes. */
  function Add(a: byte, b: byte): byte {
    if a + b < 256 then a + b else a + b - 256
  }

  lemma AddAssociative(a: byte, b: byte, c: byte)
    ensures Add(Add(a, b), c) == Add(a, Add(b, c))
  {
  }

  function Sum(s: seq<byte>): byte {
    if s == [] then 0 else Add(s[0], Sum(s[1..]))
  }

  lemma {:induction false} SumAppend(s: seq<byte>, t: seq<byte>)
    ensures Sum(s + t) == Add(Sum(s), Sum(t))
  {
    if s == [] {
      assert s + t == t;
    } else {
      SumAppend(s[1..], t);
      assert (s + t)[1..] == s[1..] + t;
      AddAssociative(s[0], Sum(s[1..]), Sum(t));
    }
  }

  // ---------- The receiver ----------

  /** Exclusive or with 0x20. */
  function Flip(c: byte): byte {
    if (c / 32) % 2 == 1 then c - 32 else c + 32
  }

  datatype Received = Closed | Packet(data: seq<byte>, sumOk: bool, rest: seq<byte>)

  /** One of the two checksum characters; the end of input reads as 255. */
  function Digit(input: seq<byte>, k: nat): byte {
    if k < |input| then input[k] else 255
  }

  function Drop(input: seq<byte>, k: nat): seq<byte> {
    if k <= |input| then input[k..] else []
  }

  predicate ValidCount(c: byte) {
    29 <= c <= 126 && c != DOLLAR && c != HASH
  }

  function Repeat(b: byte, n: nat): (s: seq<byte>)
    ensures |s| == n
  {
    if n == 0 then [] else [b] + Repeat(b, n - 1)
  }

  /** The receiver after the start of a packet: what is decoded so far, the running sum, and whether the last
      byte was an escape. */
  function Receive(out: seq<byte>, sum: byte, escape: bool, input: seq<byte>): Received
    decreases |input|
  {
    if input == [] then Closed
    else
      var c, rest := input[0], input[1..];
      var sum' := Add(sum, c);
      if c == DOLLAR then Receive([], 0, false, rest)
      else if c == HASH then Packet(out, sum == DecodeHex(Digit(rest, 0), Digit(rest, 1)), Drop(rest, 2))
      else if c == ESCAPE then Receive(out, sum', true, rest)
      else if c == STAR && out != [] && rest != [] && ValidCount(rest[0]) then
        Receive(out + Repeat(out[|out| - 1], rest[0] - 29), Add(sum', rest[0]), escape, rest[1..])
      else Receive(out + [if escape then Flip(c) else c], sum', false, rest)
  }

  /** Input before the first start of packet is skipped. */
  function ReceivePacket(input: seq<byte>): Received {
    if input == [] then Closed
    else if input[0] == DOLLAR then Receive([], 0, false, input[1..])
    else ReceivePacket(input[1..])
  }

  // ---------- Packet encodings ----------

  /** A piece of payload: a byte as it is, a byte escaped, or a repetition of the byte before. */
  datatype Piece = Literal(b: byte) | Escaped(b: byte) | Run(count: byte)

  predicate Ordinary(b: byte) {
    b != DOLLAR && b != HASH && b != ESCAPE && b != STAR
  }

  function Code(piece: Piece): seq<byte> {
    match piece
    case Literal(b) => [b]
    case Escaped(b) => [ESCAPE, Flip(b)]
    case Run(count) => [STAR, count]
  }

  function Encode(pieces: seq<Piece>): seq<byte> {
    if pieces == [] then [] else Code(pieces[0]) + Encode(pieces[1..])
  }

  predicate ValidPiece(piece: Piece, started: bool) {
    match piece
    case Literal(b) => Ordinary(b)
    case Escaped(b) => Ordinary(Flip(b))
    case Run(count) => started && ValidCount(count)
  }

  /** No marker stands for itself, and only a byte already sent is repeated. */
  predicate ValidPieces(pieces: seq<Piece>, started: bool) {
    pieces == [] || (ValidPiece(pieces[0], started) && ValidPieces(pieces[1..], true))
  }

  /** What a piece means after `out`. */
  function Emit(out: seq<byte>, piece: Piece): (r: seq<byte>)
    requires ValidPiece(piece, out != [])
    ensures r != []
  {
    match piece
    case Literal(b) => out + [b]
    case Escaped(b) => out + [b]
    case Run(count) => out + Repeat(out[|out| - 1], count - 29)
  }

  function Expand(out: seq<byte>, pieces: seq<Piece>): seq<byte>
    requires ValidPieces(pieces, out != [])
    decreases |pieces|
  {
    if pieces == [] then out else Expand(Emit(out, pieces[0]), pieces[1..])
  }

  lemma FlipInvolutive(b: byte)
    ensures Flip(Flip(b)) == b
  {
  }

  /** The receiver takes a piece whole. */
  lemma ReceivePiece(out: seq<byte>, sum: byte, piece: Piece, rest: seq<byte>)
    requires ValidPiece(piece, out != [])
    ensures Receive(out, sum, false, Code(piece) + rest)
         == Receive(Emit(out, piece), Add(sum, Sum(Code(piece))), false, rest)
  {
    var code := Code(piece);
    match piece
    case Literal(b) =>
      assert (code + rest)[1..] == rest && Sum(code) == b;
    case Escaped(b) =>
      FlipInvolutive(b);
      var input := code + rest;
      assert input[1..] == [Flip(b)] + rest && input[1..][1..] == rest;
      assert code[1..] == [Flip(b)] && Sum(code[1..]) == Flip(b);
      AddAssociative(sum, ESCAPE, Flip(b));
      assert Receive(out, sum, false, input) == Receive(out, Add(sum, ESCAPE), true, input[1..]);
      assert Receive(out, Add(sum, ESCAPE), true, input[1..])
          == Receive(out + [b], Add(Add(sum, ESCAPE), Flip(b)), false, rest);
    case Run(count) =>
      var input := code + rest;
      assert input[1..] == [count] + rest && input[1..][1..] == rest;
      assert code[1..] == [count] && Sum(code[1..]) == count;
      AddAssociative(sum, STAR, count);
  }

  lemma {:induction false} ReceivePieces(out: seq<byte>, sum: byte, pieces: seq<Piece>, rest: seq<byte>)
    requires ValidPieces(pieces, out != [])
    ensures Receive(out, sum, false, Encode(pieces) + rest)
         == Receive(Expand(out, pieces), Add(sum, Sum(Encode(pieces))), false, rest)
    decreases |pieces|
  {
    if pieces == [] {
      assert Encode(pieces) + rest == rest;
    } else {
      var code, tail := Code(pieces[0]), Encode(pieces[1..]);
      assert Encode(pieces) + rest == code + (tail + rest);
      ReceivePiece(out, sum, pieces[0], tail + rest);
      ReceivePieces(Emit(out, pieces[0]), Add(sum, Sum(code)), pieces[1..], rest);
      SumAppend(code, tail);
      AddAssociative(sum, Sum(code), Sum(tail));
    }
  }

  lemma {:induction false} SkipToDollar(junk: seq<byte>, input: seq<byte>)
    requires DOLLAR !in junk
    ensures ReceivePacket(junk + [DOLLAR] + input) == Receive([], 0, false, input)
  {
    if junk == [] {
      assert (junk + [DOLLAR] + input)[1..] == input;
    } else {
      SkipToDollar(junk[1..], input);
      assert (junk + [DOLLAR] + input)[1..] == junk[1..] + [DOLLAR] + input;
    }
  }

  /** Every valid encoding, after any leading bytes that start no packet, decodes to the bytes it stands for,
      leaves the rest of the input, and has a good checksum exactly when the two digits say so. */
  lemma ReceiveValid(junk: seq<byte>, pieces: seq<Piece>, msb: byte, lsb: byte, rest: seq<byte>)
    requires DOLLAR !in junk && ValidPieces(pieces, false)
    ensures ReceivePacket(junk + [DOLLAR] + (Encode(pieces) + ([HASH, msb, lsb] + rest)))
         == Packet(Expand([], pieces), Sum(Encode(pieces)) == DecodeHex(msb, lsb), rest)
  {
    var tail := [HASH, msb, lsb] + rest;
    SkipToDollar(junk, Encode(pieces) + tail);
    ReceivePieces([], 0, pieces, tail);
    assert tail[1..] == [msb, lsb] + rest && ([msb, lsb] + rest)[2..] == rest;
  }

  /** A packet abandoned in the middle by the start of another leaves no trace. */
  lemma ReceiveRestarted(out: seq<byte>, sum: byte, pieces: seq<Piece>, input: seq<byte>)
    requires ValidPieces(pieces, out != [])
    ensures Receive(out, sum, false, Encode(pieces) + ([DOLLAR] + input)) == ReceivePacket([DOLLAR] + input)
  {
    ReceivePieces(out, sum, pieces, [DOLLAR] + input);
    assert ([DOLLAR] + input)[1..] == input;
  }

  // ---------- The sender ----------

  /** send_packet writes the command as it is. */
  function SendPacket(command: seq<byte>): seq<byte> {
    var sum := Sum(command);
    [DOLLAR] + command + [HASH, HexUpper(sum / 16), HexUpper(sum % 16)]
  }

  /** The checksum loop of send_packet and the three writes. */
  method Send(command: seq<byte>) returns (line: seq<byte>)
    ensures line == SendPacket(command)
  {
    var sum: byte := 0;
    for i := 0 to |command|
      invariant sum == Sum(command[..i])
    {
      SumAppend(command[..i], [command[i]]);
      assert command[..i + 1] == command[..i] + [command[i]];
      sum := Add(sum, command[i]);
    }
    assert command[..|command|] == command;
    line := [DOLLAR] + command;
    line := line + [HASH, HexUpper(sum / 16), HexUpper(sum % 16)];
  }

  function Literals(s: seq<byte>): seq<Piece> {
    if s == [] then [] else [Literal(s[0])] + Literals(s[1..])
  }

  lemma {:induction false} LiteralsValid(s: seq<byte>, started: bool)
    requires forall b | b in s :: Ordinary(b)
    ensures Encode(Literals(s)) == s && ValidPieces(Literals(s), started)
  {
    if s != [] {
      LiteralsValid(s[1..], true);
      assert Literals(s)[1..] == Literals(s[1..]);
    }
  }

  lemma {:induction false} LiteralsMean(out: seq<byte>, s: seq<byte>)
    requires ValidPieces(Literals(s), out != [])
    ensures Expand(out, Literals(s)) == out + s
    decreases |s|
  {
    if s == [] {
      assert out + s == out;
    } else {
      var more := out + [s[0]];
      assert Literals(s)[1..] == Literals(s[1..]);
      assert Emit(out, Literals(s)[0]) == more;
      LiteralsMean(more, s[1..]);
      assert more + s[1..] == out + s;
    }
  }

  /** Receiving undoes sending, whatever is on the line before and after, for commands free of the markers. */
  lemma ReceiveSent(junk: seq<byte>, command: seq<byte>, rest: seq<byte>)
    requires DOLLAR !in junk && forall b | b in command :: Ordinary(b)
    ensures ReceivePacket(junk + SendPacket(command) + rest) == Packet(command, true, rest)
  {
    hide Sum, ReceivePacket, Encode, Expand, Literals, ValidPieces, HexUpper, DecodeHex;
    var sum := Sum(command);
    LiteralsValid(command, false);
    LiteralsMean([], command);
    HexRoundTrip(sum);
    ReceiveValid(junk, Literals(command), HexUpper(sum / 16), HexUpper(sum % 16), rest);
    Regroup(junk, command, [HASH, HexUpper(sum / 16), HexUpper(sum % 16)], rest);
  }

  lemma Regroup(junk: seq<byte>, command: seq<byte>, end: seq<byte>, rest: seq<byte>)
    ensures junk + ([DOLLAR] + command + end) + rest == junk + [DOLLAR] + (command + (end + rest))
  {
  }

  // ---------- The reply buffer ----------

  /** The reply under construction.  The buffer starts with room for 4096 bytes and grows by doubling; every
      write is proved to be inside it. */
  class Reply {
    var data: array<byte>
    var size: nat

    ghost predicate Valid()
      reads this
    {
      size <= data.Length && data.Length >= 4096
    }

    ghost function Contents(): seq<byte>
      requires Valid()
      reads this, data
    {
      data[..size]
    }

    constructor ()
      ensures Valid() && fresh(data) && Contents() == []
    {
      data := new byte[4096](k => 0);
      size := 0;
    }

    /** realloc: a larger buffer with the same bytes. */
    method Enlarge(capacity: nat)
      requires Valid() && capacity >= data.Length
      modifies this
      ensures Valid() && fresh(data) && data.Length == capacity && size == old(size)
      ensures Contents() == old(Contents())
    {
      var larger := new byte[capacity](k => 0);
      var n := data.Length;
      for k := 0 to n
        modifies larger
        invariant larger[..k] == data[..k]
      {
        larger[k] := data[k];
      }
      assert larger[..size] == larger[..n][..size] == data[..n][..size];
      data := larger;
    }

    method Put(c: byte)
      requires Valid()
      modifies this, data
      ensures Valid() && (data == old(data) || fresh(data)) && Contents() == old(Contents()) + [c]
    {
      if size == data.Length {
        Enlarge(2 * data.Length);
      }
      data[size] := c;
      size := size + 1;
    }

    /** Repeats the last byte. */
    method Fill(count: nat)
      requires Valid() && size > 0 && count <= 97
      modifies this, data
      ensures Valid() && (data == old(data) || fresh(data))
      ensures Contents() == old(Contents()) + Repeat(old(Contents())[old(size) - 1], count)
    {
      ghost var before := Contents();
      if size + count > data.Length {
        Enlarge(2 * data.Length);
      }
      var b := data[size - 1];
      assert b == before[size - 1];
      for k := 0 to count
        modifies data
        invariant data[..size + k] == before + Repeat(b, k)
      {
        data[size + k] := b;
        RepeatMore(b, k);
      }
      size := size + count;
    }

    /** Puts a zero behind the last byte, in one extra byte of room if the buffer is full. */
    method Terminate()
      requires Valid()
      modifies this, data
      ensures Valid() && (data == old(data) || fresh(data)) && Contents() == old(Contents())
      ensures size < data.Length && data[size] == 0
    {
      if size == data.Length {
        Enlarge(size + 1);
      }
      data[size] := 0;
    }

    method Restart()
      requires Valid()
      modifies this
      ensures Valid() && data == old(data) && Contents() == []
    {
      size := 0;
    }
  }

  // ---------- Reading a packet ----------

  class Connection {
    /** What has not been read yet. */
    var input: seq<byte>

    constructor (input: seq<byte>)
      ensures this.input == input
    {
      this.input := input;
    }

    /** fgetc: -1 at the end of input. */
    method GetChar() returns (c: int)
      modifies this
      ensures c == if old(input) == [] then -1 else old(input)[0]
      ensures input == Drop(old(input), 1)
    {
      if input == [] {
        c := -1;
      } else {
        c := input[0];
        input := input[1..];
      }
    }

    /** The count character of a repetition; one that is no count is put back. */
    method GetCount() returns (count: int)
      modifies this
      ensures var before := old(input);
              if before != [] && ValidCount(before[0]) then count == before[0] - 29 && input == before[1..]
              else count == -1 && input == before
    {
      ghost var before := input;
      var c2 := GetChar();
      if c2 < 29 || c2 > 126 || c2 == DOLLAR || c2 == HASH {
        if c2 >= 0 {
          input := [c2] + input;
        }
        assert input == before;
        return -1;
      }
      count := c2 - 29;
    }

    /** Skips to the first start of packet; false if there is none. */
    method SkipJunk() returns (found: bool)
      modifies this
      ensures !found ==> ReceivePacket(old(input)) == Closed
      ensures found ==> ReceivePacket(old(input)) == Receive([], 0, false, input)
    {
      ghost var start := input;
      var c := GetChar();
      while c != -1 && c != DOLLAR
        invariant c == -1 ==> ReceivePacket(start) == Closed
        invariant c == DOLLAR ==> ReceivePacket(start) == Receive([], 0, false, input)
        invariant c != -1 && c != DOLLAR ==> ReceivePacket(start) == ReceivePacket(input)
        decreases if c == -1 then 0 else |input| + 1
      {
        c := GetChar();
      }
      found := c == DOLLAR;
    }

    /** The two checksum characters. */
    method GetChecksum() returns (v: int)
      modifies this
      ensures v == DecodeHex(Digit(old(input), 0), Digit(old(input), 1))
      ensures input == Drop(old(input), 2)
    {
      var msb := GetChar();
      var lsb := GetChar();
      v := DecodeHex(if msb == -1 then 255 else msb, if lsb == -1 then 255 else lsb);
    }

    /** recv_packet.  On return the packet stands in the buffer, followed by a terminating zero. */
    method ReceiveInto(reply: Reply) returns (sumOk: bool, closed: bool)
      requires reply.Valid() && reply.Contents() == []
      modifies this, reply, reply.data
      ensures reply.Valid()
      ensures match ReceivePacket(old(input))
              case Closed => closed
              case Packet(data, ok, rest) =>
                && !closed && reply.Contents() == data && sumOk == ok && input == rest
                && reply.size < reply.data.Length && reply.data[reply.size] == 0
    {
      sumOk, closed := false, true;
      var sum: byte, escape := 0, false;
      var found := SkipJunk();
      if !found {
        return;
      }
      hide ReceivePacket, Add, Flip, Repeat, DecodeHex, ValidCount;
      while true
        invariant reply.Valid() && (reply.data == old(reply.data) || fresh(reply.data))
        invariant ReceivePacket(old(input)) == Receive(reply.Contents(), sum, escape, input)
        decreases |input|
      {
        var c := GetChar();
        if c == -1 {
          return;
        }
        if c == DOLLAR {
          reply.Restart();
          sum, escape := 0, false;
          continue;
        }
        if c == HASH {
          var v := GetChecksum();
          sumOk, closed := sum == v, false;
          reply.Terminate();
          return;
        }
        sum := Add(sum, c);
        if c == ESCAPE {
          escape := true;
          continue;
        }
        if c == STAR && reply.size > 0 {
          var count := GetCount();
          if count >= 0 {
            reply.Fill(count);
            sum := Add(sum, count + 29);
            continue;
          }
        }
        if escape {
          c := Flip(c);
          escape := false;
        }
        reply.Put(c);
      }
    }
  }

  lemma {:induction false} RepeatMore(b: byte, n: nat)
    ensures Repeat(b, n + 1) == Repeat(b, n) + [b]
  {
    if n > 0 {
      RepeatMore(b, n - 1);
    }
  }
}
