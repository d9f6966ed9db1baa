/** Instruction patterns: decoding a pattern string to a key, a mask and a shift, and matching a word with them. */
module InstPatterns {
  import opened Powers

  /** The registers have 64 bits. */
  const TWO64: nat := 0x1_0000_0000_0000_0000

  /** Bit k of a number. */
  function Bit(x: nat, k: nat): nat {
    if k == 0 then x % 2 else Bit(x / 2, k - 1)
  }

  /** Bitwise and. */
  function BitAnd(x: nat, y: nat): nat {
    if x == 0 || y == 0 then 0 else 2 * BitAnd(x / 2, y / 2) + (x % 2) * (y % 2)
  }

  function ShiftRight(x: nat, k: nat): nat {
    if k == 0 then x else ShiftRight(x / 2, k - 1)
  }

  // ---------- Patterns ----------

  predicate BitChar(c: char) {
    c == '0' || c == '1' || c == '?'
  }

  predicate Legal(pattern: string) {
    forall k | 0 <= k < |pattern| :: BitChar(pattern[k]) || pattern[k] == ' '
  }

  predicate AllBits(bits: string) {
    forall k | 0 <= k < |bits| :: BitChar(bits[k])
  }

  /** The pattern without its spaces. */
  function Strip(pattern: string): string {
    if pattern == [] then []
    else Strip(pattern[..|pattern| - 1]) + if pattern[|pattern| - 1] == ' ' then [] else [pattern[|pattern| - 1]]
  }

  /** A word matches when every fixed position of the stripped pattern, counted from the last, is the word's bit. */
  predicate Matches(bits: string, word: nat) {
    forall k | 0 <= k < |bits| :: BitMatches(bits[|bits| - 1 - k], Bit(word, k))
  }

  predicate BitMatches(c: char, b: nat) {
    c == '?' || b == (if c == '1' then 1 else 0)
  }

  function KeyBit(c: char): nat {
    if c == '1' then 1 else 0
  }

  function MaskBit(c: char): nat {
    if c == '?' then 0 else 1
  }

  /** Key and mask of a stripped pattern before trimming, and the length of its tail of '?'. */
  function Key(bits: string): (n: nat) {
    if bits == [] then 0 else 2 * Key(bits[..|bits| - 1]) + KeyBit(bits[|bits| - 1])
  }

  function Mask(bits: string): (n: nat) {
    if bits == [] then 0 else 2 * Mask(bits[..|bits| - 1]) + MaskBit(bits[|bits| - 1])
  }

  function Tail(bits: string): nat {
    if bits == [] || bits[|bits| - 1] != '?' then 0 else Tail(bits[..|bits| - 1]) + 1
  }

  lemma {:induction false} KeyMaskBounds(bits: string)
    ensures Key(bits) < Pow2(|bits|) && Mask(bits) < Pow2(|bits|) && Tail(bits) <= |bits|
  {
    if bits != [] {
      KeyMaskBounds(bits[..|bits| - 1]);
    }
  }

  lemma {:induction false} Pow2Grows(a: nat, b: nat)
    requires a <= b
    ensures Pow2(a) <= Pow2(b)
  {
    if a < b {
      Pow2Grows(a, b - 1);
    }
  }

  lemma BitAndStep(x: nat, y: nat)
    ensures BitAnd(x, y) == 2 * BitAnd(x / 2, y / 2) + (x % 2) * (y % 2)
  {
    if x == 0 || y == 0 {
      assert BitAnd(x / 2, y / 2) == 0;
    }
  }

  lemma MatchesStep(bits: string, word: nat)
    requires bits != []
    ensures Matches(bits, word) <==>
              BitMatches(bits[|bits| - 1], word % 2) && Matches(bits[..|bits| - 1], word / 2)
  {
    var n := |bits|;
    var init := bits[..n - 1];
    if Matches(bits, word) {
      forall k | 0 <= k < |init| ensures BitMatches(init[|init| - 1 - k], Bit(word / 2, k)) {
        assert BitMatches(bits[n - 1 - (k + 1)], Bit(word, k + 1));
      }
      assert BitMatches(bits[n - 1 - 0], Bit(word, 0));
    }
    if BitMatches(bits[n - 1], word % 2) && Matches(init, word / 2) {
      forall k | 0 <= k < n ensures BitMatches(bits[n - 1 - k], Bit(word, k)) {
        if k > 0 {
          assert BitMatches(init[|init| - 1 - (k - 1)], Bit(word / 2, k - 1));
        }
      }
    }
  }

  /** Without trimming, the masked word is the key exactly when the word matches. */
  lemma {:induction false} MaskedIsKey(bits: string, word: nat)
    requires AllBits(bits)
    ensures BitAnd(word, Mask(bits)) == Key(bits) <==> Matches(bits, word)
  {
    if bits == [] {
    } else {
      var init, c := bits[..|bits| - 1], bits[|bits| - 1];
      MaskedIsKey(init, word / 2);
      MatchesStep(bits, word);
      BitAndStep(word, Mask(bits));
      assert Mask(bits) / 2 == Mask(init) && Mask(bits) % 2 == MaskBit(c);
      assert (word % 2) * MaskBit(c) == KeyBit(c) <==> BitMatches(c, word % 2);
    }
  }

  lemma AndEven(x: nat, y: nat)
    ensures BitAnd(x, 2 * y) == 2 * BitAnd(x / 2, y)
  {
    hide BitAnd;
    BitAndStep(x, 2 * y);
    Doubled(y);
  }

  lemma Doubled(y: nat)
    ensures (2 * y) / 2 == y && (2 * y) % 2 == 0
  {
  }

  lemma ShiftStep(x: nat, k: nat)
    ensures ShiftRight(x, k + 1) == ShiftRight(x / 2, k)
  {
  }

  /** Trimming the '?' tail off key and mask and shifting the word down does not change the comparison. */
  lemma {:induction false} TrimTail(bits: string, word: nat)
    ensures BitAnd(ShiftRight(word, Tail(bits)), ShiftRight(Mask(bits), Tail(bits))) == ShiftRight(Key(bits), Tail(bits))
       <==> BitAnd(word, Mask(bits)) == Key(bits)
  {
    if bits != [] && bits[|bits| - 1] == '?' {
      var init := bits[..|bits| - 1];
      TrimTail(init, word / 2);
      AndEven(word, Mask(init));
      assert Mask(bits) == 2 * Mask(init) && Key(bits) == 2 * Key(init) && Tail(bits) == Tail(init) + 1;
      hide Mask, Key, Tail, BitAnd;
      ShiftStep(word, Tail(init));
      ShiftStep(2 * Mask(init), Tail(init));
      ShiftStep(2 * Key(init), Tail(init));
      hide ShiftRight;
    }
  }

  lemma Pow2Of32()
    ensures Pow2(32) == 0x1_0000_0000
  {
    assert Pow2(8) == 0x100;
    assert Pow2(16) == 0x1_0000;
    assert Pow2(24) == 0x100_0000;
  }

  lemma Pow2Of64()
    ensures Pow2(64) == TWO64
  {
    Pow2Of32();
    assert Pow2(40) == 0x100_0000_0000;
    assert Pow2(48) == 0x1_0000_0000_0000;
    assert Pow2(56) == 0x100_0000_0000_0000;
  }

  lemma Fits(x: nat, n: nat)
    requires x < Pow2(n) && n <= 64
    ensures x % TWO64 == x
  {
    Pow2Grows(n, 64);
    Pow2Of64();
  }

  lemma StripStep(pattern: string, i: nat)
    requires i < |pattern|
    ensures Strip(pattern[..i + 1]) == if pattern[i] == ' ' then Strip(pattern[..i]) else Strip(pattern[..i]) + [pattern[i]]
  {
    assert pattern[..i + 1][..i] == pattern[..i];
  }

  /** One more character on 64-bit registers: nothing is shifted out. */
  lemma AppendChar(bits: string, c: char)
    requires |bits| < 64
    ensures Key(bits + [c]) == (2 * Key(bits)) % TWO64 + KeyBit(c)
    ensures Mask(bits + [c]) == (2 * Mask(bits)) % TWO64 + MaskBit(c)
    ensures Tail(bits + [c]) == if c == '?' then Tail(bits) + 1 else 0
  {
    KeyMaskBounds(bits);
    Fits(2 * Key(bits), |bits| + 1);
    Fits(2 * Mask(bits), |bits| + 1);
    assert (bits + [c])[..|bits|] == bits;
  }

  // ---------- The decoder and the match test ----------

  datatype Decoded = InvalidCharacter | TooLong | Pattern(key: nat, mask: nat, shift: nat)

  lemma DecodeNothing(pattern: string)
    ensures Strip(pattern[..0]) == [] && Legal(pattern[..0]) && Key([]) == Mask([]) == Tail([]) == 0
  {
    assert pattern[..0] == [];
  }

  lemma LegalStep(pattern: string, i: nat)
    requires i < |pattern| && Legal(pattern[..i])
    ensures Legal(pattern[..i + 1]) <==> BitChar(pattern[i]) || pattern[i] == ' '
  {
    assert pattern[..i + 1] == pattern[..i] + [pattern[i]];
    assert pattern[..i + 1][i] == pattern[i];
  }

  lemma IllegalAt(pattern: string, i: nat)
    requires i < |pattern| && !BitChar(pattern[i]) && pattern[i] != ' '
    ensures !Legal(pattern)
  {
  }

  lemma LegalPrefix(pattern: string, n: nat)
    requires n <= |pattern| && Legal(pattern[..n])
    ensures forall k | 0 <= k < n :: BitChar(pattern[k]) || pattern[k] == ' '
  {
    forall k | 0 <= k < n ensures BitChar(pattern[k]) || pattern[k] == ' ' {
      assert pattern[..n][k] == pattern[k];
    }
  }

  /** pattern_decode, on 64-bit registers: one step per character, of which there may be at most 63. */
  method PatternDecode(pattern: string) returns (r: Decoded)
    ensures r == InvalidCharacter || r == TooLong || r.Pattern?
    ensures r.Pattern? <==> |pattern| < 64 && Legal(pattern)
    ensures r == InvalidCharacter <==> exists k | 0 <= k < |pattern| && k < 64 :: !BitChar(pattern[k]) && pattern[k] != ' '
    ensures r.Pattern? ==>
              var bits := Strip(pattern);
              r == Pattern(ShiftRight(Key(bits), Tail(bits)), ShiftRight(Mask(bits), Tail(bits)), Tail(bits))
  {
    hide Key, Mask, Tail, Strip, ShiftRight, KeyBit, MaskBit, Legal;
    var key: nat, mask: nat, shift: nat := 0, 0, 0;
    var i := 0;
    DecodeNothing(pattern);
    while i < 64
      invariant i <= |pattern| && i <= 64 && Legal(pattern[..i])
      invariant var bits := Strip(pattern[..i]);
                |bits| <= i && key == Key(bits) && mask == Mask(bits) && shift == Tail(bits)
    {
      if i >= |pattern| {
        assert pattern[..i] == pattern;
        LegalPrefix(pattern, i);
        return Pattern(ShiftRight(key, shift), ShiftRight(mask, shift), shift);
      }
      var c := pattern[i];
      ghost var bits := Strip(pattern[..i]);
      StripStep(pattern, i);
      LegalStep(pattern, i);
      if c != ' ' {
        if c != '0' && c != '1' && c != '?' {
          IllegalAt(pattern, i);
          return InvalidCharacter;
        }
        AppendChar(bits, c);
        key := (2 * key) % TWO64 + KeyBit(c);
        mask := (2 * mask) % TWO64 + MaskBit(c);
        shift := if c == '?' then shift + 1 else 0;
      }
      i := i + 1;
    }
    LegalPrefix(pattern, 64);
    return TooLong;
  }

  /** For every legal pattern and every instruction word, the test of the instruction table succeeds exactly
      when each fixed position of the pattern is the instruction's bit. */
  method InstMatches(pattern: string, inst: nat) returns (matched: bool)
    requires |pattern| < 64 && Legal(pattern) && inst < 0x1_0000_0000
    ensures matched <==> Matches(Strip(pattern), inst)
  {
    var r := PatternDecode(pattern);
    StripLegal(pattern);
    MaskedIsKey(Strip(pattern), inst);
    TrimTail(Strip(pattern), inst);
    matched := BitAnd(ShiftRight(inst, r.shift), r.mask) == r.key;
  }

  lemma {:induction false} StripLegal(pattern: string)
    requires Legal(pattern)
    ensures AllBits(Strip(pattern))
  {
    if pattern != [] {
      StripLegal(pattern[..|pattern| - 1]);
    }
  }
}
