/** Escaping of string values when a configuration is written, and the in-place decoder used when it is read. */
module QuotedStrings {
  const QUOTE: char := '\"'
  const BACKSLASH: char := '\\'
  const NUL: char := '\0'

  predicate Special(c: char) {
    c == QUOTE || c == BACKSLASH
  }

  function Specials(s: string): nat {
    if s == [] then 0 else (if Special(s[0]) then 1 else 0) + Specials(s[1..])
  }

  /** Every quote and backslash preceded by a backslash. */
  function EscapeBody(s: string): string {
    if s == [] then [] else EscapeChar(s[0]) + EscapeBody(s[1..])
  }

  function EscapeChar(c: char): string {
    if Special(c) then [BACKSLASH, c] else [c]
  }

  function Quoted(s: string): string {
    [QUOTE] + EscapeBody(s) + [QUOTE]
  }

  predicate NulFree(s: string) {
    NUL !in s
  }

  lemma {:induction false} EscapeBodyAppend(s: string, t: string)
    ensures EscapeBody(s + t) == EscapeBody(s) + EscapeBody(t)
  {
    hide EscapeChar;
    if s == [] {
      assert s + t == t;
    } else {
      EscapeBodyAppend(s[1..], t);
      assert (s + t)[1..] == s[1..] + t && (s + t)[0] == s[0];
      Associative(EscapeChar(s[0]), EscapeBody(s[1..]), EscapeBody(t));
    }
  }

  lemma Associative(a: string, b: string, c: string)
    ensures a + (b + c) == (a + b) + c
  {
  }

  lemma {:induction false} SpecialsAppend(s: string, t: string)
    ensures Specials(s + t) == Specials(s) + Specials(t)
  {
    if s == [] {
      assert s + t == t;
    } else {
      SpecialsAppend(s[1..], t);
      assert (s + t)[1..] == s[1..] + t;
    }
  }

  lemma {:induction false} EscapeBodyLength(s: string)
    ensures |EscapeBody(s)| == |s| + Specials(s)
    ensures NulFree(s) ==> NulFree(EscapeBody(s))
  {
    if s != [] {
      EscapeBodyLength(s[1..]);
    }
  }

  lemma {:induction false} PlainRun(s: string)
    requires forall c | c in s :: !Special(c)
    ensures EscapeBody(s) == s && Specials(s) == 0
  {
    if s != [] {
      PlainRun(s[1..]);
    }
  }

  lemma NoSpecials(s: string)
    ensures Specials(s[..0]) == 0
  {
  }

  lemma CountRun(s: string, p: nat, l: nat)
    requires p + l <= |s| && forall k | p <= k < p + l :: !Special(s[k])
    ensures Specials(s[..p + l]) == Specials(s[..p])
  {
    assert s[..p + l] == s[..p] + s[p..p + l];
    SpecialsAppend(s[..p], s[p..p + l]);
    PlainRun(s[p..p + l]);
  }

  lemma CountSpecial(s: string, p: nat)
    requires p < |s| && Special(s[p])
    ensures Specials(s[..p + 1]) == Specials(s[..p]) + 1
  {
    assert s[..p + 1] == s[..p] + [s[p]];
    SpecialsAppend(s[..p], [s[p]]);
  }

  // ---------- The escaper ----------

  /** strcspn with the two special characters: the length of the plain run starting at p. */
  method Span(s: string, p: nat) returns (l: nat)
    requires p <= |s|
    ensures p + l <= |s| && (forall k | p <= k < p + l :: !Special(s[k]))
    ensures p + l < |s| ==> Special(s[p + l])
  {
    l := 0;
    while p + l < |s| && !Special(s[p + l])
      invariant p + l <= |s| && forall k | p <= k < p + l :: !Special(s[k])
    {
      l := l + 1;
    }
  }

  /** The size computed before allocation: the text, two quotes, the terminator, and one per special character. */
  method BufferSize(s: string) returns (reslen: nat)
    ensures reslen == |Quoted(s)| + 1
  {
    hide Specials, EscapeBody;
    reslen := |s| + 3;
    var p := 0;
    NoSpecials(s);
    while true
      invariant p <= |s| && reslen == |s| + 3 + Specials(s[..p])
      decreases |s| - p
    {
      var l := Span(s, p);
      CountRun(s, p, l);
      p := p + l;
      if p == |s| {
        break;
      }
      CountSpecial(s, p);
      reslen := reslen + 1;
      p := p + 1;
    }
    assert s[..|s|] == s;
    EscapeBodyLength(s);
  }

  /** Appends text at the write position, as strcat and strncat do. */
  method Append(buf: array<char>, w: nat, text: string)
    requires w + |text| <= buf.Length
    modifies buf
    ensures buf[..w + |text|] == old(buf[..w]) + text
  {
    for k := 0 to |text|
      invariant buf[..w + k] == old(buf[..w]) + text[..k]
    {
      buf[w + k] := text[k];
    }
    assert text[..|text|] == text;
  }

  /** The buffer holds the opening quote and the escaped form of the first p characters. */
  ghost predicate Written(buf: seq<char>, w: nat, s: string, p: nat) {
    p <= |s| && w <= |buf| && buf[..w] == [QUOTE] + EscapeBody(s[..p])
  }

  lemma Room(s: string, p: nat, l: nat)
    requires p + l <= |s|
    ensures EscapeBody(s[..p + l]) == EscapeBody(s[..p]) + EscapeBody(s[p..p + l])
    ensures |EscapeBody(s[..p + l])| <= |EscapeBody(s)|
  {
    assert s[..p + l] == s[..p] + s[p..p + l] && s == s[..p + l] + s[p + l..];
    EscapeBodyAppend(s[..p], s[p..p + l]);
    EscapeBodyAppend(s[..p + l], s[p + l..]);
  }

  lemma RoomForRun(buf: seq<char>, w: nat, s: string, p: nat, l: nat)
    requires Written(buf, w, s, p) && p + l <= |s| && forall k | p <= k < p + l :: !Special(s[k])
    ensures w + l <= |EscapeBody(s)| + 1
    ensures EscapeBody(s[..p + l]) == EscapeBody(s[..p]) + s[p..p + l]
  {
    hide EscapeBody;
    Room(s, p, l);
    PlainRun(s[p..p + l]);
    assert |buf[..w]| == 1 + |EscapeBody(s[..p])|;
  }

  /** Copies the plain run at p. */
  method CopyRun(buf: array<char>, w: nat, s: string, p: nat) returns (l: nat)
    requires Written(buf[..], w, s, p) && buf.Length == |EscapeBody(s)| + 3
    modifies buf
    ensures p + l <= |s| && Written(buf[..], w + l, s, p + l)
    ensures p + l < |s| ==> Special(s[p + l])
  {
    hide EscapeBody;
    l := Span(s, p);
    RoomForRun(buf[..], w, s, p, l);
    assert buf[..w] == buf[..][..w];
    Append(buf, w, s[p..p + l]);
    assert buf[..][..w + l] == buf[..w + l];
  }

  lemma RoomForSpecial(buf: seq<char>, w: nat, s: string, p: nat)
    requires Written(buf, w, s, p) && p < |s| && Special(s[p])
    ensures w + 2 <= |EscapeBody(s)| + 1
    ensures EscapeBody(s[..p + 1]) == EscapeBody(s[..p]) + [BACKSLASH] + [s[p]]
  {
    Room(s, p, 1);
    assert s[p..p + 1] == [s[p]] && EscapeBody([s[p]]) == [BACKSLASH] + [s[p]];
    assert |buf[..w]| == 1 + |EscapeBody(s[..p])|;
  }

  /** Writes the special character at p behind a backslash. */
  method CopySpecial(buf: array<char>, w: nat, s: string, p: nat)
    requires Written(buf[..], w, s, p) && buf.Length == |EscapeBody(s)| + 3
    requires p < |s| && Special(s[p])
    modifies buf
    ensures Written(buf[..], w + 2, s, p + 1)
  {
    hide EscapeBody;
    RoomForSpecial(buf[..], w, s, p);
    assert buf[..w] == buf[..][..w];
    Append(buf, w, [BACKSLASH]);
    Append(buf, w + 1, [s[p]]);
    assert buf[..][..w + 2] == buf[..w + 2];
  }

  /** sym_escape_string_value: the buffer is filled exactly, ending in its only terminator. */
  method Escape(s: string) returns (buf: array<char>)
    requires NulFree(s)
    ensures fresh(buf) && buf[..] == Quoted(s) + [NUL]
    ensures NulFree(Quoted(s))
  {
    EscapeBodyLength(s);
    var reslen := BufferSize(s);
    buf := new char[reslen];
    buf[0] := QUOTE;
    CopyAll(buf, s);
  }

  /** Everything after the opening quote. */
  method CopyAll(buf: array<char>, s: string)
    requires buf.Length == |EscapeBody(s)| + 3 && buf[0] == QUOTE
    modifies buf
    ensures buf[..] == Quoted(s) + [NUL]
  {
    var w: nat, p: nat := 1, 0;
    while true
      invariant Written(buf[..], w, s, p)
      decreases |s| - p
    {
      var l := CopyRun(buf, w, s, p);
      w, p := w + l, p + l;
      if p == |s| {
        break;
      }
      CopySpecial(buf, w, s, p);
      w, p := w + 2, p + 1;
    }
    assert s[..|s|] == s && buf[..w] == buf[..][..w];
    Append(buf, w, [QUOTE, NUL]);
    assert buf[..] == buf[..w + 2];
  }

  // ---------- The decoder ----------

  /** What decoding the text after the opening quote can give. */
  datatype Decoded = Value(text: string) | Unterminated {
    function Prefixed(t: string): Decoded {
      if Value? then Value(t + text) else this
    }
  }

  /** An unescaped quote ends the text; a backslash goes and the character after it stays. */
  function Unescape(s: string): Decoded {
    if s == [] then Unterminated
    else if s[0] == QUOTE then Value([])
    else if s[0] != BACKSLASH then Unescape(s[1..]).Prefixed([s[0]])
    else if |s| == 1 then Unterminated
    else Unescape(s[2..]).Prefixed([s[1]])
  }

  // When a string is closed: a quote counts when an even number of backslashes stands before it.

  function TrailingBackslashes(s: string): (n: nat)
    ensures n <= |s|
  {
    if s == [] || s[|s| - 1] != BACKSLASH then 0 else 1 + TrailingBackslashes(s[..|s| - 1])
  }

  /** The position closes the string. */
  ghost predicate Closes(s: string, k: nat) {
    k < |s| && s[k] == QUOTE && TrailingBackslashes(s[..k]) % 2 == 0
  }

  ghost predicate Closed(s: string) {
    exists k: nat :: Closes(s, k)
  }

  lemma {:induction false} TrailingAppend(a: string, t: string)
    ensures TrailingBackslashes(a + t)
         == TrailingBackslashes(t) + if TrailingBackslashes(t) == |t| then TrailingBackslashes(a) else 0
  {
    if t == [] {
      assert a + t == a;
    } else {
      assert (a + t)[..|a + t| - 1] == a + t[..|t| - 1];
      TrailingAppend(a, t[..|t| - 1]);
    }
  }

  /** What the decoder reads at a time: a plain character, or a backslash and the character it escapes. */
  predicate OneRead(a: string) {
    (|a| == 1 && !Special(a[0])) || (|a| == 2 && a[0] == BACKSLASH)
  }

  /** Behind a plain character, or an escaped one, everything is as if the text started there. */
  lemma SkipTrailing(a: string, t: string)
    requires OneRead(a)
    ensures TrailingBackslashes(a + t) % 2 == TrailingBackslashes(t) % 2
  {
    TrailingAppend(a, t);
    if |a| == 2 {
      assert a[..1][..0] == [];
      assert TrailingBackslashes(a[..1]) == 1;
    }
  }

  lemma SkipClosed(a: string, t: string)
    requires OneRead(a)
    ensures Closed(a + t) <==> Closed(t)
  {
    forall k: nat | k < |t| ensures Closes(t, k) <==> Closes(a + t, |a| + k) {
      assert (a + t)[..|a| + k] == a + t[..k];
      SkipTrailing(a, t[..k]);
    }
    forall k: nat | k < |a| ensures !Closes(a + t, k) {
      if k == 1 {
        assert (a + t)[..1] == a[..1] && a[..1][..0] == [];
        assert TrailingBackslashes(a[..1]) == 1;
      }
    }
    if Closed(a + t) {
      var k: nat :| Closes(a + t, k);
      assert Closes(t, k - |a|);
    }
    if Closed(t) {
      var k: nat :| Closes(t, k);
      assert Closes(a + t, |a| + k);
    }
  }

  /** Decoding gives a value exactly if a quote closes the string. */
  lemma {:induction false} UnescapeOutcome(s: string)
    ensures Unescape(s).Value? <==> Closed(s)
    decreases |s|
  {
    if s == [] {
    } else if s[0] == QUOTE {
      assert s[..0] == [] && Closes(s, 0);
    } else if s[0] != BACKSLASH {
      assert s == [s[0]] + s[1..];
      UnescapeOutcome(s[1..]);
      SkipClosed([s[0]], s[1..]);
    } else if |s| > 1 {
      assert s == s[..2] + s[2..];
      UnescapeOutcome(s[2..]);
      SkipClosed(s[..2], s[2..]);
    }
  }

  lemma FourInARow(a: string, b: string, c: string, d: string)
    ensures a + b + c + d == a + (b + c + d)
  {
  }

  lemma UnescapeChar(c: char, tail: string)
    ensures Unescape(EscapeChar(c) + tail) == Unescape(tail).Prefixed([c])
  {
    if Special(c) {
      assert ([BACKSLASH, c] + tail)[2..] == tail;
    } else {
      assert ([c] + tail)[1..] == tail;
    }
  }

  /** Decoding undoes escaping, and ignores what follows the closing quote. */
  lemma {:induction false} UnescapeEscape(s: string, rest: string)
    ensures Unescape(EscapeBody(s) + [QUOTE] + rest) == Value(s)
  {
    if s == [] {
      assert EscapeBody(s) + [QUOTE] + rest == [QUOTE] + rest;
    } else {
      UnescapeEscape(s[1..], rest);
      UnescapeChar(s[0], EscapeBody(s[1..]) + [QUOTE] + rest);
      hide EscapeChar, Unescape;
      FourInARow(EscapeChar(s[0]), EscapeBody(s[1..]), [QUOTE], rest);
      assert [s[0]] + s[1..] == s;
    }
  }

  /** A character as it stands in a quoted text: bare, or behind a backslash. */
  datatype Unit = Bare(c: char) | Slashed(c: char)

  function Spelling(units: seq<Unit>): string {
    if units == [] then []
    else (if units[0].Bare? then [units[0].c] else [BACKSLASH, units[0].c]) + Spelling(units[1..])
  }

  function Letters(units: seq<Unit>): string {
    seq(|units|, i requires 0 <= i < |units| => units[i].c)
  }

  /** Whatever stands behind a backslash is kept as it is, be it special or not. */
  lemma {:induction false} UnescapeUnits(units: seq<Unit>, rest: string)
    requires forall u | u in units && u.Bare? :: u.c != '\"' && u.c != '\\'
    ensures Unescape(Spelling(units) + "\"" + rest) == Value(Letters(units))
  {
    if units == [] {
      assert Spelling(units) + "\"" + rest == "\"" + rest;
    } else {
      var u, tail := units[0], Spelling(units[1..]) + "\"" + rest;
      UnescapeUnits(units[1..], rest);
      assert [u.c] + Letters(units[1..]) == Letters(units);
      if u.Bare? {
        assert Spelling(units) + "\"" + rest == [u.c] + tail;
      } else {
        assert Spelling(units) + "\"" + rest == [BACKSLASH, u.c] + tail;
      }
    }
  }

  /** Quoting puts a backslash before quotes and backslashes and before nothing else. */
  lemma {:induction false} EscapesExactly(s: string)
    ensures EscapeBody(s)
         == Spelling(seq(|s|, i requires 0 <= i < |s| => if s[i] == '\"' || s[i] == '\\' then Slashed(s[i]) else Bare(s[i])))
  {
    if s != [] {
      EscapesExactly(s[1..]);
      var units := seq(|s|, i requires 0 <= i < |s| =>
        if s[i] == '\"' || s[i] == '\\' then Slashed(s[i]) else Bare(s[i]));
      assert units[1..] == seq(|s| - 1, i requires 0 <= i < |s| - 1 =>
        if s[1..][i] == '\"' || s[1..][i] == '\\' then Slashed(s[1..][i]) else Bare(s[1..][i]));
    }
  }

  /** So no two strings are written alike, even when one is written as the beginning of a longer line. */
  lemma QuotedInjective(s: string, t: string, rest: string)
    requires Quoted(s) == Quoted(t) + rest
    ensures s == t && rest == []
  {
    hide EscapeBody, Unescape;
    assert Quoted(t) + rest == [QUOTE] + (EscapeBody(t) + [QUOTE] + rest);
    assert Quoted(s) == [QUOTE] + (EscapeBody(s) + [QUOTE] + []);
    assert (EscapeBody(t) + [QUOTE] + rest) == (Quoted(t) + rest)[1..] == Quoted(s)[1..];
    assert Quoted(s)[1..] == EscapeBody(s) + [QUOTE] + [];
    UnescapeEscape(s, []);
    UnescapeEscape(t, rest);
  }

  /** memmove of `count` characters one place down. */
  method MoveDown(buf: array<char>, p: nat, count: nat)
    requires p + 1 + count <= buf.Length
    modifies buf
    ensures buf[..] == old(buf[..p]) + old(buf[p + 1..p + 1 + count]) + old(buf[p + count..])
  {
    for k := 0 to count
      invariant forall j | 0 <= j < buf.Length :: buf[j] == if p <= j < p + k then old(buf[j + 1]) else old(buf[j])
    {
      buf[p + k] := buf[p + k + 1];
    }
  }

  /** The characters of s stand at p. */
  ghost predicate Holds(buf: seq<char>, p: nat, s: string) {
    p + |s| <= |buf| && forall k | p <= k < p + |s| :: buf[k] == s[k - p] && buf[k] != NUL
  }

  /** The string that starts at p and ends before the first terminator. */
  ghost predicate StringAt(buf: seq<char>, p: nat, s: string) {
    Holds(buf, p, s) && p + |s| < |buf| && buf[p + |s|] == NUL
  }

  /** strlen. */
  method Length(buf: array<char>, p: nat, ghost s: string) returns (l: nat)
    requires StringAt(buf[..], p, s)
    ensures l == |s|
  {
    l := 0;
    while buf[p + l] != NUL
      invariant l <= |s|
      decreases |s| - l
    {
      l := l + 1;
    }
  }

  /** strpbrk with the two special characters: how far ahead the next one, or the terminator, is. */
  method Scan(buf: array<char>, p: nat, ghost s: string) returns (l: nat)
    requires StringAt(buf[..], p, s)
    ensures l <= |s| && forall k | 0 <= k < l :: !Special(s[k])
    ensures l < |s| ==> Special(s[l])
  {
    l := 0;
    while buf[p + l] != NUL && !Special(buf[p + l])
      invariant l <= |s| && forall k | 0 <= k < l :: !Special(s[k])
      decreases |s| - l
    {
      l := l + 1;
    }
  }

  lemma PrefixedTwice(d: Decoded, a: string, b: string)
    ensures d.Prefixed(b).Prefixed(a) == d.Prefixed(a + b)
  {
    if d.Value? {
      assert a + (b + d.text) == (a + b) + d.text;
    }
  }

  lemma PlainPrefix(s: string, l: nat)
    requires l <= |s| && forall k | 0 <= k < l :: !Special(s[k])
    ensures Unescape(s) == Unescape(s[l..]).Prefixed(s[..l])
    decreases l
  {
    if l == 0 {
      assert s[0..] == s && s[..0] == [];
    } else {
      PlainPrefix(s[1..], l - 1);
      assert s[1..][l - 1..] == s[l..] && [s[0]] + s[1..][..l - 1] == s[..l];
      PrefixedTwice(Unescape(s[l..]), [s[0]], s[1..][..l - 1]);
    }
  }

  /** The state of the decoder: what has not been read stands at p, and what has been decoded before it.  (The
      place of a backslash that was the last character holds the terminator instead; no value can follow then.) */
  ghost predicate Decoding(buf: seq<char>, p: nat, done: string, todo: string, whole: string) {
    && p == 1 + |done|
    && StringAt(buf, p, todo)
    && Unescape(whole) == Unescape(todo).Prefixed(done)
    && (Holds(buf, 1, done) || todo == [])
  }

  lemma DecodePlain(buf: seq<char>, p: nat, done: string, todo: string, whole: string, l: nat)
    requires Decoding(buf, p, done, todo, whole) && l <= |todo| && forall k | 0 <= k < l :: !Special(todo[k])
    ensures Decoding(buf, p + l, done + todo[..l], todo[l..], whole)
  {
    PlainPrefix(todo, l);
    PrefixedTwice(Unescape(todo[l..]), done, todo[..l]);
    Advance(buf, p, todo, l);
    if Holds(buf, 1, done) {
      HoldsAppend(buf, 1, done, todo[..l]);
    }
  }

  lemma Advance(buf: seq<char>, p: nat, todo: string, l: nat)
    requires StringAt(buf, p, todo) && l <= |todo|
    ensures Holds(buf, p, todo[..l]) && StringAt(buf, p + l, todo[l..])
  {
  }

  lemma HoldsAppend(buf: seq<char>, p: nat, s: string, t: string)
    requires Holds(buf, p, s) && Holds(buf, p + |s|, t)
    ensures Holds(buf, p, s + t)
  {
  }

  /** Deletes the backslash at p by moving the rest of the string, with its terminator, down.  The old terminator
      stays where it is, as does everything behind it. */
  method DeleteAt(buf: array<char>, p: nat, ghost todo: string, ghost end: nat)
    requires StringAt(buf[..], p, todo) && |todo| >= 1 && p + |todo| <= end <= buf.Length
    modifies buf
    ensures StringAt(buf[..], p, todo[1..]) && buf[..p] == old(buf[..p])
    ensures buf[p + |todo|] == NUL && buf[end..] == old(buf[end..])
  {
    var count := Length(buf, p, todo);
    MoveDown(buf, p, count);
  }

  /** Deletes the backslash at p and skips the character after it, which then stands as decoded.  If the backslash
      was the last character the old terminator is what comes next. */
  method Unslash(buf: array<char>, p: nat, ghost done: string, ghost todo: string, ghost whole: string, ghost end: nat)
    requires Decoding(buf[..], p, done, todo, whole) && todo != [] && todo[0] == BACKSLASH
    requires p + |todo| <= end <= buf.Length
    modifies buf
    ensures Decoding(buf[..], p + 1, done + Second(todo), Third(todo), whole)
    ensures buf[end..] == old(buf[end..])
  {
    DeleteAt(buf, p, todo, end);
    if |todo| > 1 {
      PrefixedTwice(Unescape(todo[2..]), done, [todo[1]]);
      Advance(buf[..], p, todo[1..], 1);
      assert forall k | 0 <= k < p :: buf[k] == buf[..p][k];
      HoldsAppend(buf[..], 1, done, [todo[1]]);
      assert todo[1..][1..] == todo[2..];
    }
  }

  /** The character behind a backslash, and what follows it. */
  ghost function Second(todo: string): string
    requires todo != []
  {
    if |todo| == 1 then [NUL] else [todo[1]]
  }

  ghost function Third(todo: string): string
    requires todo != []
  {
    if |todo| == 1 then [] else todo[2..]
  }

  /** Ends the string at the closing quote. */
  method Close(buf: array<char>, p: nat, ghost done: string, ghost end: nat) returns (text: string)
    requires p == 1 + |done| && p < end <= buf.Length && Holds(buf[..], 1, done)
    modifies buf
    ensures text == done && StringAt(buf[..], 1, text)
    ensures buf[end..] == old(buf[end..])
  {
    buf[p] := NUL;
    text := buf[1..p];
  }

  /** The string case of conf_set_sym_val, from the opening quote on: every backslash is deleted by moving the
      rest of the line down, and the character after it is skipped.  Whatever the line, nothing behind its
      terminator is read or written, and there is a value if and only if a quote closes the string. */
  method Decode(buf: array<char>, ghost line: string) returns (r: Decoded)
    requires line != [] && line[0] == QUOTE && StringAt(buf[..], 0, line)
    modifies buf
    ensures r == Unescape(line[1..])
    ensures r.Value? ==> StringAt(buf[..], 1, r.text)
    ensures r.Value? <==> Closed(line[1..])
    ensures buf[|line|..] == old(buf[|line|..])
  {
    UnescapeOutcome(line[1..]);
    ghost var whole := line[1..];
    ghost var done, todo := [], whole;
    var p2 := 1;
    while true
      invariant Decoding(buf[..], p2, done, todo, whole)
      invariant p2 + |todo| <= |line| && buf[|line|..] == old(buf[|line|..])
      decreases |todo|
    {
      var l := Scan(buf, p2, todo);
      DecodePlain(buf[..], p2, done, todo, whole, l);
      done, todo := done + todo[..l], todo[l..];
      p2 := p2 + l;
      if buf[p2] == NUL {
        return Unterminated;
      }
      if buf[p2] == QUOTE {
        var text := Close(buf, p2, done, |line|);
        return Value(text);
      }
      Unslash(buf, p2, done, todo, whole, |line|);
      done, todo := done + Second(todo), Third(todo);
      p2 := p2 + 1;
    }
  }
}
