/** Expansion of macro references in Kconfig text: variables, user-defined functions and built-in functions. */
module Preprocess {
  datatype Flavor = Simple | Recursive

  datatype Variable = Variable(name: string, value: string, flavor: Flavor)

  datatype Lookup = Missing | Found(text: string)

  /** What expansion can see: the variables in order of definition, the current file and line, the
      environment, and the output of shell commands. */
  datatype Context = Context(
    vars: seq<Variable>,
    file: string,
    line: string,
    env: string -> Lookup,
    shell: string -> string)

  datatype Mistake =
    | Unterminated
    | TooManyArguments
    | SelfReference
    | TooDeep
    | WrongArgumentCount
    | UserError
    | TableOverrun(clause: string)

  /** Every mistake ends the program, except an overrun: it stands for the write behind the table of arguments that
      a clause of one part too many causes, after which nothing is promised.  Otherwise an outcome is the text of
      an expansion and what follows it. */
  datatype Outcome = Fail(why: Mistake) | Ok(text: string, rest: string)

  /** How deep each variable is being expanded. */
  type Counts = seq<nat>

  const MAX_DEPTH: nat := 1000
  const MAX_ARGS: nat := 16

  /** Counts of a context: one per variable, none above what the depth check lets through. */
  predicate Fits(cx: Context, counts: Counts) {
    |counts| == |cx.vars| && forall i | 0 <= i < |counts| :: counts[i] <= MAX_DEPTH + 1
  }

  /** The expansions that can still be entered. */
  function Budget(counts: Counts): nat {
    if counts == [] then 0
    else (if counts[0] <= MAX_DEPTH then MAX_DEPTH + 1 - counts[0] else 0) + Budget(counts[1..])
  }

  lemma {:induction false} EnterSpends(counts: Counts, i: nat)
    requires i < |counts| && counts[i] <= MAX_DEPTH
    ensures Budget(counts[i := counts[i] + 1]) == Budget(counts) - 1
  {
    if i == 0 {
      assert counts[0 := counts[0] + 1][1..] == counts[1..];
    } else {
      EnterSpends(counts[1..], i - 1);
      assert counts[i := counts[i] + 1][1..] == counts[1..][i - 1 := counts[i] + 1];
    }
  }

  // ---------- Scanning ----------

  /** The position of the parenthesis that closes the one just opened. */
  function Closing(s: string, nest: nat): (k: int)
    ensures -1 <= k < |s| && (k >= 0 ==> s[k] == ')')
  {
    if s == [] then -1
    else if s[0] == ')' && nest == 0 then 0
    else
      var n := if s[0] == '(' then nest + 1 else if s[0] == ')' then nest - 1 else nest;
      var k := Closing(s[1..], n);
      if k < 0 then -1 else k + 1
  }

  /** The parts between commas outside parentheses; `prev` is the part being read. */
  function Split(s: string, nest: int, prev: string): (parts: seq<string>)
    ensures parts != []
    ensures forall p | p in parts :: |p| <= |prev| + |s|
  {
    if s == [] then [prev]
    else if nest == 0 && s[0] == ',' then [prev] + Split(s[1..], nest, [])
    else Split(s[1..], if s[0] == '(' then nest + 1 else if s[0] == ')' then nest - 1 else nest, prev + [s[0]])
  }

  lemma SplitStep(s: string, p: nat, nest: int, prev: string)
    requires p < |s|
    ensures Split(s[p..], nest, prev)
         == if nest == 0 && s[p] == ',' then [prev] + Split(s[p + 1..], nest, [])
            else Split(s[p + 1..], if s[p] == '(' then nest + 1 else if s[p] == ')' then nest - 1 else nest, prev + [s[p]])
  {
    assert s[p..][1..] == s[p + 1..];
  }

  lemma SplitEnd(s: string, nest: int, prev: string)
    ensures Split(s[|s|..], nest, prev) == [prev]
  {
  }

  lemma ClosingStep(s: string, q: nat, nest: nat)
    requires q < |s|
    ensures if s[q] == ')' && nest == 0 then Closing(s[q..], nest) == 0
            else
              var k := Closing(s[q + 1..], if s[q] == '(' then nest + 1 else if s[q] == ')' then nest - 1 else nest);
              Closing(s[q..], nest) == if k < 0 then -1 else k + 1
  {
    assert s[q..][1..] == s[q + 1..];
  }

  lemma ClosingNothing(s: string, nest: nat)
    ensures Closing(s[|s|..], nest) == -1
  {
  }

  // What the scans find, in terms of the depth of parentheses.

  function Depth(s: string): int {
    if s == [] then 0 else Depth(s[..|s| - 1]) + Nesting(s[|s| - 1])
  }

  function Nesting(c: char): int {
    if c == '(' then 1 else if c == ')' then -1 else 0
  }

  lemma {:induction false} DepthAppend(s: string, t: string)
    ensures Depth(s + t) == Depth(s) + Depth(t)
  {
    if t == [] {
      assert s + t == s;
    } else {
      assert (s + t)[..|s + t| - 1] == s + t[..|t| - 1];
      DepthAppend(s, t[..|t| - 1]);
    }
  }

  lemma DepthFirst(s: string, k: nat)
    requires 0 < k <= |s|
    ensures Depth(s[..k]) == Nesting(s[0]) + Depth(s[1..][..k - 1])
  {
    assert s[..k] == [s[0]] + s[1..][..k - 1];
    DepthAppend([s[0]], s[1..][..k - 1]);
    assert [s[0]][..0] == [];
  }

  /** The parenthesis found is the first one that closes more than was opened; if none is found there is none. */
  lemma {:induction false} ClosingMeaning(s: string, nest: nat)
    ensures var k := Closing(s, nest);
            && (forall j | 0 <= j <= (if k < 0 then |s| else k) :: nest + Depth(s[..j]) >= 0)
            && (k >= 0 ==> nest + Depth(s[..k]) == 0)
  {
    assert s[..0] == [];
    if s != [] && !(s[0] == ')' && nest == 0) {
      ClosingMeaning(s[1..], nest + Nesting(s[0]));
      var k := Closing(s, nest);
      forall j | 0 < j <= (if k < 0 then |s| else k) ensures nest + Depth(s[..j]) >= 0 {
        DepthFirst(s, j);
        assert nest + Nesting(s[0]) + Depth(s[1..][..j - 1]) >= 0;
      }
      if k > 0 {
        DepthFirst(s, k);
      }
    }
  }

  /** No comma stands outside parentheses. */
  predicate NoTopComma(part: string) {
    forall k | 0 <= k < |part| && part[k] == ',' :: Depth(part[..k]) != 0
  }

  function JoinParts(parts: seq<string>): string
    requires parts != []
  {
    if |parts| == 1 then parts[0] else parts[0] + "," + JoinParts(parts[1..])
  }

  /** Parts without commas of their own, of which all but the last are balanced. */
  predicate ProperParts(parts: seq<string>) {
    && (forall p | p in parts :: NoTopComma(p))
    && (forall i | 0 <= i < |parts| - 1 :: Depth(parts[i]) == 0)
  }

  lemma NoTopCommaLonger(prev: string, c: char)
    requires NoTopComma(prev) && !(c == ',' && Depth(prev) == 0)
    ensures NoTopComma(prev + [c]) && Depth(prev + [c]) == Depth(prev) + Nesting(c)
  {
    assert (prev + [c])[..|prev|] == prev;
    forall k | 0 <= k < |prev| ensures (prev + [c])[..k] == prev[..k] {
    }
  }

  lemma JoinFirst(part: string, parts: seq<string>, s: string)
    requires parts != [] && s != [] && s[0] == ',' && JoinParts(parts) == s[1..]
    ensures JoinParts([part] + parts) == part + s
  {
    assert ([part] + parts)[1..] == parts;
    assert part + "," + s[1..] == part + s;
  }

  /** Splitting gives the clause back when the parts are joined. */
  lemma {:induction false} SplitJoins(s: string, nest: int, prev: string)
    ensures JoinParts(Split(s, nest, prev)) == prev + s
  {
    hide JoinParts;
    if s == [] {
      JoinOne(prev);
    } else if nest == 0 && s[0] == ',' {
      SplitJoins(s[1..], 0, []);
      assert [] + s[1..] == s[1..];
      JoinFirst(prev, Split(s[1..], 0, []), s);
    } else {
      SplitJoins(s[1..], nest + Nesting(s[0]), prev + [s[0]]);
      assert prev + [s[0]] + s[1..] == prev + s;
    }
  }

  lemma JoinOne(part: string)
    ensures JoinParts([part]) == part + []
  {
    assert part + [] == part;
  }

  /** And leaves no comma outside parentheses in any part. */
  lemma {:induction false} SplitProper(s: string, nest: int, prev: string)
    requires nest == Depth(prev) && NoTopComma(prev)
    ensures ProperParts(Split(s, nest, prev))
  {
    hide Depth, NoTopComma;
    if s == [] {
    } else if nest == 0 && s[0] == ',' {
      NothingProper();
      SplitProper(s[1..], 0, []);
      ProperLonger(prev, Split(s[1..], 0, []));
    } else {
      NoTopCommaLonger(prev, s[0]);
      SplitProper(s[1..], nest + Nesting(s[0]), prev + [s[0]]);
    }
  }

  lemma NothingProper()
    ensures NoTopComma([]) && Depth([]) == 0
  {
  }

  lemma ProperLonger(part: string, parts: seq<string>)
    requires NoTopComma(part) && Depth(part) == 0
    requires parts != [] && ProperParts(parts)
    ensures ProperParts([part] + parts)
  {
    hide Depth, NoTopComma;
    forall i | 0 <= i < |parts| ensures Depth(([part] + parts)[i]) == 0 {
      if i > 0 {
        assert ([part] + parts)[i] == parts[i - 1];
      }
    }
  }

  /** There is no other way to do so. */
  lemma {:induction false} SplitUnique(parts: seq<string>)
    requires parts != [] && ProperParts(parts)
    ensures Split(JoinParts(parts), 0, []) == parts
    decreases |parts|
  {
    hide Depth, NoTopComma, Split;
    NothingProper();
    var first := parts[0];
    assert first in parts;
    assert [] + first == first;
    if |parts| == 1 {
      SplitPart(first, [], []);
      SplitEnd([], Depth(first), first);
      assert first + [] == first;
    } else {
      var rest := JoinParts(parts[1..]);
      ProperShorter(parts);
      SplitUnique(parts[1..]);
      SplitPart(first, "," + rest, []);
      assert first + "," + rest == first + ("," + rest);
      SplitStep("," + rest, 0, 0, first);
      assert ("," + rest)[0..] == "," + rest && ("," + rest)[1..] == rest;
      assert [first] + parts[1..] == parts;
    }
  }

  lemma ProperShorter(parts: seq<string>)
    requires |parts| > 1 && ProperParts(parts)
    ensures ProperParts(parts[1..]) && Depth(parts[0]) == 0
  {
    hide Depth, NoTopComma;
    assert forall i | 0 <= i < |parts| - 2 :: parts[1..][i] == parts[i + 1];
  }

  lemma {:induction false} SplitPart(p: string, rest: string, prev: string)
    requires NoTopComma(prev + p)
    ensures Split(p + rest, Depth(prev), prev) == Split(rest, Depth(prev + p), prev + p)
    decreases |p|
  {
    if p == [] {
      assert prev + p == prev && p + rest == rest;
    } else {
      assert (prev + p)[..|prev|] == prev && (prev + p)[|prev|] == p[0];
      assert (prev + [p[0]])[..|prev|] == prev;
      assert prev + [p[0]] + p[1..] == prev + p;
      assert (p + rest)[1..] == p[1..] + rest;
      SplitPart(p[1..], rest, prev + [p[0]]);
    }
  }

  /** The parts of a clause are the one way to write it as parts between commas outside parentheses. */
  lemma SplitExactly(clause: string, parts: seq<string>)
    ensures Split(clause, 0, []) == parts
       <==> parts != [] && ProperParts(parts) && JoinParts(parts) == clause
  {
    hide Depth, NoTopComma, Split;
    NothingProper();
    SplitJoins(clause, 0, []);
    SplitProper(clause, 0, []);
    assert [] + clause == clause;
    if parts != [] && ProperParts(parts) {
      SplitUnique(parts);
    }
  }

  /** Sixteen commas make seventeen parts. */
  lemma {:induction false} CommasSplit(n: nat)
    ensures |Split(seq(n, i => ','), 0, [])| == n + 1
  {
    var commas := seq(n, i => ',');
    if n > 0 {
      assert commas[1..] == seq(n - 1, i => ',');
      CommasSplit(n - 1);
    }
  }

  predicate IsSpace(c: char) {
    c == ' ' || c == '\t' || c == '\n' || c == '\r' || c as int == 11 || c as int == 12
  }

  predicate IsDigit(c: char) {
    '0' <= c <= '9'
  }

  const ULONG_MAX: nat := 0xffff_ffff_ffff_ffff

  /** strtoul: the number of an argument reference such as "1"; 0 for text that is no number.  White space and a
      sign may precede the digits; a minus sign negates in unsigned arithmetic, so that 2^64 - 1 behind it is 1. */
  function ArgumentNumber(s: string): nat {
    if s == [] then 0
    else if IsSpace(s[0]) then ArgumentNumber(s[1..])
    else if s[0] == '+' then Unsigned(false, Digits(s[1..], 0))
    else if s[0] == '-' then Unsigned(true, Digits(s[1..], 0))
    else Unsigned(false, Digits(s, 0))
  }

  function Unsigned(negative: bool, v: nat): nat {
    if v > ULONG_MAX then ULONG_MAX else if negative && v > 0 then ULONG_MAX + 1 - v else v
  }

  function Digits(s: string, n: nat): nat {
    if s == [] then n else if IsDigit(s[0]) then Digits(s[1..], 10 * n + (s[0] as int - '0' as int)) else 0
  }

  function Find(vars: seq<Variable>, name: string): (i: int)
    ensures -1 <= i < |vars| && (i >= 0 ==> vars[i].name == name)
  {
    if vars == [] then -1
    else if vars[0].name == name then 0
    else
      var i := Find(vars[1..], name);
      if i < 0 then -1 else i + 1
  }

  /** Where expansion stops: at the end of the string, or at the first character that is not of a word. */
  datatype Extent = WholeString | OneToken

  predicate IsWordChar(c: char) {
    IsDigit(c) || 'a' <= c <= 'z' || 'A' <= c <= 'Z' || c == '_' || c == '-'
  }

  predicate Stops(extent: Extent, s: string) {
    s == [] || (extent == OneToken && !IsWordChar(s[0]))
  }

  // ---------- Built-in functions ----------

  datatype Called = NoSuchFunction | Result(r: Outcome)

  function Arity(name: string): int {
    if name in {"error-if", "warning-if"} then 2
    else if name in {"filename", "lineno"} then 0
    else if name in {"info", "shell"} then 1
    else -1
  }

  function CallBuiltin(cx: Context, name: string, args: seq<string>): Called {
    if Arity(name) < 0 then NoSuchFunction
    else if |args| != Arity(name) then Result(Fail(WrongArgumentCount))
    else if name == "error-if" && args[0] == "y" then Result(Fail(UserError))
    else if name == "filename" then Result(Ok(cx.file, []))
    else if name == "lineno" then Result(Ok(cx.line, []))
    else if name == "shell" then Result(Ok(cx.shell(args[0]), []))
    else Result(Ok([], []))
  }

  // ---------- Expansion ----------

  /** The table of arguments has room for one part less than fit through the check at the commas. */
  predicate Overruns(clause: string) {
    |Split(clause, 0, [])| == MAX_ARGS + 1
  }

  /** An overrun is blamed on a clause that causes one. */
  predicate Justified(why: Mistake) {
    why.TableOverrun? ==> Overruns(why.clause)
  }

  /** The expansion of a string with the given arguments in scope. */
  function Expand(cx: Context, counts: Counts, extent: Extent, s: string, args: seq<string>): (r: Outcome)
    requires Fits(cx, counts)
    ensures r.Fail? ==> Justified(r.why)
    decreases Budget(counts), |s|, 0
  {
    if s != [] && s[0] == '$' then
      var d := ExpandDollar(cx, counts, s[1..], args);
      if d.Fail? then d
      else
        var r := Expand(cx, counts, extent, d.rest, args);
        if r.Fail? then r else Ok(d.text + r.text, r.rest)
    else if Stops(extent, s) then Ok([], s)
    else
      var r := Expand(cx, counts, extent, s[1..], args);
      if r.Fail? then r else Ok([s[0]] + r.text, r.rest)
  }

  /** The expansion of what follows a dollar sign, which stands for itself unless a parenthesis follows. */
  function ExpandDollar(cx: Context, counts: Counts, s: string, args: seq<string>): (r: Outcome)
    requires Fits(cx, counts)
    ensures r.Ok? ==> |r.rest| <= |s|
    ensures r.Fail? ==> Justified(r.why)
    decreases Budget(counts), |s|, 1
  {
    if s == [] || s[0] != '(' then Ok("$", s)
    else
      var k := Closing(s[1..], 0);
      if k < 0 then Fail(Unterminated)
      else
        var v := EvalClause(cx, counts, s[1..][..k], args);
        if v.Fail? then v else Ok(v.text, s[k + 2..])
  }

  /** The value of the text between the parentheses of a reference. */
  function EvalClause(cx: Context, counts: Counts, clause: string, args: seq<string>): (r: Outcome)
    requires Fits(cx, counts)
    ensures r.Fail? ==> Justified(r.why)
    decreases Budget(counts), |clause|, 2
  {
    var n := ArgumentNumber(clause);
    if 0 < n <= |args| then Ok(args[n - 1], [])
    else
      var parts := Split(clause, 0, []);
      if |parts| > MAX_ARGS + 1 then Fail(TooManyArguments)
      else if |parts| > MAX_ARGS then Fail(TableOverrun(clause))
      else
        var e := ExpandAll(cx, counts, parts, args, |clause|);
        if e.Wrong? then Fail(e.why) else Call(cx, counts, e.texts[0], e.texts[1..])
  }

  datatype Expanded = Wrong(why: Mistake) | Texts(texts: seq<string>)

  /** All parts, expanded in order. */
  function ExpandAll(cx: Context, counts: Counts, parts: seq<string>, args: seq<string>, longest: nat): (e: Expanded)
    requires Fits(cx, counts) && forall p | p in parts :: |p| <= longest
    ensures e.Texts? ==> |e.texts| == |parts|
    ensures e.Wrong? ==> Justified(e.why)
    decreases Budget(counts), longest, 1, |parts|
  {
    if parts == [] then Texts([])
    else
      assert parts[0] in parts;
      var first := Expand(cx, counts, WholeString, parts[0], args);
      if first.Fail? then Wrong(first.why)
      else
        var others := ExpandAll(cx, counts, parts[1..], args, longest);
        if others.Wrong? then others else Texts([first.text] + others.texts)
  }

  /** A reference by name: variables come first, then built-in functions, then the environment. */
  function Call(cx: Context, counts: Counts, name: string, args: seq<string>): (r: Outcome)
    requires Fits(cx, counts)
    ensures r.Fail? ==> Justified(r.why)
    decreases Budget(counts), 0, 0
  {
    var i := Find(cx.vars, name);
    if i >= 0 then
      if args == [] && counts[i] > 0 then Fail(SelfReference)
      else if counts[i] > MAX_DEPTH then Fail(TooDeep)
      else if cx.vars[i].flavor == Simple then Ok(cx.vars[i].value, [])
      else
        EnterSpends(counts, i);
        Expand(cx, counts[i := counts[i] + 1], WholeString, cx.vars[i].value, args)
    else
      match CallBuiltin(cx, name, args) {
        case Result(r) => r
        case NoSuchFunction =>
          if args == [] && name != [] && cx.env(name).Found? then Ok(cx.env(name).text, []) else Ok([], [])
      }
  }

  // ---------- What the counts do ----------

  /** No variable is deeper in `lo` than in `hi`. */
  predicate Below(lo: Counts, hi: Counts) {
    |lo| == |hi| && forall i | 0 <= i < |lo| :: lo[i] <= hi[i]
  }

  /** The counts decide only whether expansion is given up: an expansion that succeeds at some depth gives the
      same text at any lesser depth. */
  lemma {:induction false} ExpandSame(cx: Context, lo: Counts, hi: Counts, extent: Extent, s: string, args: seq<string>)
    requires Fits(cx, lo) && Fits(cx, hi) && Below(lo, hi) && Expand(cx, hi, extent, s, args).Ok?
    ensures Expand(cx, lo, extent, s, args) == Expand(cx, hi, extent, s, args)
    decreases Budget(hi), |s|, 0
  {
    if s != [] && s[0] == '$' {
      ExpandDollarSame(cx, lo, hi, s[1..], args);
      ExpandSame(cx, lo, hi, extent, ExpandDollar(cx, hi, s[1..], args).rest, args);
    } else if !Stops(extent, s) {
      ExpandSame(cx, lo, hi, extent, s[1..], args);
    }
  }

  lemma {:induction false} ExpandDollarSame(cx: Context, lo: Counts, hi: Counts, s: string, args: seq<string>)
    requires Fits(cx, lo) && Fits(cx, hi) && Below(lo, hi) && ExpandDollar(cx, hi, s, args).Ok?
    ensures ExpandDollar(cx, lo, s, args) == ExpandDollar(cx, hi, s, args)
    decreases Budget(hi), |s|, 1
  {
    if s != [] && s[0] == '(' {
      EvalClauseSame(cx, lo, hi, s[1..][..Closing(s[1..], 0)], args);
    }
  }

  lemma {:induction false} EvalClauseSame(cx: Context, lo: Counts, hi: Counts, clause: string, args: seq<string>)
    requires Fits(cx, lo) && Fits(cx, hi) && Below(lo, hi) && EvalClause(cx, hi, clause, args).Ok?
    ensures EvalClause(cx, lo, clause, args) == EvalClause(cx, hi, clause, args)
    decreases Budget(hi), |clause|, 2
  {
    var n := ArgumentNumber(clause);
    if !(0 < n <= |args|) {
      var parts := Split(clause, 0, []);
      ExpandAllSame(cx, lo, hi, parts, args, |clause|);
      var e := ExpandAll(cx, hi, parts, args, |clause|);
      CallSame(cx, lo, hi, e.texts[0], e.texts[1..]);
    }
  }

  lemma {:induction false} ExpandAllSame(cx: Context, lo: Counts, hi: Counts, parts: seq<string>,
                                        args: seq<string>, longest: nat)
    requires Fits(cx, lo) && Fits(cx, hi) && Below(lo, hi) && forall p | p in parts :: |p| <= longest
    requires ExpandAll(cx, hi, parts, args, longest).Texts?
    ensures ExpandAll(cx, lo, parts, args, longest) == ExpandAll(cx, hi, parts, args, longest)
    decreases Budget(hi), longest, 1, |parts|
  {
    if parts != [] {
      assert parts[0] in parts;
      ExpandSame(cx, lo, hi, WholeString, parts[0], args);
      ExpandAllSame(cx, lo, hi, parts[1..], args, longest);
    }
  }

  lemma {:induction false} CallSame(cx: Context, lo: Counts, hi: Counts, name: string, args: seq<string>)
    requires Fits(cx, lo) && Fits(cx, hi) && Below(lo, hi) && Call(cx, hi, name, args).Ok?
    ensures Call(cx, lo, name, args) == Call(cx, hi, name, args)
    decreases Budget(hi), 0, 0
  {
    var i := Find(cx.vars, name);
    if i >= 0 && cx.vars[i].flavor == Recursive {
      EnterSpends(hi, i);
      EnterSpends(lo, i);
      ExpandSame(cx, lo[i := lo[i] + 1], hi[i := hi[i] + 1], WholeString, cx.vars[i].value, args);
    }
  }

  /** An overrun is the outcome of a clause if and only if the clause, being no argument reference, has exactly one
      part more than the table. */
  lemma OverrunExactly(cx: Context, counts: Counts, clause: string, args: seq<string>)
    requires Fits(cx, counts)
    ensures EvalClause(cx, counts, clause, args) == Fail(TableOverrun(clause))
       <==> !(0 < ArgumentNumber(clause) <= |args|) && Overruns(clause)
  {
    hide Split, Call;
  }

  /** A clause of sixteen commas overruns the table, whatever the variables. */
  lemma SixteenCommasOverrun(cx: Context, counts: Counts, args: seq<string>)
    requires Fits(cx, counts)
    ensures EvalClause(cx, counts, seq(16, i => ','), args) == Fail(TableOverrun(seq(16, i => ',')))
  {
    CommasSplit(16);
    OverrunExactly(cx, counts, seq(16, i => ','), args);
  }

  /** A word that can be the name of a variable and is no number. */
  predicate Name(name: string) {
    && name != [] && !IsDigit(name[0]) && name[0] != '-'
    && forall k | 0 <= k < |name| :: IsWordChar(name[k])
  }

  /** A reference by name is replaced by what the call of that name gives. */
  lemma ReferenceExpands(cx: Context, counts: Counts, extent: Extent, name: string, rest: string, args: seq<string>)
    requires Fits(cx, counts) && Name(name)
    ensures Expand(cx, counts, extent, "$(" + name + ")" + rest, args)
         == if Call(cx, counts, name, []).Fail? then Call(cx, counts, name, [])
            else Prefixed(Call(cx, counts, name, []).text, Expand(cx, counts, extent, rest, args))
  {
    hide EvalClause, Closing, Call;
    var s := "$(" + name + ")" + rest;
    assert s[1..] == "(" + (name + ")" + rest);
    assert s[1..][1..] == name + ")" + rest;
    ClosingWord(name, rest);
    assert (name + ")" + rest)[..|name|] == name;
    assert s[1..][|name| + 2..] == rest;
    NameClauseCalls(cx, counts, name, args);
  }

  lemma NameClauseCalls(cx: Context, counts: Counts, name: string, args: seq<string>)
    requires Fits(cx, counts) && Name(name)
    ensures EvalClause(cx, counts, name, args) == Call(cx, counts, name, [])
  {
    hide Expand, Split, Call;
    WordIsOnePart(name, []);
    assert [] + name == name;
    ExpandWord(cx, counts, name, args);
    ExpandOne(cx, counts, name, args);
    assert [name][1..] == [];
  }

  /** A reference to a variable that is expanded when it is defined gives its value. */
  lemma SimpleReference(cx: Context, counts: Counts, extent: Extent, name: string, rest: string, args: seq<string>)
    requires Fits(cx, counts) && Name(name)
    requires var i := Find(cx.vars, name); i >= 0 && counts[i] == 0 && cx.vars[i].flavor == Simple
    ensures Expand(cx, counts, extent, "$(" + name + ")" + rest, args)
         == Prefixed(cx.vars[Find(cx.vars, name)].value, Expand(cx, counts, extent, rest, args))
  {
    hide Expand;
    ReferenceExpands(cx, counts, extent, name, rest, args);
  }

  /** A reference without arguments to a variable that is being expanded is always refused. */
  lemma SelfReferenceRefused(cx: Context, counts: Counts, extent: Extent, name: string, rest: string, args: seq<string>)
    requires Fits(cx, counts) && Name(name)
    requires Find(cx.vars, name) >= 0 && counts[Find(cx.vars, name)] > 0
    ensures Expand(cx, counts, extent, "$(" + name + ")" + rest, args) == Fail(SelfReference)
  {
    hide Expand;
    ReferenceExpands(cx, counts, extent, name, rest, args);
  }

  lemma ExpandOne(cx: Context, counts: Counts, name: string, args: seq<string>)
    requires Fits(cx, counts) && Expand(cx, counts, WholeString, name, args) == Ok(name, [])
    ensures ExpandAll(cx, counts, [name], args, |name|) == Texts([name])
  {
    hide Expand;
    assert [name][1..] == [];
  }

  lemma {:induction false} ClosingWord(name: string, rest: string)
    requires forall k | 0 <= k < |name| :: IsWordChar(name[k])
    ensures Closing(name + ")" + rest, 0) == |name|
  {
    if name == [] {
      assert name + ")" + rest == ")" + rest;
    } else {
      ClosingWord(name[1..], rest);
      assert (name + ")" + rest)[1..] == name[1..] + ")" + rest;
      assert (name + ")" + rest)[0] == name[0];
    }
  }

  lemma {:induction false} WordIsOnePart(name: string, prev: string)
    requires forall k | 0 <= k < |name| :: IsWordChar(name[k])
    ensures Split(name, 0, prev) == [prev + name]
  {
    if name == [] {
      assert prev + name == prev;
    } else {
      WordIsOnePart(name[1..], prev + [name[0]]);
      assert prev + [name[0]] + name[1..] == prev + name;
    }
  }

  /** Text without a dollar sign expands to itself. */
  lemma {:induction false} ExpandWord(cx: Context, counts: Counts, s: string, args: seq<string>)
    requires Fits(cx, counts) && '$' !in s
    ensures Expand(cx, counts, WholeString, s, args) == Ok(s, [])
  {
    if s != [] {
      ExpandWord(cx, counts, s[1..], args);
      assert [s[0]] + s[1..] == s;
    }
  }

  // ---------- The expander ----------

  function Prefixed(t: string, r: Outcome): Outcome {
    if r.Fail? then r else Ok(t + r.text, r.rest)
  }

  lemma PrefixedTwice(a: string, b: string, r: Outcome)
    ensures Prefixed(a, Prefixed(b, r)) == Prefixed(a + b, r)
  {
    if r.Ok? {
      assert a + (b + r.text) == a + b + r.text;
    }
  }

  class Expander {
    const cx: Context
    /** How deep each variable is being expanded. */
    var counts: Counts

    constructor (cx: Context)
      ensures this.cx == cx && Fits(cx, counts)
      ensures forall i | 0 <= i < |counts| :: counts[i] == 0
    {
      this.cx := cx;
      counts := seq(|cx.vars|, i => 0);
    }

    /** __expand_string: copies plain text in runs and splices in the expansion of every reference.  On normal
        return every count is what it was. */
    method ExpandString(extent: Extent, s: string, args: seq<string>) returns (r: Outcome)
      requires Fits(cx, counts)
      modifies this
      ensures r == Expand(cx, old(counts), extent, s, args)
      ensures r.Ok? ==> counts == old(counts)
      decreases Budget(counts), |s|, 0
    {
      var rest := s;
      var run, out := "", "";
      while true
        invariant counts == old(counts) && |rest| <= |s|
        invariant Expand(cx, counts, extent, s, args) == Prefixed(out + run, Expand(cx, counts, extent, rest, args))
        decreases |rest|
      {
        if rest != [] && rest[0] == '$' {
          var d := ExpandReference(rest[1..], args);
          if d.Fail? {
            return d;
          }
          ghost var before := out + run;
          PrefixedTwice(before, d.text, Expand(cx, counts, extent, d.rest, args));
          out := out + run + d.text;
          run, rest := "", d.rest;
          assert out + run == before + d.text;
          continue;
        }
        if Stops(extent, rest) {
          break;
        }
        PrefixedTwice(out + run, [rest[0]], Expand(cx, counts, extent, rest[1..], args));
        assert out + (run + [rest[0]]) == out + run + [rest[0]];
        run, rest := run + [rest[0]], rest[1..];
      }
      r := Ok(out + run, rest);
    }

    /** expand_dollar_with_args: the text up to the closing parenthesis. */
    method ExpandReference(s: string, args: seq<string>) returns (r: Outcome)
      requires Fits(cx, counts)
      modifies this
      ensures r == ExpandDollar(cx, old(counts), s, args)
      ensures r.Ok? ==> counts == old(counts)
      decreases Budget(counts), |s|, 1
    {
      hide Closing, EvalClause, Justified, Budget, Fits;
      if s == [] || s[0] != '(' {
        return Ok("$", s);
      }
      var q := FindClosing(s[1..]);
      if q == |s| - 1 {
        return Fail(Unterminated);
      }
      assert s[1..q + 1] == s[1..][..q];
      var v := EvaluateClause(s[1..q + 1], args);
      r := if v.Fail? then v else Ok(v.text, s[q + 2..]);
    }

    /** Its loop: stops at the closing parenthesis or at the end. */
    method FindClosing(t: string) returns (q: nat)
      ensures q == if Closing(t, 0) < 0 then |t| else Closing(t, 0)
    {
      hide Closing;
      var nest: nat := 0;
      q := 0;
      assert t[0..] == t;
      while q < |t|
        invariant q <= |t|
        invariant Closing(t, 0) == if Closing(t[q..], nest) < 0 then -1 else q + Closing(t[q..], nest)
      {
        ClosingStep(t, q, nest);
        var c := t[q];
        if c == '(' {
          nest := nest + 1;
        } else if c == ')' {
          if nest == 0 {
            break;
          }
          nest := nest - 1;
        }
        q := q + 1;
      }
      if q == |t| {
        ClosingNothing(t, nest);
      }
    }

    /** eval_clause: an argument of the enclosing call, or a call with its parts expanded. */
    method EvaluateClause(clause: string, args: seq<string>) returns (r: Outcome)
      requires Fits(cx, counts)
      modifies this
      ensures r == EvalClause(cx, old(counts), clause, args)
      ensures r.Ok? ==> counts == old(counts)
      decreases Budget(counts), |clause|, 2
    {
      hide ExpandAll, Expand, Split, Call, ArgumentNumber, Justified;
      var n := ArgumentNumber(clause);
      if 0 < n <= |args| {
        return Ok(args[n - 1], []);
      }
      var parts := SplitParts(clause);
      if |parts| > MAX_ARGS + 1 {
        return Fail(TooManyArguments);
      }
      if |parts| > MAX_ARGS {
        return Fail(TableOverrun(clause));
      }
      var texts: seq<string> := [];
      for k := 0 to |parts|
        invariant counts == old(counts) && |texts| == k
        invariant ExpandAll(cx, counts, parts, args, |clause|)
               == Joined(texts, ExpandAll(cx, counts, parts[k..], args, |clause|))
      {
        assert parts[k] in parts;
        assert parts[k..][0] == parts[k];
        ExpandAllFirst(cx, counts, parts[k..], args, |clause|);
        var t := ExpandString(WholeString, parts[k], args);
        if t.Fail? {
          return t;
        }
        assert parts[k..][1..] == parts[k + 1..];
        JoinedTwice(texts, t.text, ExpandAll(cx, counts, parts[k + 1..], args, |clause|));
        texts := texts + [t.text];
      }
      assert parts[|parts|..] == [] && texts + [] == texts;
      ExpandNothing(cx, counts, args, |clause|);
      r := CallByName(texts[0], texts[1..]);
    }

    /** Cuts a clause at its commas. */
    method SplitParts(clause: string) returns (parts: seq<string>)
      ensures parts == Split(clause, 0, [])
    {
      hide Split;
      parts := [];
      var nest: int, prev := 0, "";
      assert clause[0..] == clause;
      for p := 0 to |clause|
        invariant Split(clause, 0, []) == parts + Split(clause[p..], nest, prev)
      {
        SplitStep(clause, p, nest, prev);
        if nest == 0 && clause[p] == ',' {
          parts, prev := parts + [prev], "";
        } else {
          if clause[p] == '(' {
            nest := nest + 1;
          } else if clause[p] == ')' {
            nest := nest - 1;
          }
          prev := prev + [clause[p]];
        }
      }
      SplitEnd(clause, nest, prev);
      parts := parts + [prev];
    }

    /** variable_expand, then function_expand, then env_expand. */
    method CallByName(name: string, args: seq<string>) returns (r: Outcome)
      requires Fits(cx, counts)
      modifies this
      ensures r == Call(cx, old(counts), name, args)
      ensures r.Ok? ==> counts == old(counts)
      decreases Budget(counts), 0, 0
    {
      var i := Find(cx.vars, name);
      if i >= 0 {
        if args == [] && counts[i] > 0 {
          return Fail(SelfReference);
        }
        if counts[i] > MAX_DEPTH {
          return Fail(TooDeep);
        }
        EnterSpends(counts, i);
        counts := counts[i := counts[i] + 1];
        if cx.vars[i].flavor == Recursive {
          r := ExpandString(WholeString, cx.vars[i].value, args);
          if r.Fail? {
            return;
          }
        } else {
          r := Ok(cx.vars[i].value, []);
        }
        counts := counts[i := counts[i] - 1];
        return;
      }
      var f := CallBuiltin(cx, name, args);
      if f.Result? {
        return f.r;
      }
      if args == [] && name != [] && cx.env(name).Found? {
        return Ok(cx.env(name).text, []);
      }
      r := Ok([], []);
    }
  }

  function Preceded(first: Outcome, others: Expanded): Expanded {
    if first.Fail? then Wrong(first.why)
    else if others.Wrong? then others
    else Texts([first.text] + others.texts)
  }

  lemma ExpandAllFirst(cx: Context, counts: Counts, parts: seq<string>, args: seq<string>, longest: nat)
    requires Fits(cx, counts) && parts != [] && forall p | p in parts :: |p| <= longest
    ensures ExpandAll(cx, counts, parts, args, longest)
         == Preceded(Expand(cx, counts, WholeString, parts[0], args), ExpandAll(cx, counts, parts[1..], args, longest))
  {
    hide Expand;
  }

  lemma ExpandNothing(cx: Context, counts: Counts, args: seq<string>, longest: nat)
    requires Fits(cx, counts)
    ensures ExpandAll(cx, counts, [], args, longest) == Texts([])
  {
  }

  function Joined(texts: seq<string>, e: Expanded): Expanded {
    if e.Wrong? then e else Texts(texts + e.texts)
  }

  lemma JoinedTwice(texts: seq<string>, t: string, e: Expanded)
    ensures Joined(texts, if e.Wrong? then e else Texts([t] + e.texts)) == Joined(texts + [t], e)
  {
    if e.Texts? {
      assert texts + ([t] + e.texts) == texts + [t] + e.texts;
    }
  }
}
