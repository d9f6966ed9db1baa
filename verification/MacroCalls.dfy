/** Calls of macros with arguments: which argument a number refers to, and what a call puts in its place. */
module MacroCalls {
  import opened Preprocess

  // ---------- Decimal numerals ----------

  function Numeral(k: nat): (s: string)
    ensures s != [] && forall i | 0 <= i < |s| :: IsDigit(s[i])
  {
    var last := ["0123456789"[k % 10]];
    if k < 10 then last else Numeral(k / 10) + last
  }

  lemma {:induction false} DigitsAppend(s: string, c: char, n: nat)
    requires IsDigit(c) && forall i | 0 <= i < |s| :: IsDigit(s[i])
    ensures Digits(s + [c], n) == 10 * Digits(s, n) + (c as int - '0' as int)
  {
    if s == [] {
      assert s + [c] == [c] && [c][1..] == [];
    } else {
      assert (s + [c])[1..] == s[1..] + [c];
      DigitsAppend(s[1..], c, 10 * n + (s[0] as int - '0' as int));
    }
  }

  lemma {:induction false} NumeralDigits(k: nat)
    ensures Digits(Numeral(k), 0) == k
  {
    var c := "0123456789"[k % 10];
    assert c as int - '0' as int == k % 10;
    if k < 10 {
      assert [] + [c] == [c];
      DigitsAppend([], c, 0);
    } else {
      NumeralDigits(k / 10);
      DigitsAppend(Numeral(k / 10), c, 0);
    }
  }

  /** A decimal numeral is read as its number. */
  lemma NumeralRead(k: nat)
    requires k <= ULONG_MAX
    ensures ArgumentNumber(Numeral(k)) == k
  {
    NumeralDigits(k);
  }

  /** White space and a plus sign before a numeral do not matter, a minus sign is arithmetic modulo 2^64, and a text
      that goes on behind the digits is no number. */
  lemma NumeralForms(k: nat, c: char, rest: string)
    requires 1 <= k <= ULONG_MAX && !IsDigit(c)
    ensures ArgumentNumber(" " + Numeral(k)) == ArgumentNumber("\t" + Numeral(k)) == ArgumentNumber("+" + Numeral(k)) == k
    ensures ArgumentNumber("-" + Numeral(k)) == 0x1_0000_0000_0000_0000 - k
    ensures ArgumentNumber(Numeral(k) + [c] + rest) == 0
  {
    NumeralRead(k);
    NumeralDigits(k);
    var n := Numeral(k);
    assert (" " + n)[1..] == ("\t" + n)[1..] == ("+" + n)[1..] == ("-" + n)[1..] == n;
    DigitsBroken(n, c, rest, 0);
    assert n + [c] + rest == n + ([c] + rest);
    hide Numeral;
  }

  lemma {:induction false} DigitsBroken(s: string, c: char, rest: string, n: nat)
    requires !IsDigit(c)
    ensures Digits(s + ([c] + rest), n) == 0
  {
    var t := s + ([c] + rest);
    if s == [] {
      assert t == [c] + rest;
    } else if IsDigit(s[0]) {
      assert t[1..] == s[1..] + ([c] + rest);
      DigitsBroken(s[1..], c, rest, 10 * n + (s[0] as int - '0' as int));
    }
  }

  /** A reference by number is replaced by the argument of that number, counted from 1. */
  lemma ArgumentReference(cx: Context, counts: Counts, extent: Extent, k: nat, rest: string, args: seq<string>)
    requires Fits(cx, counts) && 1 <= k <= |args| && k <= ULONG_MAX
    ensures Expand(cx, counts, extent, "$(" + Numeral(k) + ")" + rest, args)
         == Prefixed(args[k - 1], Expand(cx, counts, extent, rest, args))
  {
    NumeralRead(k);
    hide Numeral, ArgumentNumber, Closing;
    ClosingWord(Numeral(k), rest);
    ReferenceEvaluates(cx, counts, extent, Numeral(k), rest, args);
  }

  /** A reference by a number that no argument has is one by name. */
  lemma NumberOutOfRange(cx: Context, counts: Counts, extent: Extent, k: nat, rest: string, args: seq<string>)
    requires Fits(cx, counts) && (k == 0 || |args| < k <= ULONG_MAX)
    ensures Expand(cx, counts, extent, "$(" + Numeral(k) + ")" + rest, args)
         == if Call(cx, counts, Numeral(k), []).Fail? then Call(cx, counts, Numeral(k), [])
            else Prefixed(Call(cx, counts, Numeral(k), []).text, Expand(cx, counts, extent, rest, args))
  {
    var name := Numeral(k);
    NumeralRead(k);
    hide Numeral, ArgumentNumber, Closing, Call, Split, Expand;
    WordIsOnePart(name, []);
    assert [] + name == name;
    ExpandWord(cx, counts, name, args);
    ExpandOne(cx, counts, name, args);
    assert [name][1..] == [];
    ClosingWord(name, rest);
    ReferenceEvaluates(cx, counts, extent, name, rest, args);
  }

  /** A reference whose parenthesis closes behind the clause is replaced by what the clause evaluates to. */
  lemma ReferenceEvaluates(cx: Context, counts: Counts, extent: Extent, clause: string, rest: string, args: seq<string>)
    requires Fits(cx, counts) && Closing(clause + ")" + rest, 0) == |clause|
    ensures Expand(cx, counts, extent, "$(" + clause + ")" + rest, args)
         == if EvalClause(cx, counts, clause, args).Fail? then EvalClause(cx, counts, clause, args)
            else Prefixed(EvalClause(cx, counts, clause, args).text, Expand(cx, counts, extent, rest, args))
  {
    hide EvalClause, Closing;
    var s := "$(" + clause + ")" + rest;
    assert s[1..] == "(" + (clause + ")" + rest);
    assert s[1..][1..] == clause + ")" + rest;
    assert (clause + ")" + rest)[..|clause|] == clause;
    assert s[1..][|clause| + 2..] == rest;
  }

  // ---------- Calls with arguments ----------

  /** Every parenthesis is closed, and none before it is opened. */
  predicate Balanced(s: string) {
    Depth(s) == 0 && forall j | 0 <= j <= |s| :: Depth(s[..j]) >= 0
  }

  lemma BalancedAppend(s: string, t: string)
    requires Balanced(s) && Balanced(t)
    ensures Balanced(s + t)
  {
    DepthAppend(s, t);
    forall j | 0 <= j <= |s + t| ensures Depth((s + t)[..j]) >= 0 {
      if j <= |s| {
        assert (s + t)[..j] == s[..j];
      } else {
        assert (s + t)[..j] == s + t[..j - |s|];
        DepthAppend(s, t[..j - |s|]);
      }
    }
  }

  lemma CommaBalanced()
    ensures Balanced(",")
  {
    assert forall j | 0 <= j <= 1 :: ","[..j] == if j == 0 then [] else ",";
    assert ","[..0] == [];
  }

  lemma {:induction false} JoinBalanced(parts: seq<string>)
    requires parts != [] && forall p | p in parts :: Balanced(p)
    ensures Balanced(JoinParts(parts))
    decreases |parts|
  {
    if |parts| > 1 {
      JoinBalanced(parts[1..]);
      CommaBalanced();
      BalancedAppend(parts[0], ",");
      BalancedAppend(parts[0] + ",", JoinParts(parts[1..]));
    }
  }

  lemma DepthBehind(s: string, k: nat)
    requires k < |s| && s[k] == ')'
    ensures Depth(s[..k + 1]) == Depth(s[..k]) - 1
  {
    assert s[..k + 1][..k] == s[..k];
  }

  /** The parenthesis behind a balanced clause closes the one before it. */
  lemma ClosingBalanced(clause: string, rest: string)
    requires Balanced(clause)
    ensures Closing(clause + ")" + rest, 0) == |clause|
  {
    hide Closing, Depth;
    var s, n := clause + ")" + rest, |clause|;
    var k := Closing(s, 0);
    ClosingMeaning(s, 0);
    assert forall j | 0 <= j <= n :: s[..j] == clause[..j];
    assert clause[..n] == clause;
    DepthBehind(s, n);
    assert Depth(s[..n + 1]) < 0;
    if k >= 0 {
      DepthBehind(s, k);
      assert Depth(s[..k + 1]) < 0;
    }
  }

  lemma {:induction false} WordBalanced(s: string)
    requires forall k | 0 <= k < |s| :: IsWordChar(s[k])
    ensures Balanced(s) && NoTopComma(s)
  {
    if s != [] {
      var t := s[..|s| - 1];
      WordBalanced(t);
      forall j | 0 <= j <= |s| ensures Depth(s[..j]) >= 0 {
        if j < |s| {
          assert s[..j] == t[..j];
        } else {
          assert s[..j] == s;
        }
      }
    }
  }

  /** What a call passes: balanced texts without a comma of their own, whose expansions are known. */
  ghost predicate Passes(cx: Context, counts: Counts, args: seq<string>, given: seq<string>, texts: seq<string>)
    requires Fits(cx, counts)
  {
    && |given| == |texts|
    && forall i | 0 <= i < |given| ::
         Balanced(given[i]) && NoTopComma(given[i])
         && Expand(cx, counts, WholeString, given[i], args) == Ok(texts[i], [])
  }

  lemma {:induction false} ExpandGiven(cx: Context, counts: Counts, args: seq<string>, given: seq<string>,
                                      texts: seq<string>, longest: nat)
    requires Fits(cx, counts) && |given| == |texts| && forall p | p in given :: |p| <= longest
    requires forall i | 0 <= i < |given| :: Expand(cx, counts, WholeString, given[i], args) == Ok(texts[i], [])
    ensures ExpandAll(cx, counts, given, args, longest) == Texts(texts)
    decreases |given|
  {
    hide Expand;
    if given == [] {
      ExpandNothing(cx, counts, args, longest);
    } else {
      ExpandGiven(cx, counts, args, given[1..], texts[1..], longest);
      ExpandAllFirst(cx, counts, given, args, longest);
      assert [texts[0]] + texts[1..] == texts;
    }
  }

  lemma {:induction false} PartsShort(parts: seq<string>)
    requires parts != []
    ensures forall p | p in parts :: |p| <= |JoinParts(parts)|
    decreases |parts|
  {
    if |parts| > 1 {
      PartsShort(parts[1..]);
      assert forall p :: p in parts <==> p == parts[0] || p in parts[1..];
    }
  }

  /** A clause that begins with a name is no number. */
  lemma NoArgumentNumber(clause: string)
    requires clause != [] && IsWordChar(clause[0]) && !IsDigit(clause[0]) && clause[0] != '-'
    ensures ArgumentNumber(clause) == 0
  {
  }

  lemma NamePasses(cx: Context, counts: Counts, name: string, given: seq<string>, texts: seq<string>, args: seq<string>)
    requires Fits(cx, counts) && Name(name) && Passes(cx, counts, args, given, texts)
    ensures Passes(cx, counts, args, [name] + given, [name] + texts)
  {
    WordBalanced(name);
    ExpandWord(cx, counts, name, args);
    hide Expand, Balanced, NoTopComma;
  }

  lemma PassedParts(cx: Context, counts: Counts, parts: seq<string>, texts: seq<string>, args: seq<string>)
    requires Fits(cx, counts) && parts != [] && Passes(cx, counts, args, parts, texts)
    ensures Split(JoinParts(parts), 0, []) == parts
    ensures forall p | p in parts :: |p| <= |JoinParts(parts)|
    ensures ExpandAll(cx, counts, parts, args, |JoinParts(parts)|) == Texts(texts)
  {
    hide Expand, JoinParts, Split, NoTopComma, Depth;
    PartsShort(parts);
    SplitExactly(JoinParts(parts), parts);
    ExpandGiven(cx, counts, args, parts, texts, |JoinParts(parts)|);
  }

  /** A clause that names what it calls and passes up to 15 texts calls that name with their expansions. */
  lemma ClauseCalls(cx: Context, counts: Counts, name: string, given: seq<string>, texts: seq<string>, args: seq<string>)
    requires Fits(cx, counts) && Name(name) && |given| < MAX_ARGS && Passes(cx, counts, args, given, texts)
    ensures EvalClause(cx, counts, JoinParts([name] + given), args) == Call(cx, counts, name, texts)
  {
    var parts, all := [name] + given, [name] + texts;
    assert JoinParts(parts)[0] == name[0];
    assert |given| == |texts| && all[1..] == texts;
    hide Expand, Split, Call, JoinParts, ArgumentNumber, ExpandAll, Passes;
    NoArgumentNumber(JoinParts(parts));
    NamePasses(cx, counts, name, given, texts, args);
    PassedParts(cx, counts, parts, all, args);
  }

  lemma CallBalanced(cx: Context, counts: Counts, name: string, given: seq<string>, texts: seq<string>, args: seq<string>)
    requires Fits(cx, counts) && Name(name) && Passes(cx, counts, args, given, texts)
    ensures Balanced(JoinParts([name] + given))
  {
    hide Expand, NoTopComma;
    WordBalanced(name);
    JoinBalanced([name] + given);
  }

  /** A call is replaced by what the name, called with the expansions of its arguments, gives. */
  lemma CallExpands(cx: Context, counts: Counts, extent: Extent, name: string, given: seq<string>, texts: seq<string>,
                    rest: string, args: seq<string>)
    requires Fits(cx, counts) && Name(name) && |given| < MAX_ARGS && Passes(cx, counts, args, given, texts)
    ensures Expand(cx, counts, extent, "$(" + JoinParts([name] + given) + ")" + rest, args)
         == if Call(cx, counts, name, texts).Fail? then Call(cx, counts, name, texts)
            else Prefixed(Call(cx, counts, name, texts).text, Expand(cx, counts, extent, rest, args))
  {
    hide Expand, Call, Closing, JoinParts, EvalClause;
    ClauseCalls(cx, counts, name, given, texts, args);
    CallBalanced(cx, counts, name, given, texts, args);
    ClosingBalanced(JoinParts([name] + given), rest);
    ReferenceEvaluates(cx, counts, extent, JoinParts([name] + given), rest, args);
  }

  // ---------- Substitution ----------

  /** A text with places for arguments. */
  datatype Piece = Plain(w: string) | Place(k: nat) {
    predicate Fillable(n: nat) {
      if Plain? then '$' !in w else 1 <= k <= n && k <= ULONG_MAX
    }

    function Text(): string {
      if Plain? then w else "$(" + Numeral(k) + ")"
    }

    function Filled(texts: seq<string>): string
      requires Fillable(|texts|)
    {
      if Plain? then w else texts[k - 1]
    }
  }

  /** The text as it stands in the value of a variable. */
  function TextOf(template: seq<Piece>): string {
    if template == [] then [] else template[0].Text() + TextOf(template[1..])
  }

  /** The text with the arguments in their places. */
  function Filled(template: seq<Piece>, texts: seq<string>): string
    requires forall p | p in template :: p.Fillable(|texts|)
  {
    if template == [] then [] else template[0].Filled(texts) + Filled(template[1..], texts)
  }

  lemma {:induction false} PlainExpands(cx: Context, counts: Counts, w: string, rest: string, args: seq<string>)
    requires Fits(cx, counts) && '$' !in w
    ensures Expand(cx, counts, WholeString, w + rest, args) == Prefixed(w, Expand(cx, counts, WholeString, rest, args))
  {
    if w == [] {
      assert w + rest == rest;
    } else {
      PlainExpands(cx, counts, w[1..], rest, args);
      assert (w + rest)[1..] == w[1..] + rest;
      PrefixedTwice([w[0]], w[1..], Expand(cx, counts, WholeString, rest, args));
      assert [w[0]] + w[1..] == w;
    }
  }

  /** Expanding the text of a template puts the arguments into their places. */
  lemma {:induction false} TemplateFilled(cx: Context, counts: Counts, template: seq<Piece>, texts: seq<string>)
    requires Fits(cx, counts) && forall p | p in template :: p.Fillable(|texts|)
    ensures Expand(cx, counts, WholeString, TextOf(template), texts) == Ok(Filled(template, texts), [])
    decreases |template|
  {
    if template != [] {
      var rest := TextOf(template[1..]);
      assert template[0] in template;
      TemplateFilled(cx, counts, template[1..], texts);
      hide Expand;
      match template[0]
      case Plain(w) =>
        PlainExpands(cx, counts, w, rest, texts);
      case Place(k) =>
        ArgumentReference(cx, counts, WholeString, k, rest, texts);
    }
  }

  lemma VariableCalled(cx: Context, counts: Counts, i: nat, name: string, texts: seq<string>)
    requires Fits(cx, counts) && texts != []
    requires Find(cx.vars, name) == i && cx.vars[i].flavor == Recursive && counts[i] <= MAX_DEPTH
    ensures Fits(cx, counts[i := counts[i] + 1])
    ensures Call(cx, counts, name, texts)
         == Expand(cx, counts[i := counts[i] + 1], WholeString, cx.vars[i].value, texts)
  {
    hide Expand;
  }

  /** The value of a variable that is expanded when it is used, with the arguments in their places. */
  lemma VariableFilled(cx: Context, counts: Counts, name: string, template: seq<Piece>, texts: seq<string>)
    requires Fits(cx, counts) && texts != [] && forall p | p in template :: p.Fillable(|texts|)
    requires var i := Find(cx.vars, name);
             i >= 0 && cx.vars[i] == Variable(name, TextOf(template), Recursive) && counts[i] <= MAX_DEPTH
    ensures Call(cx, counts, name, texts) == Ok(Filled(template, texts), [])
  {
    hide Expand, Call, TextOf, Filled;
    var i := Find(cx.vars, name);
    VariableCalled(cx, counts, i, name, texts);
    TemplateFilled(cx, counts[i := counts[i] + 1], template, texts);
  }

  /** A call of a variable that is expanded when it is used is replaced by its text, with the expansion of each
      argument wherever the text has its number. */
  lemma CallSubstitutes(cx: Context, counts: Counts, extent: Extent, name: string, given: seq<string>,
                        texts: seq<string>, template: seq<Piece>, rest: string, args: seq<string>)
    requires Fits(cx, counts) && Name(name) && 1 <= |given| < MAX_ARGS && Passes(cx, counts, args, given, texts)
    requires forall p | p in template :: p.Fillable(|given|)
    requires var i := Find(cx.vars, name);
             i >= 0 && cx.vars[i] == Variable(name, TextOf(template), Recursive) && counts[i] <= MAX_DEPTH
    ensures Expand(cx, counts, extent, "$(" + JoinParts([name] + given) + ")" + rest, args)
         == Prefixed(Filled(template, texts), Expand(cx, counts, extent, rest, args))
  {
    assert |texts| == |given|;
    VariableFilled(cx, counts, name, template, texts);
    hide *;
    CallExpands(cx, counts, extent, name, given, texts, rest, args);
    assert Call(cx, counts, name, texts).text == Filled(template, texts);
  }

  /** A variable whose value is nothing but a call of itself is given up when it is too deep. */
  lemma {:induction false} EndlessCallRefused(cx: Context, counts: Counts, i: nat, name: string, w: string, args: seq<string>)
    requires Fits(cx, counts) && Name(name) && '$' !in w && Balanced(w) && NoTopComma(w) && args != []
    requires Find(cx.vars, name) == i
    requires cx.vars[i] == Variable(name, "$(" + JoinParts([name, w]) + ")", Recursive)
    ensures Call(cx, counts, name, args) == Fail(TooDeep)
    decreases MAX_DEPTH + 1 - counts[i]
  {
    if counts[i] <= MAX_DEPTH {
      hide Expand, JoinParts, Balanced, NoTopComma, Name;
      var deeper := counts[i := counts[i] + 1];
      VariableCalled(cx, counts, i, name, args);
      EndlessCallRefused(cx, deeper, i, name, w, [w]);
      ExpandWord(cx, deeper, w, args);
      CallExpands(cx, deeper, WholeString, name, [w], [w], "", args);
      assert [name] + [w] == [name, w];
      var value := "$(" + JoinParts([name, w]) + ")";
      assert value + "" == value;
    }
  }

  // ---------- What a name stands for ----------

  /** The variable found is the first of that name. */
  lemma {:induction false} FindFirst(vars: seq<Variable>, name: string)
    ensures var i := Find(vars, name);
            && (i < 0 ==> forall v | v in vars :: v.name != name)
            && (i >= 0 ==> vars[i].name == name && forall j | 0 <= j < i :: vars[j].name != name)
  {
    if vars != [] {
      FindFirst(vars[1..], name);
    }
  }

  /** A name that is no variable: the output of a command, the current file and line, a message, the environment or
      nothing, depending on the name and the number of arguments. */
  lemma OtherNames(cx: Context, counts: Counts, name: string, texts: seq<string>)
    requires Fits(cx, counts) && forall v | v in cx.vars :: v.name != name
    ensures var r := Call(cx, counts, name, texts);
            && (name == "shell" && |texts| == 1 ==> r == Ok(cx.shell(texts[0]), []))
            && (name == "filename" && |texts| == 0 ==> r == Ok(cx.file, []))
            && (name == "lineno" && |texts| == 0 ==> r == Ok(cx.line, []))
            && (name == "error-if" && |texts| == 2 ==> r == if texts[0] == "y" then Fail(UserError) else Ok("", []))
            && (name == "warning-if" && |texts| == 2 ==> r == Ok("", []))
            && (name == "info" && |texts| == 1 ==> r == Ok("", []))
            && (name !in {"shell", "filename", "lineno", "error-if", "warning-if", "info"} ==>
                  r == if texts == [] && name != "" && cx.env(name).Found? then Ok(cx.env(name).text, []) else Ok("", []))
            && (r == Fail(WrongArgumentCount) <==>
                  || (name in {"shell", "info"} && |texts| != 1)
                  || (name in {"filename", "lineno"} && |texts| != 0)
                  || (name in {"error-if", "warning-if"} && |texts| != 2))
  {
    FindFirst(cx.vars, name);
  }

  /** A token ends before the first character that is not of a word. */
  lemma {:induction false} TokenExpands(cx: Context, counts: Counts, w: string, rest: string, args: seq<string>)
    requires Fits(cx, counts) && forall k | 0 <= k < |w| :: IsWordChar(w[k])
    requires rest == [] || (rest[0] != '$' && !IsWordChar(rest[0]))
    ensures Expand(cx, counts, OneToken, w + rest, args) == Ok(w, rest)
  {
    if w == [] {
      assert w + rest == rest;
    } else {
      TokenExpands(cx, counts, w[1..], rest, args);
      assert (w + rest)[1..] == w[1..] + rest;
      assert [w[0]] + w[1..] == w;
    }
  }
}
