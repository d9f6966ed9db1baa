/** The expression grammar by itself: the parser accepts exactly the texts it derives, with the meaning it gives them. */
module Grammar {
  import opened Tristates
  import opened Exprs
  import opened ExprText

  /** An expression as it is written, with its parentheses. */
  datatype Source =
    | Name(s: Symbol)
    | Comparison(rel: Relation, a: Symbol, b: Symbol)
    | Negated(x: Source)
    | Joined(op: Junction, l: Source, r: Source)
    | Parens(x: Source)

  function Text(src: Source): seq<Token> {
    match src
    case Name(s) => [Word(s)]
    case Comparison(rel, a, b) => [Word(a), Compares(rel), Word(b)]
    case Negated(x) => [Bang] + Text(x)
    case Joined(op, l, r) => Text(l) + [Infix(op)] + Text(r)
    case Parens(x) => [OpenParen] + Text(x) + [CloseParen]
  }

  function Meaning(src: Source): Expr {
    match src
    case Name(s) => Sym(s)
    case Comparison(rel, a, b) => Rel(rel, a, b)
    case Negated(x) => Not(Meaning(x))
    case Joined(op, l, r) => Join(op, Meaning(l), Meaning(r))
    case Parens(x) => Meaning(x)
  }

  predicate IsJoined(src: Source, op: Junction) {
    src.Joined? && src.op == op
  }

  /** The precedences: negation applies to what is no join, conjunctions and disjunctions associate to the left, and
      a disjunction is no operand of a conjunction, unless parentheses say so. */
  predicate Derives(src: Source) {
    match src
    case Name(_) => true
    case Comparison(_, _, _) => true
    case Negated(x) => Derives(x) && !x.Joined?
    case Joined(And, l, r) => Derives(l) && Derives(r) && !IsJoined(l, Or) && !r.Joined?
    case Joined(Or, l, r) => Derives(l) && Derives(r) && !IsJoined(r, Or)
    case Parens(x) => Derives(x)
  }

  // ---------- What is derived is accepted ----------

  lemma {:induction false} TextJoined(src: Source, rest: seq<Token>)
    requires src.Joined?
    ensures Text(src) + rest == Text(src.l) + ([Infix(src.op)] + (Text(src.r) + rest))
  {
  }

  /** What is no join is taken whole, whatever the parser is in the middle of. */
  lemma {:induction false} TakeClosed(stack: seq<Item>, src: Source, rest: seq<Token>)
    requires Derives(src) && !src.Joined? && MayFollow(rest)
    ensures BeforeOperand(stack, Text(src) + rest) == AfterOperand(stack, Meaning(src), rest)
    decreases src, 0
  {
    var input := Text(src) + rest;
    match src
    case Name(s) =>
      assert input[1..] == rest;
    case Comparison(rel, a, b) =>
      assert input[3..] == rest;
    case Negated(x) =>
      assert input[1..] == Text(x) + rest;
      TakeClosed(stack + [Operator(Bang)], x, rest);
      assert (stack + [Operator(Bang)])[..|stack|] == stack;
    case Parens(x) =>
      var inner := stack + [Operator(OpenParen)];
      assert input[1..] == Text(x) + ([CloseParen] + rest);
      TakeAny(inner, x, [CloseParen] + rest);
      assert inner[..|stack|] == stack && ([CloseParen] + rest)[1..] == rest;
  }

  lemma {:induction false} TakeAnd(stack: seq<Item>, src: Source, rest: seq<Token>)
    requires Derives(src) && !IsJoined(src, Or) && Loose(stack) && MayFollow(rest)
    ensures BeforeOperand(stack, Text(src) + rest) == AfterOperand(stack, Meaning(src), rest)
    decreases src, 1
  {
    if src.Joined? {
      var tail := Text(src.r) + rest;
      TextJoined(src, rest);
      TakeAnd(stack, src.l, [Infix(And)] + tail);
      Shift(stack, Meaning(src.l), And, tail);
      TakeClosed(stack + [Operand(Meaning(src.l)), Operator(Infix(And))], src.r, rest);
      ReduceJoin(stack, Meaning(src.l), And, Meaning(src.r), rest);
    } else {
      TakeClosed(stack, src, rest);
    }
  }

  lemma {:induction false} TakeAny(stack: seq<Item>, src: Source, rest: seq<Token>)
    requires Derives(src) && Open(stack) && Finishes(rest)
    ensures BeforeOperand(stack, Text(src) + rest) == AfterOperand(stack, Meaning(src), rest)
    decreases src, 2
  {
    if IsJoined(src, Or) {
      var tail := Text(src.r) + rest;
      TextJoined(src, rest);
      TakeAny(stack, src.l, [Infix(Or)] + tail);
      Shift(stack, Meaning(src.l), Or, tail);
      TakeAnd(stack + [Operand(Meaning(src.l)), Operator(Infix(Or))], src.r, rest);
      ReduceJoin(stack, Meaning(src.l), Or, Meaning(src.r), rest);
    } else {
      TakeAnd(stack, src, rest);
    }
  }

  /** Every text that the grammar derives is accepted with its meaning. */
  lemma {:induction false} DerivedAccepted(src: Source)
    requires Derives(src)
    ensures Parse(Text(src)) == Accepted(Meaning(src))
  {
    TakeAny([], src, []);
    assert Text(src) + [] == Text(src);
  }

  // ---------- What is accepted is derived ----------

  /** The parser's stack with the text that each operand was read from. */
  datatype Mark = Held(src: Source) | Seen(t: Token)

  function Plain(marks: seq<Mark>): seq<Item> {
    seq(|marks|, i requires 0 <= i < |marks| =>
      match marks[i] case Held(src) => Operand(Meaning(src)) case Seen(t) => Operator(t))
  }

  function Spelled(marks: seq<Mark>): seq<Token> {
    if marks == [] then []
    else
      Spelled(marks[..|marks| - 1])
      + match marks[|marks| - 1] case Held(src) => Text(src) case Seen(t) => [t]
  }

  /** An operand waits only before its connective, fits it on the left, and stands where the connective binds tighter
      than whatever waits before it; other operators are negations and open parentheses. */
  predicate WellPlaced(marks: seq<Mark>, i: nat)
    requires i < |marks|
  {
    match marks[i]
    case Held(src) =>
      && Derives(src)
      && i + 1 < |marks| && marks[i + 1].Seen? && marks[i + 1].t.Infix?
      && (marks[i + 1].t.op == And ==> !IsJoined(src, Or))
      && (|| i == 0 || marks[i - 1] == Seen(OpenParen)
          || (marks[i - 1] == Seen(Infix(Or)) && marks[i + 1].t.op == And))
    case Seen(t) => if t.Infix? then i > 0 && marks[i - 1].Held? else t == Bang || t == OpenParen
  }

  predicate Waiting(marks: seq<Mark>) {
    forall i | 0 <= i < |marks| :: WellPlaced(marks, i)
  }

  predicate LastIs(marks: seq<Mark>, t: Token) {
    marks != [] && marks[|marks| - 1] == Seen(t)
  }

  /** What has been read as an operand fits what waits for it, and a bare disjunction is not followed by "and". */
  predicate FitsBehind(marks: seq<Mark>, src: Source, input: seq<Token>) {
    && Derives(src)
    && (LastIs(marks, Bang) || LastIs(marks, Infix(And)) ==> !src.Joined?)
    && (LastIs(marks, Infix(Or)) ==> !IsJoined(src, Or))
    && (IsJoined(src, Or) && MayFollow(input) ==> Finishes(input))
  }

  lemma {:induction false} SpelledMore(marks: seq<Mark>, m: Mark)
    ensures Spelled(marks + [m]) == Spelled(marks) + match m case Held(src) => Text(src) case Seen(t) => [t]
    ensures Plain(marks + [m]) == Plain(marks) + [match m case Held(src) => Operand(Meaning(src)) case Seen(t) => Operator(t)]
  {
    assert (marks + [m])[..|marks|] == marks;
  }

  lemma {:induction false} WaitingFewer(marks: seq<Mark>, n: nat)
    requires Waiting(marks) && n <= |marks| && (n == 0 || marks[n - 1].Seen?)
    ensures Waiting(marks[..n]) && Plain(marks[..n]) == Plain(marks)[..n]
  {
    forall i | 0 <= i < n ensures WellPlaced(marks[..n], i) {
      assert WellPlaced(marks, i);
    }
  }

  lemma {:induction false} WaitingMore(marks: seq<Mark>, t: Token)
    requires Waiting(marks) && (t == Bang || t == OpenParen)
    ensures Waiting(marks + [Seen(t)])
  {
    var more := marks + [Seen(t)];
    forall i | 0 <= i < |more| ensures WellPlaced(more, i) {
      if i < |marks| {
        assert WellPlaced(marks, i);
      }
    }
  }

  /** An operand and a connective are put on the stack only where nothing that binds as tight waits. */
  lemma {:induction false} WaitingJoin(marks: seq<Mark>, src: Source, op: Junction, input: seq<Token>)
    requires Waiting(marks) && input != [] && input[0] == Infix(op) && FitsBehind(marks, src, input)
    requires !LastIs(marks, Bang) && !LastIs(marks, Infix(And)) && (LastIs(marks, Infix(Or)) ==> op == And)
    ensures Waiting(marks + [Held(src), Seen(Infix(op))])
  {
    var more := marks + [Held(src), Seen(Infix(op))];
    var n := |marks|;
    if n > 0 {
      assert WellPlaced(marks, n - 1);
    }
    forall i | 0 <= i < |more| ensures WellPlaced(more, i) {
      if i < n {
        assert WellPlaced(marks, i);
      }
    }
  }

  lemma {:induction false} SpelledLast(marks: seq<Mark>)
    requires marks != []
    ensures var n := |marks| - 1;
            Spelled(marks) == Spelled(marks[..n]) + match marks[n] case Held(src) => Text(src) case Seen(t) => [t]
  {
  }

  lemma {:induction false} Regroup(p: seq<Token>, q: seq<Token>, r: seq<Token>)
    ensures p + q + r == p + (q + r)
  {
  }

  lemma {:induction false} RegroupMore(p: seq<Token>, q: seq<Token>, r: seq<Token>, t: seq<Token>)
    ensures p + q + r + t == p + (q + r + t)
  {
  }

  lemma {:induction false} SpelledNegation(marks: seq<Mark>, s: Source)
    requires LastIs(marks, Bang)
    ensures Spelled(marks) + Text(s) == Spelled(marks[..|marks| - 1]) + Text(Negated(s))
  {
    SpelledLast(marks);
    Regroup(Spelled(marks[..|marks| - 1]), [Bang], Text(s));
  }

  /** A negation is complete. */
  lemma {:induction false} ReduceBang(marks: seq<Mark>, s: Source, input: seq<Token>)
    requires Waiting(marks) && FitsBehind(marks, s, input) && LastIs(marks, Bang) && MayFollow(input)
    ensures var fewer := marks[..|marks| - 1];
            && Waiting(fewer) && FitsBehind(fewer, Negated(s), input)
            && AfterOperand(Plain(marks), Meaning(s), input) == AfterOperand(Plain(fewer), Meaning(Negated(s)), input)
  {
    var n := |marks| - 1;
    assert WellPlaced(marks, n);
    if n > 0 {
      assert WellPlaced(marks, n - 1);
    }
    WaitingFewer(marks, n);
  }

  lemma {:induction false} SpelledJoin(marks: seq<Mark>, l: Source, op: Junction, s: Source)
    requires |marks| >= 2 && marks[|marks| - 2] == Held(l) && marks[|marks| - 1] == Seen(Infix(op))
    ensures Spelled(marks) + Text(s) == Spelled(marks[..|marks| - 2]) + Text(Joined(op, l, s))
  {
    var n := |marks|;
    SpelledLast(marks);
    SpelledLast(marks[..n - 1]);
    assert marks[..n - 1][..n - 2] == marks[..n - 2];
    RegroupMore(Spelled(marks[..n - 2]), Text(l), [Infix(op)], Text(s));
  }

  /** A connective on the stack has its left operand before it. */
  lemma {:induction false} JoinWaits(marks: seq<Mark>)
    requires Waiting(marks) && marks != [] && marks[|marks| - 1].Seen? && marks[|marks| - 1].t.Infix?
    ensures |marks| > 1 && marks[|marks| - 2].Held? && Derives(marks[|marks| - 2].src)
    ensures var l, op, fewer := marks[|marks| - 2].src, marks[|marks| - 1].t.op, marks[..|marks| - 2];
            && Waiting(fewer) && Plain(marks) == Plain(fewer) + [Operand(Meaning(l)), Operator(Infix(op))]
            && (op == And ==> !IsJoined(l, Or))
            && (fewer == [] || LastIs(fewer, OpenParen) || (LastIs(fewer, Infix(Or)) && op == And))
  {
    var n := |marks|;
    assert WellPlaced(marks, n - 1);
    assert WellPlaced(marks, n - 2);
    WaitingFewer(marks, n - 2);
  }

  lemma {:induction false} MeaningJoined(op: Junction, l: Source, r: Source)
    ensures Meaning(Joined(op, l, r)) == Join(op, Meaning(l), Meaning(r))
  {
  }

  /** A join is complete. */
  lemma {:induction false} ReduceWaiting(marks: seq<Mark>, s: Source, input: seq<Token>)
    requires Waiting(marks) && FitsBehind(marks, s, input) && |marks| > 0
    requires marks[|marks| - 1].Seen? && marks[|marks| - 1].t.Infix? && MayFollow(input)
    requires Reduces(marks[|marks| - 1].t.op, input)
    ensures |marks| > 1 && marks[|marks| - 2].Held?
    ensures var fewer, whole := marks[..|marks| - 2], Joined(marks[|marks| - 1].t.op, marks[|marks| - 2].src, s);
            && Waiting(fewer) && FitsBehind(fewer, whole, input)
            && AfterOperand(Plain(marks), Meaning(s), input) == AfterOperand(Plain(fewer), Meaning(whole), input)
  {
    hide Waiting, Plain, AfterOperand, Meaning;
    JoinWaits(marks);
    var n := |marks|;
    assert Meaning(Joined(marks[n - 1].t.op, marks[n - 2].src, s))
        == Join(marks[n - 1].t.op, Meaning(marks[n - 2].src), Meaning(s)) by {
      MeaningJoined(marks[n - 1].t.op, marks[n - 2].src, s);
    }
    ReduceJoin(Plain(marks[..n - 2]), Meaning(marks[n - 2].src), marks[n - 1].t.op, Meaning(s), input);
  }

  lemma {:induction false} RegroupParens(before: seq<Token>, text: seq<Token>, rest: seq<Token>)
    ensures before + [OpenParen] + text + ([CloseParen] + rest) == before + ([OpenParen] + text + [CloseParen]) + rest
  {
  }

  lemma {:induction false} SpelledParens(marks: seq<Mark>, s: Source, input: seq<Token>)
    requires LastIs(marks, OpenParen) && input != [] && input[0] == CloseParen
    ensures Spelled(marks) + Text(s) + input == Spelled(marks[..|marks| - 1]) + Text(Parens(s)) + input[1..]
  {
    var before := Spelled(marks[..|marks| - 1]);
    SpelledLast(marks);
    assert input == [CloseParen] + input[1..];
    RegroupParens(before, Text(s), input[1..]);
  }

  /** A parenthesis is closed. */
  lemma {:induction false} ReduceParens(marks: seq<Mark>, s: Source, input: seq<Token>)
    requires Waiting(marks) && FitsBehind(marks, s, input) && LastIs(marks, OpenParen)
    requires input != [] && input[0] == CloseParen
    ensures var fewer := marks[..|marks| - 1];
            && Waiting(fewer) && FitsBehind(fewer, Parens(s), input[1..])
            && AfterOperand(Plain(marks), Meaning(s), input) == AfterOperand(Plain(fewer), Meaning(Parens(s)), input[1..])
  {
    var n := |marks| - 1;
    assert WellPlaced(marks, n);
    if n > 0 {
      assert WellPlaced(marks, n - 1);
    }
    WaitingFewer(marks, n);
  }

  /** What the stack and an operand on top of it come to was written so. */
  lemma {:induction false} AfterDerived(marks: seq<Mark>, s: Source, input: seq<Token>) returns (src: Source)
    requires Waiting(marks) && FitsBehind(marks, s, input)
    requires AfterOperand(Plain(marks), Meaning(s), input).Accepted?
    ensures Derives(src) && Text(src) == Spelled(marks) + Text(s) + input
    ensures AfterOperand(Plain(marks), Meaning(s), input) == Accepted(Meaning(src))
    decreases 2 * |input| + |marks| + 1
  {
    var n := |marks|;
    if n > 0 {
      assert WellPlaced(marks, n - 1);
    }
    if LastIs(marks, Bang) {
      ReduceBang(marks, s, input);
      SpelledNegation(marks, s);
      src := AfterDerived(marks[..n - 1], Negated(s), input);
    } else if n > 0 && marks[n - 1].t.Infix? && Reduces(marks[n - 1].t.op, input) {
      ReduceWaiting(marks, s, input);
      SpelledJoin(marks, marks[n - 2].src, marks[n - 1].t.op, s);
      src := AfterDerived(marks[..n - 2], Joined(marks[n - 1].t.op, marks[n - 2].src, s), input);
    } else if input == [] {
      src := s;
      assert Spelled(marks) + Text(s) + input == Text(s);
    } else if input[0].Infix? {
      var op := input[0].op;
      var more := marks + [Held(s), Seen(Infix(op))];
      WaitingJoin(marks, s, op, input);
      ShiftedPlain(marks, s, op, input[1..]);
      assert input == [Infix(op)] + input[1..];
      src := BeforeDerived(more, input[1..]);
    } else {
      ReduceParens(marks, s, input);
      SpelledParens(marks, s, input);
      src := AfterDerived(marks[..n - 1], Parens(s), input[1..]);
    }
  }

  lemma {:induction false} ShiftedPlain(marks: seq<Mark>, s: Source, op: Junction, rest: seq<Token>)
    ensures var more := marks + [Held(s), Seen(Infix(op))];
            && Plain(more) == Plain(marks) + [Operand(Meaning(s)), Operator(Infix(op))]
            && Spelled(more) + rest == Spelled(marks) + Text(s) + ([Infix(op)] + rest)
  {
    SpelledMore(marks, Held(s));
    SpelledMore(marks + [Held(s)], Seen(Infix(op)));
    assert marks + [Held(s)] + [Seen(Infix(op))] == marks + [Held(s), Seen(Infix(op))];
  }

  lemma {:induction false} BeforeDerived(marks: seq<Mark>, input: seq<Token>) returns (src: Source)
    requires Waiting(marks) && BeforeOperand(Plain(marks), input).Accepted?
    ensures Derives(src) && Text(src) == Spelled(marks) + input
    ensures BeforeOperand(Plain(marks), input) == Accepted(Meaning(src))
    decreases 2 * |input| + |marks|
  {
    var t := input[0];
    assert input == [t] + input[1..];
    if t == Bang || t == OpenParen {
      WaitingMore(marks, t);
      SpelledMore(marks, Seen(t));
      src := BeforeDerived(marks + [Seen(t)], input[1..]);
      Regroup(Spelled(marks), [t], input[1..]);
    } else if |input| >= 3 && input[1].Compares? && input[2].Word? {
      var x := Comparison(input[1].rel, t.s, input[2].s);
      ReadComparison(input);
      src := AfterDerived(marks, x, input[3..]);
      Regroup(Spelled(marks), Text(x), input[3..]);
    } else {
      src := AfterDerived(marks, Name(t.s), input[1..]);
      Regroup(Spelled(marks), [t], input[1..]);
    }
  }

  lemma {:induction false} ReadComparison(input: seq<Token>)
    requires |input| >= 3 && input[0].Word? && input[1].Compares? && input[2].Word?
    ensures input == Text(Comparison(input[1].rel, input[0].s, input[2].s)) + input[3..]
  {
  }

  /** The parser accepts a text if and only if the grammar derives it, and gives it the meaning of its derivation. */
  lemma {:induction false} ParsesExactly(input: seq<Token>, e: Expr)
    ensures Parse(input) == Accepted(e) <==> exists src :: Derives(src) && Text(src) == input && Meaning(src) == e
  {
    if Parse(input) == Accepted(e) {
      assert Plain([]) == [] && Spelled([]) + input == input;
      var src := BeforeDerived([], input);
      assert Derives(src) && Text(src) == input && Meaning(src) == e;
    }
    if src :| Derives(src) && Text(src) == input && Meaning(src) == e {
      DerivedAccepted(src);
    }
  }

  /** Parentheses around an expression change nothing. */
  lemma {:induction false} ParenthesesIgnored(src: Source)
    requires Derives(src)
    ensures Parse([OpenParen] + Text(src) + [CloseParen]) == Parse(Text(src))
  {
    DerivedAccepted(src);
    DerivedAccepted(Parens(src));
  }

  // ---------- The parentheses that are printed ----------

  /** Parentheses stand around a disjunction below a conjunction and around any join below a negation. */
  function Written(e: Expr): Source
    decreases e, 0
  {
    match e
    case Sym(s) => Name(s)
    case Rel(rel, a, b) => Comparison(rel, a, b)
    case Not(x) => Negated(if x.Join? then Parens(Written(x)) else Written(x))
    case Join(Or, l, r) => Joined(Or, Written(l), Written(r))
    case Join(And, l, r) => Joined(And, Conjunct(l), Conjunct(r))
  }

  function Conjunct(e: Expr): Source
    decreases e, 1
  {
    if e.Join? && e.op == Or then Parens(Written(e)) else Written(e)
  }

  /** Which operands get parentheses. */
  lemma {:induction false} PrintOperand(e: Expr)
    ensures Print(e, NoneType) == Print(e, OrType) == Body(e)
    ensures Print(e, AndType) == if e.Join? && e.op == Or then [OpenParen] + Body(e) + [CloseParen] else Body(e)
    ensures Print(e, NotType) == if e.Join? then [OpenParen] + Body(e) + [CloseParen] else Body(e)
  {
    hide Body;
  }

  /** The printer writes these parentheses and no others. */
  lemma {:induction false} PrintedExactly(e: Expr)
    ensures Body(e) == Text(Written(e)) && Print(e, NoneType) == Text(Written(e))
  {
    hide Print, CompareType;
    PrintOperand(e);
    match e
    case Not(x) =>
      PrintedExactly(x);
      PrintOperand(x);
    case Join(_, l, r) =>
      PrintedExactly(l);
      PrintedExactly(r);
      PrintOperand(l);
      PrintOperand(r);
    case _ =>
  }
}
