/** Printing of expressions as tokens, and the grammar's shift-reduce parser with its precedences. */
module ExprText {
  import opened Tristates
  import opened Exprs
  import opened ExprEquality

  datatype Token =
    | Word(s: Symbol)
    | Compares(rel: Relation)
    | Bang
    | Infix(op: Junction)
    | OpenParen
    | CloseParen

  // ---------- The printer ----------

  /** Expression types in the order of the enumeration; lists and ranges are not modelled but their places
      in the comparison are. */
  datatype ExprType = NoneType | OrType | AndType | NotType | RelType(rel: Relation) | ListType | SymbolType_ | RangeType

  function TypeOf(e: Expr): ExprType {
    match e
    case Sym(_) => SymbolType_
    case Not(_) => NotType
    case Join(And, _, _) => AndType
    case Join(Or, _, _) => OrType
    case Rel(rel, _, _) => RelType(rel)
  }

  /** expr_compare_type: positive when an operand of type t2 needs parentheses below t1.  Each type is tried
      against what binds less, falling through to the types below it. */
  function CompareType(t1: ExprType, t2: ExprType): int {
    var orders := t1.RelType? && t1.rel !in {Equal, Unequal};
    var rank := if orders then 6 else if t1.RelType? then 5 else if t1 == NotType then 4
                else if t1 == AndType then 3 else if t1 == OrType then 2 else if t1 == ListType then 1 else 0;
    if t1 == t2 then 0
    else if rank >= 6 && t2 in {RelType(Equal), RelType(Unequal)} then 1
    else if rank >= 5 && t2 == NotType then 1
    else if rank >= 4 && t2 == AndType then 1
    else if rank >= 3 && t2 == OrType then 1
    else if rank >= 2 && t2 == ListType then 1
    else if rank >= 1 && t2 == NoneType then 1
    else -1
  }

  /** expr_print: an expression below a parent of type `prev`. */
  function Print(e: Expr, prev: ExprType): seq<Token>
    decreases e, 1
  {
    if CompareType(prev, TypeOf(e)) > 0 then [OpenParen] + Body(e) + [CloseParen] else Body(e)
  }

  function Body(e: Expr): seq<Token>
    decreases e, 0
  {
    match e
    case Sym(s) => [Word(s)]
    case Not(x) => [Bang] + Print(x, NotType)
    case Rel(rel, a, b) => [Word(a), Compares(rel), Word(b)]
    case Join(op, l, r) => Print(l, TypeOf(e)) + [Infix(op)] + Print(r, TypeOf(e))
  }

  // ---------- The parser ----------

  /** Symbols on the parser's stack. */
  datatype Item = Operand(e: Expr) | Operator(t: Token)

  datatype Parsed = SyntaxError | Accepted(e: Expr)

  /** The precedences of the connectives. */
  function Precedence(op: Junction): nat {
    if op == Or then 1 else 2
  }

  /** Whether an expression may end before this input. */
  predicate MayFollow(input: seq<Token>) {
    input == [] || input[0] == CloseParen || input[0].Infix?
  }

  /** A connective on the stack is reduced unless the next one binds tighter; equal ones associate left. */
  predicate Reduces(op: Junction, input: seq<Token>) {
    input != [] && input[0].Infix? ==> Precedence(op) >= Precedence(input[0].op)
  }

  predicate EndsWith(stack: seq<Item>, t: Token) {
    stack != [] && stack[|stack| - 1] == Operator(t)
  }

  predicate EndsWithJoin(stack: seq<Item>) {
    && |stack| >= 2
    && stack[|stack| - 1].Operator? && stack[|stack| - 1].t.Infix?
    && stack[|stack| - 2].Operand?
  }

  /** The parser with an operand on top of the stack: reduce, shift a connective, close a parenthesis or accept. */
  function AfterOperand(stack: seq<Item>, x: Expr, input: seq<Token>): Parsed
    decreases 2 * |input| + |stack| + 1
  {
    var n := |stack|;
    if !MayFollow(input) then SyntaxError
    else if EndsWith(stack, Bang) then AfterOperand(stack[..n - 1], Not(x), input)
    else if EndsWithJoin(stack) && Reduces(stack[n - 1].t.op, input) then
      AfterOperand(stack[..n - 2], Join(stack[n - 1].t.op, stack[n - 2].e, x), input)
    else if input == [] then if n == 0 then Accepted(x) else SyntaxError
    else if input[0].Infix? then BeforeOperand(stack + [Operand(x), Operator(input[0])], input[1..])
    else if EndsWith(stack, OpenParen) then AfterOperand(stack[..n - 1], x, input[1..])
    else SyntaxError
  }

  /** The parser where an expression must begin. */
  function BeforeOperand(stack: seq<Item>, input: seq<Token>): Parsed
    decreases 2 * |input| + |stack|
  {
    if input == [] then SyntaxError
    else if input[0] == Bang || input[0] == OpenParen then BeforeOperand(stack + [Operator(input[0])], input[1..])
    else if !input[0].Word? then SyntaxError
    else if |input| >= 3 && input[1].Compares? && input[2].Word? then
      AfterOperand(stack, Rel(input[1].rel, input[0].s, input[2].s), input[3..])
    else AfterOperand(stack, Sym(input[0].s), input[1..])
  }

  function Parse(input: seq<Token>): Parsed {
    BeforeOperand([], input)
  }

  // ---------- Left association ----------

  /** The same operands, with chains of one connective nested to the left. */
  function LeftNested(e: Expr): Expr
    decreases e, 0
  {
    match e
    case Not(x) => Not(LeftNested(x))
    case Join(op, l, r) => Append(op, LeftNested(l), r)
    case _ => e
  }

  /** The chain `acc op e`. */
  function Append(op: Junction, acc: Expr, e: Expr): Expr
    decreases e, 1
  {
    if Joins(op, e) then Append(op, Append(op, acc, e.left), e.right) else Join(op, acc, LeftNested(e))
  }

  /** No join is the right operand of a join of the same kind. */
  predicate LeftForm(e: Expr) {
    match e
    case Not(x) => LeftForm(x)
    case Join(op, l, r) => !Joins(op, r) && LeftForm(l) && LeftForm(r)
    case _ => true
  }

  lemma {:induction false} AppendMeaning(env: Env, op: Junction, acc: Expr, e: Expr)
    ensures Eval(env, Append(op, acc, e)) == Combine(op, Eval(env, acc), Eval(env, e))
    decreases e, 1
  {
    if Joins(op, e) {
      AppendMeaning(env, op, acc, e.left);
      AppendMeaning(env, op, Append(op, acc, e.left), e.right);
    } else {
      LeftNestedMeaning(env, e);
    }
  }

  /** Nesting to the left keeps the value in every environment. */
  lemma {:induction false} LeftNestedMeaning(env: Env, e: Expr)
    ensures Eval(env, LeftNested(e)) == Eval(env, e)
    decreases e, 0
  {
    match e
    case Not(x) => LeftNestedMeaning(env, x);
    case Join(op, l, r) =>
      LeftNestedMeaning(env, l);
      AppendMeaning(env, op, LeftNested(l), r);
    case _ =>
  }

  lemma {:induction false} AppendForm(op: Junction, acc: Expr, e: Expr)
    requires LeftForm(acc)
    ensures LeftForm(Append(op, acc, e)) && Joins(op, Append(op, acc, e))
    decreases e, 1
  {
    if Joins(op, e) {
      AppendForm(op, acc, e.left);
      AppendForm(op, Append(op, acc, e.left), e.right);
    } else {
      LeftNestedForm(e);
    }
  }

  /** Left nesting is a normal form: it has the shape, keeps the root, and changes nothing that has the shape. */
  lemma {:induction false} LeftNestedForm(e: Expr)
    ensures LeftForm(LeftNested(e)) && TypeOf(LeftNested(e)) == TypeOf(e)
    ensures LeftForm(e) <==> LeftNested(e) == e
    decreases e, 0
  {
    match e
    case Not(x) => LeftNestedForm(x);
    case Join(op, l, r) =>
      LeftNestedForm(l);
      LeftNestedForm(r);
      AppendForm(op, LeftNested(l), r);
    case _ =>
  }

  // ---------- The round trip ----------

  /** An operand that is printed without a connective of its own in sight: the parser takes it as one operand. */
  predicate Closed(e: Expr, prev: ExprType) {
    prev == NotType || (prev == AndType && !Joins(And, e))
  }

  /** The parser has just begun, or has just opened a parenthesis. */
  predicate Open(stack: seq<Item>) {
    stack == [] || EndsWith(stack, OpenParen)
  }

  /** A conjunction can go on: neither a negation nor a conjunction is waiting for its operand. */
  predicate Loose(stack: seq<Item>) {
    !EndsWith(stack, Bang) && (EndsWithJoin(stack) ==> EndsWith(stack, Infix(Or)))
  }

  /** After this input a disjunction is complete. */
  predicate Finishes(rest: seq<Token>) {
    MayFollow(rest) && (rest == [] || rest[0] != Infix(And))
  }

  /** Where a join needs no parentheses, it is printed as its operands with the connective between them. */
  lemma PrintChain(e: Expr, rest: seq<Token>)
    requires e.Join?
    ensures Body(e) + rest == Print(e.left, TypeOf(e)) + ([Infix(e.op)] + (Print(e.right, TypeOf(e)) + rest))
  {
  }

  lemma PrintBare(e: Expr)
    ensures Print(e, NoneType) == Print(e, OrType) == Body(e)
    ensures !Joins(Or, e) ==> Print(e, AndType) == Body(e)
  {
  }

  lemma Shift(stack: seq<Item>, x: Expr, op: Junction, rest: seq<Token>)
    requires Loose(stack) && (op == Or ==> Open(stack))
    ensures AfterOperand(stack, x, [Infix(op)] + rest)
         == BeforeOperand(stack + [Operand(x), Operator(Infix(op))], rest)
  {
    assert ([Infix(op)] + rest)[1..] == rest;
  }

  lemma ReduceJoin(stack: seq<Item>, acc: Expr, op: Junction, x: Expr, rest: seq<Token>)
    requires MayFollow(rest) && Reduces(op, rest)
    ensures AfterOperand(stack + [Operand(acc), Operator(Infix(op))], x, rest)
         == AfterOperand(stack, Join(op, acc, x), rest)
  {
    var waiting := stack + [Operand(acc), Operator(Infix(op))];
    assert waiting[..|waiting| - 2] == stack;
  }

  /** A closed operand is taken whole, whatever the parser is in the middle of. */
  lemma {:induction false} ParseClosed(stack: seq<Item>, e: Expr, prev: ExprType, rest: seq<Token>)
    requires Closed(e, prev) && MayFollow(rest)
    ensures BeforeOperand(stack, Print(e, prev) + rest) == AfterOperand(stack, LeftNested(e), rest)
    decreases e, if e.Join? then 3 else 0
  {
    var input := Print(e, prev) + rest;
    match e
    case Sym(s) =>
      assert Print(e, prev) == Body(e) == [Word(s)];
      assert input[1..] == rest;
    case Rel(rel, a, b) =>
      assert Print(e, prev) == Body(e) == [Word(a), Compares(rel), Word(b)];
      assert input[3..] == rest;
    case Not(x) =>
      assert Print(e, prev) == [Bang] + Print(x, NotType);
      assert input[1..] == Print(x, NotType) + rest;
      ParseClosed(stack + [Operator(Bang)], x, NotType, rest);
      assert (stack + [Operator(Bang)])[..|stack|] == stack;
    case Join(op, _, _) =>
      ParseGroup(stack, e, prev, rest);
  }

  /** An operand in parentheses. */
  lemma {:induction false} ParseGroup(stack: seq<Item>, e: Expr, prev: ExprType, rest: seq<Token>)
    requires e.Join? && Closed(e, prev) && MayFollow(rest)
    ensures BeforeOperand(stack, Print(e, prev) + rest) == AfterOperand(stack, LeftNested(e), rest)
    decreases e, 3, 0
  {
    var input := Print(e, prev) + rest;
    var inner := stack + [Operator(OpenParen)];
    assert input[1..] == Body(e) + ([CloseParen] + rest);
    ParseOpen(inner, e, [CloseParen] + rest);
    assert inner[..|stack|] == stack && ([CloseParen] + rest)[1..] == rest;
  }

  /** A conjunction continues the conjunction before it. */
  lemma {:induction false} ParseAndOnto(stack: seq<Item>, acc: Expr, e: Expr, rest: seq<Token>)
    requires Loose(stack) && MayFollow(rest)
    ensures BeforeOperand(stack + [Operand(acc), Operator(Infix(And))], Print(e, AndType) + rest)
         == AfterOperand(stack, Append(And, acc, e), rest)
    decreases e, 4
  {
    if Joins(And, e) {
      var tail := Print(e.right, AndType) + rest;
      PrintBare(e);
      PrintChain(e, rest);
      ParseAndOnto(stack, acc, e.left, [Infix(And)] + tail);
      Shift(stack, Append(And, acc, e.left), And, tail);
      ParseAndOnto(stack, Append(And, acc, e.left), e.right, rest);
    } else {
      ParseClosed(stack + [Operand(acc), Operator(Infix(And))], e, AndType, rest);
      ReduceJoin(stack, acc, And, LeftNested(e), rest);
    }
  }

  lemma {:induction false} ParseAnd(stack: seq<Item>, e: Expr, rest: seq<Token>)
    requires !Joins(Or, e) && Loose(stack) && MayFollow(rest)
    ensures BeforeOperand(stack, Body(e) + rest) == AfterOperand(stack, LeftNested(e), rest)
    decreases e, 1
  {
    if Joins(And, e) {
      var tail := Print(e.right, AndType) + rest;
      PrintBare(e.left);
      PrintChain(e, rest);
      if Joins(And, e.left) {
        ParseAnd(stack, e.left, [Infix(And)] + tail);
      } else {
        ParseClosed(stack, e.left, AndType, [Infix(And)] + tail);
      }
      Shift(stack, LeftNested(e.left), And, tail);
      ParseAndOnto(stack, LeftNested(e.left), e.right, rest);
    } else {
      ParseClosed(stack, e, NotType, rest);
    }
  }

  /** A disjunction continues the disjunction before it. */
  lemma {:induction false} ParseOrOnto(stack: seq<Item>, acc: Expr, e: Expr, rest: seq<Token>)
    requires Open(stack) && Finishes(rest)
    ensures BeforeOperand(stack + [Operand(acc), Operator(Infix(Or))], Print(e, OrType) + rest)
         == AfterOperand(stack, Append(Or, acc, e), rest)
    decreases e, 4
  {
    PrintBare(e);
    if Joins(Or, e) {
      var tail := Print(e.right, OrType) + rest;
      PrintChain(e, rest);
      ParseOrOnto(stack, acc, e.left, [Infix(Or)] + tail);
      Shift(stack, Append(Or, acc, e.left), Or, tail);
      ParseOrOnto(stack, Append(Or, acc, e.left), e.right, rest);
    } else {
      ParseAnd(stack + [Operand(acc), Operator(Infix(Or))], e, rest);
      ReduceJoin(stack, acc, Or, LeftNested(e), rest);
    }
  }

  lemma {:induction false} ParseOpen(stack: seq<Item>, e: Expr, rest: seq<Token>)
    requires Open(stack) && Finishes(rest)
    ensures BeforeOperand(stack, Body(e) + rest) == AfterOperand(stack, LeftNested(e), rest)
    decreases e, 2
  {
    if Joins(Or, e) {
      var tail := Print(e.right, OrType) + rest;
      PrintBare(e.left);
      PrintChain(e, rest);
      ParseOpen(stack, e.left, [Infix(Or)] + tail);
      Shift(stack, LeftNested(e.left), Or, tail);
      ParseOrOnto(stack, LeftNested(e.left), e.right, rest);
    } else {
      ParseAnd(stack, e, rest);
    }
  }

  /** Parsing what was printed gives the expression back, up to left association of its chains. */
  lemma ParsePrint(e: Expr)
    ensures Parse(Print(e, NoneType)) == Accepted(LeftNested(e))
  {
    ParseOpen([], e, []);
    assert Body(e) + [] == Body(e);
  }

  /** So the round trip is the identity exactly on expressions nested to the left, and always keeps the value. */
  lemma RoundTrip(e: Expr)
    ensures Parse(Print(e, NoneType)) == Accepted(e) <==> LeftForm(e)
    ensures Parse(Print(e, NoneType)).Accepted? && Equiv(Parse(Print(e, NoneType)).e, e)
  {
    ParsePrint(e);
    LeftNestedForm(e);
    forall env | ValidEnv(env) ensures Eval(env, LeftNested(e)) == Eval(env, e) {
      LeftNestedMeaning(env, e);
    }
  }
}
