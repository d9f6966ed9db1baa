/** Joining two operands of the same conjunction or disjunction into one. */
module ExprJoin {
  import opened Tristates
  import opened Exprs
  import opened ExprEquality
  import opened ExprTransform

  datatype Joined = NoJoin | Into(e: Expr)

  /** Symbols, equality tests and negations are the operands considered for joining. */
  predicate Simple(e: Expr) {
    e.Sym? || e.Not? || (e.Rel? && e.rel in {Equal, Unequal})
  }

  /** The first operand may also negate an equality test; the second only a symbol. */
  predicate HasFirstSymbol(e: Expr) {
    Simple(e) && (e.Not? ==> !e.e.Not? && Simple(e.e))
  }

  predicate HasSecondSymbol(e: Expr) {
    Simple(e) && (e.Not? ==> e.e.Sym?)
  }

  function LeadSymbol(e: Expr): Symbol
    requires HasFirstSymbol(e)
  {
    match e
    case Sym(s) => s
    case Rel(_, a, _) => a
    case Not(x) => if x.Sym? then x.s else x.a
  }

  predicate Tests(e: Expr, rel: Relation, c: Symbol) {
    e.Rel? && e.rel == rel && e.b == c
  }

  /** One operand is of the first kind and the other of the second, in either order. */
  predicate TestsEither(e1: Expr, e2: Expr, rel: Relation, c: Symbol, d: Symbol) {
    (Tests(e1, rel, c) && Tests(e2, rel, d)) || (Tests(e1, rel, d) && Tests(e2, rel, c))
  }

  predicate SymbolAndTest(e1: Expr, e2: Expr, rel: Relation, c: Symbol) {
    (e1.Sym? && Tests(e2, rel, c)) || (e2.Sym? && Tests(e1, rel, c))
  }

  /** (a=b) && (a!=c) for constants b and c. */
  function EqualAndUnequal(a: Symbol, b: Symbol, c: Symbol): Expr {
    if b != c then Rel(Equal, a, b) else ExprNo
  }

  /** (a=b) || (a=c) for two of the values y, m and n is a test against the third. */
  function EitherTest(a: Symbol, e1: Expr, e2: Expr): Joined {
    if TestsEither(e1, e2, Equal, SymYes, SymMod) then Into(Rel(Unequal, a, SymNo))
    else if TestsEither(e1, e2, Equal, SymYes, SymNo) then Into(Rel(Unequal, a, SymMod))
    else if TestsEither(e1, e2, Equal, SymMod, SymNo) then Into(Rel(Unequal, a, SymYes))
    else NoJoin
  }

  function JoinOr(e1: Expr, e2: Expr): Joined {
    if ExprEq(e1, e2) then Into(e1)
    else if !HasFirstSymbol(e1) || !HasSecondSymbol(e2) then NoJoin
    else
      var a := LeadSymbol(e1);
      if a != LeadSymbol(e2) || !a.Logic() then NoJoin
      else if a.Type() == Tri then EitherTest(a, e1, e2)
      else if (e1.Not? && e1.e.Sym? && e2.Sym?) || (e2.Not? && e1.Sym?) then Into(ExprYes)
      else NoJoin
  }

  /** Two equality tests of the same tristate symbol. */
  function JoinTests(a: Symbol, e1: Expr, e2: Expr): Joined
    requires e1.Rel? && e2.Rel?
  {
    if e1.rel == Equal && e2.rel == Unequal && e1.b.Const() && e2.b.Const() then
      Into(EqualAndUnequal(a, e1.b, e2.b))
    else if e1.rel == Unequal && e2.rel == Equal && e1.b.Const() && e2.b.Const() then
      Into(EqualAndUnequal(a, e2.b, e1.b))
    else if TestsEither(e1, e2, Unequal, SymYes, SymNo) then Into(Rel(Equal, a, SymMod))
    else if TestsEither(e1, e2, Unequal, SymYes, SymMod) then Into(Rel(Equal, a, SymNo))
    else if TestsEither(e1, e2, Unequal, SymMod, SymNo) then Into(Rel(Equal, a, SymYes))
    else NoJoin
  }

  function JoinAnd(e1: Expr, e2: Expr): Joined {
    if ExprEq(e1, e2) then Into(e1)
    else if !HasFirstSymbol(e1) || !HasSecondSymbol(e2) then NoJoin
    else
      var a := LeadSymbol(e1);
      if a != LeadSymbol(e2) || !a.Logic() then NoJoin
      else if SymbolAndTest(e1, e2, Equal, SymYes) then Into(Rel(Equal, a, SymYes))
      else if SymbolAndTest(e1, e2, Unequal, SymNo) then Into(Sym(a))
      else if SymbolAndTest(e1, e2, Unequal, SymMod) then Into(Rel(Equal, a, SymYes))
      else if a.Type() == Tri && e1.Rel? && e2.Rel? then JoinTests(a, e1, e2)
      else NoJoin
  }

  function JoinOperands(op: Junction, e1: Expr, e2: Expr): Joined {
    match op
    case And => JoinAnd(e1, e2)
    case Or => JoinOr(e1, e2)
  }

  // ---------- When operands are joined ----------

  /** Two different ones of y, m and n. */
  predicate DifferentValues(c: Symbol, d: Symbol) {
    c in {SymYes, SymMod, SymNo} && d in {SymYes, SymMod, SymNo} && c != d
  }

  /** Operands of a conjunction or disjunction, in this order, that become one: tests of one tristate for two values,
      and a bool or its negation; a symbol and a test that it does not fail, a test for a constant and one against a
      constant, and tests against two values. */
  predicate Joinable(op: Junction, x: Expr, y: Expr) {
    match op
    case Or =>
      || (x.Rel? && y.Rel? && x.rel == y.rel == Equal && x.a == y.a && x.a.Type() == Tri && DifferentValues(x.b, y.b))
      || (x.Sym? && y == Not(x) && x.s.Type() == Boolean)
    case And =>
      || (x.Sym? && x.s.Logic() && y in {Rel(Equal, x.s, SymYes), Rel(Unequal, x.s, SymNo), Rel(Unequal, x.s, SymMod)})
      || (x.Rel? && y.Rel? && x.a == y.a && x.a.Type() == Tri
          && (|| (x.rel == Equal && y.rel == Unequal && x.b.Const() && y.b.Const())
              || (x.rel == y.rel == Unequal && DifferentValues(x.b, y.b))))
  }

  /** Two operands are joined if and only if they are equal or of one of these kinds, in either order. */
  lemma JoinedExactly(op: Junction, e1: Expr, e2: Expr)
    ensures JoinOperands(op, e1, e2).Into? <==> ExprEq(e1, e2) || Joinable(op, e1, e2) || Joinable(op, e2, e1)
  {
    hide ExprEq;
  }

  // ---------- When joining keeps the value ----------

  /** Two constants denote the value that the symbol has. */
  predicate Mistaken(env: Env, a: Symbol, b: Symbol, c: Symbol) {
    b != c && Denoted(env, b) == Denoted(env, c) == Denotes(env.tri(a))
  }

  predicate EqualAndUnequalRight(env: Env, a: Symbol, b: Symbol, c: Symbol) {
    Eval(env, EqualAndUnequal(a, b, c)) == TriAnd(Eval(env, Rel(Equal, a, b)), Eval(env, Rel(Unequal, a, c)))
  }

  lemma EqualAndUnequalExactly(env: Env, a: Symbol, b: Symbol, c: Symbol)
    requires ValidEnv(env) && a.Logic() && b.Const() && c.Const()
    ensures EqualAndUnequalRight(env, a, b, c) <==> !Mistaken(env, a, b, c)
  {
    DenotedEquals(env, a, b);
    DenotedEquals(env, a, c);
  }

  /** The same state, but with another value for a tristate symbol. */
  function WithValue(env: Env, a: Symbol, t: Tristate): Env {
    env.(tri := s => NewValue(env, a, t, s), text := s => if s == a then TriText(t) else env.text(s))
  }

  function NewValue(env: Env, a: Symbol, t: Tristate, s: Symbol): Tristate {
    if s == a then t else env.tri(s)
  }

  /** The rule for (a=b) && (a!=c) is right for every value of a if and only if the constants are the same, or the
      first denotes no value, or they denote different values. */
  lemma EqualAndUnequalAlways(env: Env, a: Symbol, b: Symbol, c: Symbol)
    requires ValidEnv(env) && a.Type() == Tri && b.Const() && c.Const()
    ensures (forall t: Tristate :: EqualAndUnequalRight(WithValue(env, a, t), a, b, c))
       <==> b == c || Denoted(env, b) == Nothing || Denoted(env, b) != Denoted(env, c)
  {
    forall t: Tristate
      ensures EqualAndUnequalRight(WithValue(env, a, t), a, b, c)
         <==> !(b != c && Denoted(env, b) == Denoted(env, c) == Denotes(t))
    {
      EqualAndUnequalExactly(WithValue(env, a, t), a, b, c);
    }
    if b != c && Denoted(env, b) == Denoted(env, c) && Denoted(env, b).Denotes? {
      assert !EqualAndUnequalRight(WithValue(env, a, Denoted(env, b).t), a, b, c);
    }
  }

  lemma EitherTestSound(env: Env, a: Symbol, e1: Expr, e2: Expr)
    requires ValidEnv(env) && a.Type() == Tri && EitherTest(a, e1, e2).Into?
    requires e1.Rel? && e2.Rel? && e1.a == a && e2.a == a
    ensures TriOr(Eval(env, e1), Eval(env, e2)) == Eval(env, EitherTest(a, e1, e2).e)
  {
    LogicTests(env, e1);
    LogicTests(env, e2);
    LogicTests(env, EitherTest(a, e1, e2).e);
  }

  lemma JoinOrSound(env: Env, e1: Expr, e2: Expr)
    requires ValidEnv(env) && JoinOr(e1, e2).Into?
    ensures TriOr(Eval(env, e1), Eval(env, e2)) == Eval(env, JoinOr(e1, e2).e)
  {
    if ExprEq(e1, e2) {
      ExprEqSound(env, e1, e2);
    } else if LeadSymbol(e1).Type() == Tri {
      EitherTestSound(env, LeadSymbol(e1), e1, e2);
    }
  }

  /** The values of an equality test of a bool or tristate symbol against y, m or n. */
  lemma LogicTests(env: Env, e: Expr)
    requires ValidEnv(env)
    ensures e.Rel? && e.a.Logic() && e.b in {SymYes, SymMod, SymNo} && e.rel in {Equal, Unequal} ==>
              Eval(env, e) == TriOf((env.tri(e.a) == env.tri(e.b)) == (e.rel == Equal))
  {
    if e.Rel? && e.a.Logic() && e.b in {SymYes, SymMod, SymNo} && e.rel in {Equal, Unequal} {
      LogicCompare(env, e.a, e.b);
    }
  }

  lemma SameRelationSound(env: Env, a: Symbol, e1: Expr, e2: Expr)
    requires ValidEnv(env) && a.Type() == Tri && e1.Rel? && e2.Rel? && e1.a == a && e2.a == a
    requires e1.rel == e2.rel && JoinTests(a, e1, e2).Into?
    ensures TriAnd(Eval(env, e1), Eval(env, e2)) == Eval(env, JoinTests(a, e1, e2).e)
  {
    LogicTests(env, e1);
    LogicTests(env, e2);
    LogicTests(env, JoinTests(a, e1, e2).e);
  }

  lemma SymbolAndTestSound(env: Env, e1: Expr, e2: Expr)
    requires ValidEnv(env) && JoinAnd(e1, e2).Into? && !ExprEq(e1, e2) && !(e1.Rel? && e2.Rel?)
    ensures TriAnd(Eval(env, e1), Eval(env, e2)) == Eval(env, JoinAnd(e1, e2).e)
  {
    LogicTests(env, e1);
    LogicTests(env, e2);
    LogicTests(env, JoinAnd(e1, e2).e);
  }

  /** A conjunction of two tests of one tristate, for and against two constants. */
  predicate ForAndAgainst(e1: Expr, e2: Expr) {
    && e1.Rel? && e2.Rel? && e1.a == e2.a && e1.a.Type() == Tri && e1.b.Const() && e2.b.Const()
    && ((e1.rel == Equal && e2.rel == Unequal) || (e1.rel == Unequal && e2.rel == Equal))
  }

  /** Joining a conjunction keeps the value of the pair if and only if it is not a test for one constant and against
      another where both denote the value of the symbol. */
  lemma JoinAndExactly(env: Env, e1: Expr, e2: Expr)
    requires ValidEnv(env) && JoinAnd(e1, e2).Into?
    ensures TriAnd(Eval(env, e1), Eval(env, e2)) == Eval(env, JoinAnd(e1, e2).e)
       <==> !(ForAndAgainst(e1, e2) && Mistaken(env, e1.a, e1.b, e2.b))
  {
    if ExprEq(e1, e2) {
      ExprEqSound(env, e1, e2);
    } else if ForAndAgainst(e1, e2) {
      EqualAndUnequalExactly(env, e1.a, if e1.rel == Equal then e1.b else e2.b, if e1.rel == Equal then e2.b else e1.b);
    } else if e1.Rel? && e2.Rel? {
      SameRelationSound(env, e1.a, e1, e2);
    } else {
      SymbolAndTestSound(env, e1, e2);
    }
  }

  /** Joining keeps the value of the pair in every environment, but for that one case. */
  lemma JoinOperandsExactly(env: Env, op: Junction, e1: Expr, e2: Expr)
    requires ValidEnv(env) && JoinOperands(op, e1, e2).Into?
    ensures Combine(op, Eval(env, e1), Eval(env, e2)) == Eval(env, JoinOperands(op, e1, e2).e)
       <==> !(op == And && ForAndAgainst(e1, e2) && Mistaken(env, e1.a, e1.b, e2.b))
  {
    match op
    case And => JoinAndExactly(env, e1, e2);
    case Or => JoinOrSound(env, e1, e2);
  }

  /** The joined operand is no larger than the pair, stays normal, and is again no join of the same kind. */
  lemma JoinOperandsShape(op: Junction, e1: Expr, e2: Expr)
    requires JoinOperands(op, e1, e2).Into? && !Joins(op, e1)
    ensures var t := JoinOperands(op, e1, e2).e;
            && (t == e1 || t.Sym? || t.Rel?)
            && Leaves(t) < Leaves(e1) + Leaves(e2)
            && (Normal(e1) && Normal(e2) ==> Normal(t))
  {
  }

  // ---------- Which constants a symbol can come to be tested for ----------

  /** The constants that a symbol is tested for. */
  function Constants(e: Expr, a: Symbol): set<Symbol> {
    match e
    case Sym(_) => {}
    case Not(x) => Constants(x, a)
    case Join(_, l, r) => Constants(l, a) + Constants(r, a)
    case Rel(rel, x, c) => if x == a && rel in {Equal, Unequal} && c.Const() then {c} else {}
  }

  /** Joining makes a test for the third of y, m and n from tests for two, and one for y from the symbol and a test
      against m. */
  function Derivable(cs: set<Symbol>): set<Symbol> {
    if SymMod in cs || (SymYes in cs && SymNo in cs) then cs + {SymYes, SymMod, SymNo} else cs
  }

  lemma DerivableCloses(cs: set<Symbol>, ds: set<Symbol>)
    ensures cs <= Derivable(ds) ==> Derivable(cs) <= Derivable(ds)
    ensures ds <= Derivable(ds)
  {
  }

  lemma JoinOperandsDerivable(op: Junction, e1: Expr, e2: Expr, a: Symbol)
    requires JoinOperands(op, e1, e2).Into?
    ensures Constants(JoinOperands(op, e1, e2).e, a) <= Derivable(Constants(e1, a) + Constants(e2, a))
  {
    hide ExprEq;
  }

  /** No two of the constants denote the same value. */
  ghost predicate Apart(env: Env, cs: set<Symbol>) {
    forall b, c | b in cs && c in cs && b != c && Denoted(env, b).Denotes? :: Denoted(env, b) != Denoted(env, c)
  }

  /** No two distinct constants that a tristate is or can come to be compared with denote the same value. */
  ghost predicate Plain(env: Env, e: Expr) {
    forall a: Symbol | a.Type() == Tri :: Apart(env, Derivable(Constants(e, a)))
  }

  /** Where that is so, joining always keeps the value. */
  lemma JoinOperandsSound(env: Env, op: Junction, e1: Expr, e2: Expr)
    requires ValidEnv(env) && Plain(env, Join(op, e1, e2)) && JoinOperands(op, e1, e2).Into?
    ensures Combine(op, Eval(env, e1), Eval(env, e2)) == Eval(env, JoinOperands(op, e1, e2).e)
  {
    JoinOperandsExactly(env, op, e1, e2);
    if ForAndAgainst(e1, e2) {
      assert Apart(env, Derivable(Constants(Join(op, e1, e2), e1.a)));
      assert e1.b in Constants(e1, e1.a) && e2.b in Constants(e2, e1.a);
    }
  }

  /** An environment in which the texts 0 and 1 are numbers. */
  function NumeralEnv(t: Tristate): Env {
    SampleEnv(t).(numeral := (ty, w) =>
      if w == "0" then Signed(0) else if w == "1" then Signed(1) else NotANumber)
  }

  lemma NumeralEnvValid(t: Tristate)
    ensures ValidEnv(NumeralEnv(t))
  {
    SampleEnvValid(t);
  }

  /** A tristate with the value m equals "1", so (a="1") && (a!=m) is n, but is joined into (a="1"), which is y. */
  lemma JoinMistakesNumerals(id: nat)
    ensures var env, a := NumeralEnv(MOD), Config(id, Tri);
            var e1, e2 := Rel(Equal, a, Constant("1")), Rel(Unequal, a, SymMod);
            && ValidEnv(env) && JoinAnd(e1, e2) == Into(e1)
            && TriAnd(Eval(env, e1), Eval(env, e2)) == NO && Eval(env, e1) == YES
  {
    NumeralEnvValid(MOD);
    var env, a := NumeralEnv(MOD), Config(id, Tri);
    DenotedEquals(env, a, SymMod);
    DenotedEquals(env, a, Constant("1"));
    assert !ExprEq(Rel(Equal, a, Constant("1")), Rel(Unequal, a, SymMod));
  }

  /** It is not enough that the constants an expression mentions denote different values.  In
      ((a=y) || (a=m)) && (a="0") they do, but the disjunction is joined into (a!=n), the conjunction of that with
      (a="0") into (a="0"), and where a is n the value rises from n to y. */
  lemma JoinMistakesDerivedTests(id: nat)
    ensures var env, a := NumeralEnv(NO), Config(id, Tri);
            var zero, either := Rel(Equal, a, Constant("0")), Join(Or, Rel(Equal, a, SymYes), Rel(Equal, a, SymMod));
            && ValidEnv(env) && Apart(env, Constants(Join(And, either, zero), a))
            && JoinOr(either.left, either.right) == Into(Rel(Unequal, a, SymNo))
            && JoinAnd(Rel(Unequal, a, SymNo), zero) == Into(zero)
            && Eval(env, Join(And, either, zero)) == NO && Eval(env, zero) == YES
  {
    hide NumeralEnv, Compare, Denoted;
    NumeralEnvValid(NO);
    var a := Config(id, Tri);
    var zero, isYes, isMod := Rel(Equal, a, Constant("0")), Rel(Equal, a, SymYes), Rel(Equal, a, SymMod);
    assert Constants(Join(Or, isYes, isMod), a) == {SymYes, SymMod};
    assert Constants(Join(And, Join(Or, isYes, isMod), zero), a) == {SymYes, SymMod, Constant("0")};
    DenotedDigits(NO);
    DigitValues(id);
    assert !ExprEq(isYes, isMod) && !ExprEq(Rel(Unequal, a, SymNo), zero);
  }

  lemma DenotedDigits(t: Tristate)
    ensures var env := NumeralEnv(t);
            && Denoted(env, SymYes) == Denotes(YES) && Denoted(env, SymMod) == Denotes(MOD)
            && Denoted(env, Constant("0")) == Denotes(NO)
  {
  }

  lemma DigitValues(id: nat)
    ensures var env, a := NumeralEnv(NO), Config(id, Tri);
            && Eval(env, Rel(Equal, a, SymYes)) == Eval(env, Rel(Equal, a, SymMod)) == NO
            && Eval(env, Rel(Equal, a, Constant("0"))) == YES
  {
    NumeralEnvValid(NO);
    var env, a := NumeralEnv(NO), Config(id, Tri);
    DenotedEquals(env, a, SymYes);
    DenotedEquals(env, a, SymMod);
    DenotedEquals(env, a, Constant("0"));
    assert env.tri(a) == NO;
  }
}
