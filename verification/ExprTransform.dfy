/** Normalisation of expressions, and the two rewrites that trade a symbol for a comparison and back. */
module ExprTransform {
  import opened Tristates
  import opened Exprs

  // ---------- expr_transform ----------

  /** Termination weight: negation doubles, so that pushing it below a join makes the expression lighter
      although it adds a node. */
  function Weight(e: Expr): (n: nat)
    ensures n >= 1
  {
    match e
    case Sym(_) => 1
    case Rel(_, _, _) => 2
    case Not(x) => 2 * Weight(x)
    case Join(_, l, r) => 1 + Weight(l) + Weight(r)
  }

  /** A bool symbol compared for (in)equality with y, m or n becomes the symbol, its negation or a constant. */
  function TransformRel(rel: Relation, a: Symbol, b: Symbol): Expr {
    if a.Type() != Boolean then Rel(rel, a, b)
    else if rel == Equal then
      if b == SymNo then Not(Sym(a))
      else if b == SymMod then ExprNo
      else if b == SymYes then Sym(a)
      else Rel(rel, a, b)
    else if rel == Unequal then
      if b == SymNo then Sym(a)
      else if b == SymMod then ExprYes
      else if b == SymYes then Not(Sym(a))
      else Rel(rel, a, b)
    else Rel(rel, a, b)
  }

  function Opposite(rel: Relation): Relation {
    match rel
    case Equal => Unequal
    case Unequal => Equal
    case LessEqual => Greater
    case GreaterEqual => Less
    case Less => GreaterEqual
    case Greater => LessEqual
  }

  function NegatedConstant(s: Symbol): Expr {
    if s == SymYes then ExprNo
    else if s == SymMod then Sym(SymMod)
    else if s == SymNo then ExprYes
    else Not(Sym(s))
  }

  /** Negation pushed below a join. */
  function DeMorgan(op: Junction, l: Expr, r: Expr): (n: Expr)
    ensures Weight(n) < Weight(Not(Join(op, l, r)))
  {
    assert Weight(Not(l)) == 2 * Weight(l) && Weight(Not(r)) == 2 * Weight(r);
    Join(op.Dual(), Not(l), Not(r))
  }

  /** Bool comparisons disappear, double negations cancel, negated comparisons flip, and negation moves below
      conjunctions and disjunctions, the result of which is transformed again. */
  function Transform(e: Expr): (r: Expr)
    ensures Weight(r) <= Weight(e)
    decreases Weight(e)
  {
    match e
    case Sym(_) => e
    case Rel(rel, a, b) => TransformRel(rel, a, b)
    case Join(op, l, r) => Join(op, Transform(l), Transform(r))
    case Not(x) =>
      match Transform(x) {
        case Not(y) => Transform(y)
        case Rel(rel, a, b) => Rel(Opposite(rel), a, b)
        case Join(op, l, r) => Transform(DeMorgan(op, l, r))
        case Sym(s) => NegatedConstant(s)
      }
  }

  predicate BoolTest(rel: Relation, a: Symbol, b: Symbol) {
    rel in {Equal, Unequal} && a.Type() == Boolean && b in {SymYes, SymMod, SymNo}
  }

  /** Negation normal form: negation stands only above a symbol other than y, m and n, and no bool symbol is
      tested for y, m or n. */
  predicate Normal(e: Expr) {
    match e
    case Sym(_) => true
    case Rel(rel, a, b) => !BoolTest(rel, a, b)
    case Not(x) => x.Sym? && x.s !in {SymYes, SymMod, SymNo}
    case Join(_, l, r) => Normal(l) && Normal(r)
  }

  lemma TransformRelCorrect(env: Env, rel: Relation, a: Symbol, b: Symbol)
    requires ValidEnv(env)
    ensures Eval(env, TransformRel(rel, a, b)) == Eval(env, Rel(rel, a, b))
  {
    if BoolTest(rel, a, b) {
      LogicCompare(env, a, b);
    }
  }

  /** Transformation keeps the value in every environment. */
  lemma {:induction false} TransformSound(env: Env, e: Expr)
    requires ValidEnv(env)
    ensures Eval(env, Transform(e)) == Eval(env, e)
    decreases Weight(e)
  {
    match e
    case Sym(_) =>
    case Rel(rel, a, b) => TransformRelCorrect(env, rel, a, b);
    case Join(op, l, r) => TransformSound(env, l); TransformSound(env, r);
    case Not(x) =>
      TransformSound(env, x);
      match Transform(x) {
        case Not(y) => TransformSound(env, y);
        case Rel(rel, a, b) =>
        case Join(op, l, r) => TransformSound(env, DeMorgan(op, l, r));
        case Sym(s) =>
      }
  }

  /** The result is in normal form. */
  lemma {:induction false} TransformNormal(e: Expr)
    ensures Normal(Transform(e))
    decreases Weight(e)
  {
    match e
    case Sym(_) =>
    case Rel(rel, a, b) =>
    case Join(op, l, r) => TransformNormal(l); TransformNormal(r);
    case Not(x) =>
      TransformNormal(x);
      match Transform(x) {
        case Not(y) => TransformNormal(y);
        case Rel(rel, a, b) =>
        case Join(op, l, r) => TransformNormal(DeMorgan(op, l, r));
        case Sym(s) =>
      }
  }

  /** The fixed points are exactly the normal forms, so transforming twice is transforming once. */
  lemma {:induction false} TransformFixpoint(e: Expr)
    ensures Transform(e) == e <==> Normal(e)
    ensures Transform(Transform(e)) == Transform(e)
  {
    TransformNormal(e);
    NormalStays(Transform(e));
    if Normal(e) {
      NormalStays(e);
    }
  }

  lemma {:induction false} NormalStays(e: Expr)
    requires Normal(e)
    ensures Transform(e) == e
  {
    if e.Join? {
      NormalStays(e.left);
      NormalStays(e.right);
    }
  }

  // ---------- expr_trans_bool ----------

  /** Replaces every test of a tristate symbol against n by the symbol itself. */
  function TransBool(e: Expr): Expr {
    match e
    case Join(op, l, r) => Join(op, TransBool(l), TransBool(r))
    case Not(x) => Not(TransBool(x))
    case Rel(rel, a, b) => if rel == Unequal && a.Type() == Tri && b == SymNo then Sym(a) else e
    case Sym(_) => e
  }

  /** Nothing below a negation is rewritten. */
  predicate QuietNegations(e: Expr) {
    match e
    case Not(x) => TransBool(x) == x
    case Join(_, l, r) => QuietNegations(l) && QuietNegations(r)
    case _ => true
  }

  lemma {:induction false} NormalIsQuiet(e: Expr)
    requires Normal(e)
    ensures QuietNegations(e)
  {
    if e.Join? {
      NormalIsQuiet(e.left);
      NormalIsQuiet(e.right);
    }
  }

  /** The rewrite never raises the value and never changes whether it is n. */
  lemma {:induction false} TransBoolKeepsVisibility(env: Env, e: Expr)
    requires ValidEnv(env) && QuietNegations(e)
    ensures Eval(env, TransBool(e)) <= Eval(env, e)
    ensures Eval(env, TransBool(e)) == NO <==> Eval(env, e) == NO
  {
    match e
    case Join(op, l, r) =>
      TransBoolKeepsVisibility(env, l);
      TransBoolKeepsVisibility(env, r);
    case Rel(rel, a, b) =>
      if rel == Unequal && a.Type() == Tri && b == SymNo {
        LogicCompare(env, a, b);
      }
    case _ =>
  }

  /** A tristate is tested against n somewhere. */
  predicate TestsForNo(e: Expr) {
    match e
    case Sym(_) => false
    case Not(x) => TestsForNo(x)
    case Join(_, l, r) => TestsForNo(l) || TestsForNo(r)
    case Rel(rel, a, b) => rel == Unequal && a.Type() == Tri && b == SymNo
  }

  /** The rewrite leaves no test of a tristate against n, and changes nothing else. */
  lemma {:induction false} TransBoolDropsTests(e: Expr)
    ensures !TestsForNo(TransBool(e))
    ensures TransBool(e) == e <==> !TestsForNo(e)
  {
    match e
    case Not(x) => TransBoolDropsTests(x);
    case Join(_, l, r) => TransBoolDropsTests(l); TransBoolDropsTests(r);
    case _ =>
  }

  /** The condition on negations is sharp: on a negated test against n the rewrite keeps the value, and whether it
      is n, if and only if the symbol is not m.  (Normal forms, all that is ever rewritten, contain no such
      negation.) */
  lemma TransBoolOfNegatedTest(env: Env, a: Symbol)
    requires ValidEnv(env) && a.Type() == Tri
    ensures var e := Not(Rel(Unequal, a, SymNo));
            && (Eval(env, TransBool(e)) == Eval(env, e) <==> env.tri(a) != MOD)
            && ((Eval(env, TransBool(e)) == NO <==> Eval(env, e) == NO) <==> env.tri(a) != MOD)
  {
    LogicCompare(env, a, SymNo);
  }

  // ---------- expr_trans_compare ----------

  /** Rewrites "e has the value c" (or has not) into comparisons of the symbols of e with c. */
  function TransCompare(e: Expr, rel: Relation, c: Symbol): Expr
    requires rel in {Equal, Unequal} && c in {SymYes, SymMod, SymNo}
  {
    match e
    case Join(op, l, r) =>
      var x, y := TransCompare(l, Equal, c), TransCompare(r, Equal, c);
      var j := if c == SymYes then Join(op, x, y) else if c == SymNo then Join(op.Dual(), x, y) else e;
      if rel == Unequal then Not(j) else j
    case Not(x) => TransCompare(x, Opposite(rel), c)
    case Rel(_, _, _) =>
      if c == SymMod then if rel == Equal then ExprNo else ExprYes
      else if (rel == Equal) == (c == SymYes) then e
      else Not(e)
    case Sym(s) => Rel(rel, s, c)
  }

  /** The rewritten expression tells whether e has (or has not) the value of c. */
  predicate Answers(env: Env, e: Expr, rel: Relation, c: Symbol)
    requires rel in {Equal, Unequal} && c in {SymYes, SymMod, SymNo}
  {
    Eval(env, TransCompare(e, rel, c)) == TriOf((Eval(env, e) == env.tri(c)) == (rel == Equal))
  }

  /** The text of a symbol tells whether it has the value of c. */
  predicate Shows(env: Env, s: Symbol, c: Symbol) {
    env.text(s) == env.text(c) <==> env.tri(s) == env.tri(c)
  }

  lemma LogicShows(env: Env, s: Symbol, c: Symbol)
    requires ValidEnv(env) && c in {SymYes, SymMod, SymNo}
    requires s.Logic() || s in {SymYes, SymMod, SymNo}
    ensures Shows(env, s, c)
  {
    assert env.text(c) == TriText(env.tri(c)) && env.text(s) == TriText(env.tri(s));
  }

  /** Every symbol that stands for its own value shows it. */
  predicate AllShow(env: Env, e: Expr, c: Symbol) {
    match e
    case Sym(s) => Shows(env, s, c)
    case Not(x) => AllShow(env, x, c)
    case Join(_, l, r) => AllShow(env, l, c) && AllShow(env, r, c)
    case Rel(_, _, _) => true
  }

  lemma CompareByText(env: Env, s: Symbol, c: Symbol)
    requires ValidEnv(env) && c in {SymYes, SymMod, SymNo}
    ensures Compare(env, s, c) == 0 <==> env.text(s) == env.text(c)
  {
    assert env.text(c) == TriText(env.tri(c));
    assert Read(env, c) == NotANumber;
    StringCompareEqual(env.text(s), env.text(c));
  }

  /** On a symbol alone the answer is right if and only if the symbol's text shows its value. */
  lemma TransCompareOfSymbol(env: Env, s: Symbol, rel: Relation, c: Symbol)
    requires ValidEnv(env) && rel in {Equal, Unequal} && c in {SymYes, SymMod, SymNo}
    ensures Answers(env, Sym(s), rel, c) <==> Shows(env, s, c)
  {
    CompareByText(env, s, c);
  }

  /** So it is for bool and tristate symbols, while a symbol that has the value n whatever its text is answered
      rightly for n if and only if the text is "n", and for y if and only if it is not "y". */
  lemma TransCompareOfText(env: Env, s: Symbol, rel: Relation)
    requires ValidEnv(env) && rel in {Equal, Unequal} && env.tri(s) == NO
    ensures Answers(env, Sym(s), rel, SymNo) <==> env.text(s) == "n"
    ensures Answers(env, Sym(s), rel, SymYes) <==> env.text(s) != "y"
  {
    TransCompareOfSymbol(env, s, rel, SymNo);
    TransCompareOfSymbol(env, s, rel, SymYes);
  }

  /** "e has the value of c" computed with two-valued negation, and with symbols compared by their texts. */
  predicate Crisp(env: Env, e: Expr, c: Symbol) {
    match e
    case Not(x) => !Crisp(env, x, c)
    case Join(op, l, r) =>
      if (op == And) == (c == SymYes) then Crisp(env, l, c) && Crisp(env, r, c)
      else Crisp(env, l, c) || Crisp(env, r, c)
    case Sym(s) => env.text(s) == env.text(c)
    case Rel(_, _, _) => Eval(env, e) == env.tri(c)
  }

  /** What the rewritten expression computes, in every environment and for every expression: y or n according to
      the two-valued reading. */
  lemma {:induction false} TransCompareIsCrisp(env: Env, e: Expr, rel: Relation, c: Symbol)
    requires ValidEnv(env) && rel in {Equal, Unequal} && c in {SymYes, SymNo}
    ensures Eval(env, TransCompare(e, rel, c)) == TriOf(Crisp(env, e, c) == (rel == Equal))
  {
    match e
    case Join(op, l, r) =>
      TransCompareIsCrisp(env, l, Equal, c);
      TransCompareIsCrisp(env, r, Equal, c);
    case Not(x) => TransCompareIsCrisp(env, x, Opposite(rel), c);
    case Rel(_, _, _) =>
    case Sym(s) => CompareByText(env, s, c);
  }

  /** No negated subterm has the value m. */
  predicate DecidedNegations(env: Env, e: Expr) {
    match e
    case Not(x) => Eval(env, x) != MOD && DecidedNegations(env, x)
    case Join(_, l, r) => DecidedNegations(env, l) && DecidedNegations(env, r)
    case _ => true
  }

  lemma {:induction false} CrispIsValue(env: Env, e: Expr, c: Symbol)
    requires ValidEnv(env) && AllShow(env, e, c) && DecidedNegations(env, e) && c in {SymYes, SymNo}
    ensures Crisp(env, e, c) <==> Eval(env, e) == env.tri(c)
  {
    match e
    case Join(op, l, r) => CrispIsValue(env, l, c); CrispIsValue(env, r, c);
    case Not(x) => CrispIsValue(env, x, c);
    case _ =>
  }

  /** On a normal form one half needs no condition on negations: what does not read as n is not n. */
  lemma {:induction false} NotCrispNotNo(env: Env, e: Expr)
    requires ValidEnv(env) && Normal(e) && AllShow(env, e, SymNo) && !Crisp(env, e, SymNo)
    ensures Eval(env, e) != NO
  {
    if e.Join? {
      if e.op == And || !Crisp(env, e.left, SymNo) {
        NotCrispNotNo(env, e.left);
      }
      if e.op == And || !Crisp(env, e.right, SymNo) {
        NotCrispNotNo(env, e.right);
      }
    }
  }

  /** For c = y or n, when no negated subterm is m, the rewritten expression is y exactly when e has (or has
      not) the value c, and n otherwise. */
  lemma TransCompareDecides(env: Env, e: Expr, rel: Relation, c: Symbol)
    requires ValidEnv(env) && AllShow(env, e, c) && DecidedNegations(env, e)
    requires rel in {Equal, Unequal} && c in {SymYes, SymNo}
    ensures Answers(env, e, rel, c)
  {
    TransCompareIsCrisp(env, e, rel, c);
    CrispIsValue(env, e, c);
  }

  /** On a negation of anything without negations inside, the answer is right if and only if the negated
      expression is not m. */
  lemma TransCompareOfNegation(env: Env, x: Expr, rel: Relation, c: Symbol)
    requires ValidEnv(env) && AllShow(env, x, c) && DecidedNegations(env, x)
    requires rel in {Equal, Unequal} && c in {SymYes, SymNo}
    ensures Answers(env, Not(x), rel, c) <==> Eval(env, x) != MOD
  {
    TransCompareIsCrisp(env, Not(x), rel, c);
    CrispIsValue(env, x, c);
  }

  // For c = m joins are left as they are and negation turns the question round, although m is its own negation.

  /** The answer for c = m is right: ... */
  predicate RightForM(env: Env, e: Expr) {
    match e
    case Sym(s) => Shows(env, s, SymMod)
    case Rel(_, _, _) => true
    case Join(_, _, _) => Eval(env, e) == NO
    case Not(x) => InvertedForM(env, x)
  }

  /** ... and the answer to the opposite question is, for the question itself. */
  predicate InvertedForM(env: Env, e: Expr) {
    match e
    case Sym(s) => !Shows(env, s, SymMod)
    case Rel(_, _, _) => false
    case Join(_, _, _) => Eval(env, e) == YES
    case Not(x) => RightForM(env, x)
  }

  /** When comparing with m is answered rightly: for a symbol that shows it and for a comparison always, for the
      negation of either never, for a join only where it is n, and for a negated join only where the join is y. */
  lemma {:induction false} TransCompareWithM(env: Env, e: Expr, rel: Relation)
    requires ValidEnv(env) && rel in {Equal, Unequal}
    ensures Answers(env, e, rel, SymMod) <==> RightForM(env, e)
    ensures Eval(env, TransCompare(e, Opposite(rel), SymMod)) == TriOf((Eval(env, e) == MOD) == (rel == Equal))
       <==> InvertedForM(env, e)
  {
    match e
    case Sym(s) => CompareByText(env, s, SymMod);
    case Not(x) => TransCompareWithM(env, x, rel);
    case _ =>
  }

  // ---------- rewrite_m ----------

  /** Replaces m by "m && MODULES". */
  function RewriteM(e: Expr, modules: Symbol): Expr {
    match e
    case Not(x) => Not(RewriteM(x, modules))
    case Join(op, l, r) => Join(op, RewriteM(l, modules), RewriteM(r, modules))
    case Sym(s) => if s == SymMod then Join(And, e, Sym(modules)) else e
    case Rel(_, _, _) => e
  }

  function BoundedValue(env: Env, modules: Symbol, s: Symbol): Tristate {
    if s == SymMod then TriAnd(env.tri(s), env.tri(modules)) else env.tri(s)
  }

  /** The same state, but with m worth no more than the modules symbol. */
  function Bounded(env: Env, modules: Symbol): Env {
    env.(tri := s => BoundedValue(env, modules, s))
  }

  /** The rewritten expression has the value of the original read with m bounded by the modules symbol. */
  lemma {:induction false} RewriteMBoundsM(env: Env, e: Expr, modules: Symbol)
    ensures Eval(env, RewriteM(e, modules)) == Eval(Bounded(env, modules), e)
  {
    match e
    case Not(x) => RewriteMBoundsM(env, x, modules);
    case Join(op, l, r) => RewriteMBoundsM(env, l, modules); RewriteMBoundsM(env, r, modules);
    case Sym(_) =>
    case Rel(rel, a, b) => assert Compare(env, a, b) == Compare(Bounded(env, modules), a, b);
  }
}
