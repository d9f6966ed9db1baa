/** The conditions that menu finalisation computes: the propagated dependency of a menu entry, the visibility
    of its properties, and the decision to move an entry into the submenu of the symbol before it. */
module MenuConditions {
  import opened Tristates
  import opened Exprs
  import opened ExprEquality
  import opened ExprTransform
  import opened ExprJoin
  import opened ExprDups

  /** A missing expression stands for y. */
  datatype MaybeExpr = Null | Some(e: Expr)

  function Value(env: Env, m: MaybeExpr): Tristate {
    if m == Null then YES else Eval(env, m.e)
  }

  ghost predicate IsPlain(env: Env, m: MaybeExpr) {
    m == Null || Plain(env, m.e)
  }

  predicate IsNormal(m: MaybeExpr) {
    m == Null || Normal(m.e)
  }

  function AllocAnd(x: MaybeExpr, y: MaybeExpr): MaybeExpr {
    if x == Null then y else if y == Null then x else Some(Join(And, x.e, y.e))
  }

  // ---------- Rewriting makes no new comparison of a tristate ----------

  lemma {:induction false} RewriteMConstants(e: Expr, modules: Symbol, a: Symbol)
    ensures Constants(RewriteM(e, modules), a) == Constants(e, a)
  {
    match e
    case Not(x) => RewriteMConstants(x, modules, a);
    case Join(op, l, r) => RewriteMConstants(l, modules, a); RewriteMConstants(r, modules, a);
    case _ =>
  }

  lemma {:induction false} TransformConstants(e: Expr, a: Symbol)
    ensures Constants(Transform(e), a) <= Constants(e, a)
    decreases Weight(e)
  {
    match e
    case Join(op, l, r) => TransformConstants(l, a); TransformConstants(r, a);
    case Not(x) =>
      TransformConstants(x, a);
      match Transform(x) {
        case Not(y) => TransformConstants(y, a);
        case Join(op, l, r) => TransformConstants(DeMorgan(op, l, r), a);
        case _ =>
      }
    case _ =>
  }

  lemma PlainFewer(env: Env, e: Expr, more: Expr)
    requires Plain(env, more) && forall a :: Constants(e, a) <= Constants(more, a)
    ensures Plain(env, e)
  {
    hide Apart;
    forall a ensures Constants(e, a) <= Derivable(Constants(more, a)) {
      DerivableCloses(Constants(more, a), Constants(more, a));
    }
    PlainWithin(env, e, more);
  }

  // ---------- Dependency propagation ----------

  /** The own condition as it enters the conjunction. */
  function Rewritten(own: MaybeExpr, modules: Symbol): MaybeExpr {
    if own == Null then Null else Some(Transform(RewriteM(own.e, modules)))
  }

  lemma RewrittenKeeps(inherited: MaybeExpr, own: MaybeExpr, modules: Symbol)
    ensures var both := AllocAnd(inherited, Rewritten(own, modules));
            && (forall env | ValidEnv(env) ::
                  Value(env, both) == TriAnd(Value(env, inherited), Value(Bounded(env, modules), own)))
            && (forall env | IsPlain(env, AllocAnd(inherited, own)) :: IsPlain(env, both))
            && (IsNormal(inherited) ==> IsNormal(both))
  {
    var both, full := AllocAnd(inherited, Rewritten(own, modules)), AllocAnd(inherited, own);
    if own.Some? {
      TransformNormal(RewriteM(own.e, modules));
      forall env | ValidEnv(env)
        ensures Value(env, Rewritten(own, modules)) == Value(Bounded(env, modules), own)
      {
        TransformSound(env, RewriteM(own.e, modules));
        RewriteMBoundsM(env, own.e, modules);
      }
      forall a ensures Constants(both.e, a) <= Constants(full.e, a) {
        RewriteMConstants(own.e, modules, a);
        TransformConstants(RewriteM(own.e, modules), a);
      }
      forall env | IsPlain(env, full) ensures IsPlain(env, both) {
        PlainFewer(env, both.e, full.e);
      }
    }
  }

  /** The conjunction of an inherited condition with an entry's own one, rewritten and deduplicated.
      Its value is the smaller of the two, m in the own condition being bounded by the modules symbol. */
  method Inherit(dedup: Deduplicator, inherited: MaybeExpr, own: MaybeExpr, modules: Symbol) returns (dep: MaybeExpr)
    modifies dedup
    ensures forall env | ValidEnv(env) && IsPlain(env, AllocAnd(inherited, own)) ::
              && Value(env, dep) == TriAnd(Value(env, inherited), Value(Bounded(env, modules), own))
              && IsPlain(env, dep)
    ensures IsNormal(inherited) ==> IsNormal(dep)
    ensures dep.Some? ==> Deduped(dep.e)
  {
    hide Transform, RewriteM, Plain;
    RewrittenKeeps(inherited, own, modules);
    dep := own;
    if own.Some? {
      dep := Some(Transform(RewriteM(own.e, modules)));
    }
    dep := AllocAnd(inherited, dep);
    if dep.Some? {
      var both := dep.e;
      var e := dedup.EliminateDups(both);
      DeduplicatedKeeps(both);
      dep := Some(e);
      forall env | Plain(env, both) ensures Plain(env, e) {
        PlainWithin(env, e, both);
      }
    }
  }

  /** The visibility of a property: as above, and for a symbol that is not a tristate tests against n are
      dropped, which may lower the value but not change whether it is n. */
  method PropertyVisibility(dedup: Deduplicator, base: MaybeExpr, own: MaybeExpr, modules: Symbol, tristate: bool)
    returns (dep: MaybeExpr)
    requires IsNormal(base)
    modifies dedup
    ensures tristate ==> forall env | ValidEnv(env) && IsPlain(env, AllocAnd(base, own)) ::
              Value(env, dep) == TriAnd(Value(env, base), Value(Bounded(env, modules), own))
    ensures !tristate ==> forall env | ValidEnv(env) && IsPlain(env, AllocAnd(base, own)) ::
              var full := TriAnd(Value(env, base), Value(Bounded(env, modules), own));
              Value(env, dep) <= full && (Value(env, dep) == NO <==> full == NO)
  {
    dep := Inherit(dedup, base, own, modules);
    if !tristate && dep.Some? {
      var e := dep.e;
      NormalIsQuiet(e);
      forall env | ValidEnv(env)
        ensures Eval(env, TransBool(e)) <= Eval(env, e)
        ensures Eval(env, TransBool(e)) == NO <==> Eval(env, e) == NO
      {
        TransBoolKeepsVisibility(env, e);
      }
      dep := Some(TransBool(e));
    }
  }

  // ---------- Automatic submenus ----------

  predicate ContainsSymbol(e: Expr, s: Symbol) {
    match e
    case Sym(t) => t == s
    case Not(x) => ContainsSymbol(x, s)
    case Join(_, l, r) => ContainsSymbol(l, s) || ContainsSymbol(r, s)
    case Rel(_, a, b) => a == s || b == s
  }

  /** The expression cannot hold unless the symbol does. */
  predicate DependsOnSymbol(e: Expr, s: Symbol) {
    match e
    case Sym(t) => t == s
    case Join(op, l, r) => op == And && (DependsOnSymbol(l, s) || DependsOnSymbol(r, s))
    case Rel(rel, a, b) =>
      a == s && ((rel == Equal && (b == SymYes || b == SymMod)) || (rel == Unequal && b == SymNo))
    case Not(_) => false
  }

  lemma {:induction false} DependsOnSymbolSound(env: Env, e: Expr, s: Symbol)
    requires ValidEnv(env) && s.Logic() && DependsOnSymbol(e, s) && Eval(env, e) != NO
    ensures env.tri(s) != NO
  {
    match e
    case Join(op, l, r) =>
      if DependsOnSymbol(l, s) {
        DependsOnSymbolSound(env, l, s);
      } else {
        DependsOnSymbolSound(env, r, s);
      }
    case Rel(rel, a, b) => LogicCompare(env, a, b);
    case _ =>
  }

  /** A symbol that is n makes the expression n on its own: it stands alone, or is tested for y, for m, or against n. */
  predicate NeedsSymbol(e: Expr, s: Symbol) {
    e in {Sym(s), Rel(Equal, s, SymYes), Rel(Equal, s, SymMod), Rel(Unequal, s, SymNo)}
  }

  /** The dependency is found if and only if one of the operands of the conjunction is of that kind. */
  lemma {:induction false} DependsOnSymbolExactly(e: Expr, s: Symbol)
    ensures DependsOnSymbol(e, s) <==> exists x :: x in Operands(And, e) && NeedsSymbol(x, s)
  {
    if Joins(And, e) {
      DependsOnSymbolExactly(e.left, s);
      DependsOnSymbolExactly(e.right, s);
      assert forall x :: x in Operands(And, e) <==> x in Operands(And, e.left) || x in Operands(And, e.right);
    } else {
      assert Operands(And, e) == [e] && e in Operands(And, e);
    }
  }

  /** "m is not n", as the superset test reads it before deduplication. */
  function VisibleTest(m: MaybeExpr): Expr {
    Transform(if m == Null then Not(ExprNo) else TransCompare(m.e, Unequal, SymNo))
  }

  /** Two-valued reading of a condition: y unless it reads as n. */
  predicate Seen(env: Env, m: MaybeExpr) {
    m == Null || !Crisp(env, m.e, SymNo)
  }

  lemma ReadingIsSeen(env: Env, m: MaybeExpr)
    requires ValidEnv(env)
    ensures Eval(env, VisibleTest(m)) == TriOf(Seen(env, m))
  {
    if m == Null {
      TransformSound(env, Not(ExprNo));
    } else {
      TransformSound(env, TransCompare(m.e, Unequal, SymNo));
      TransCompareIsCrisp(env, m.e, Unequal, SymNo);
    }
  }

  /** "m is not n" as a deduplicated normal form: it is y where m reads as something else than n, and n elsewhere. */
  method IsVisible(dedup: Deduplicator, m: MaybeExpr) returns (e: Expr)
    modifies dedup
    ensures e == Deduplicated(VisibleTest(m))
    ensures forall env | ValidEnv(env) && Plain(env, VisibleTest(m)) :: Eval(env, e) == TriOf(Seen(env, m))
    ensures Normal(e) && Deduped(e)
  {
    hide Transform, Plain, Crisp;
    var test := if m == Null then Not(ExprNo) else TransCompare(m.e, Unequal, SymNo);
    TransformNormal(test);
    DeduplicatedKeeps(Transform(test));
    e := dedup.EliminateDups(Transform(test));
    forall env | ValidEnv(env) ensures Eval(env, VisibleTest(m)) == TriOf(Seen(env, m)) {
      ReadingIsSeen(env, m);
    }
  }

  /** When a condition reads as what it is: its symbols show whether they are n and no negated subterm is m. */
  predicate Readable(env: Env, m: MaybeExpr) {
    m.Some? ==> AllShow(env, m.e, SymNo) && DecidedNegations(env, m.e)
  }

  lemma ReadableIsSeen(env: Env, m: MaybeExpr)
    requires ValidEnv(env) && Readable(env, m)
    ensures Seen(env, m) <==> Value(env, m) != NO
  {
    if m.Some? {
      CrispIsValue(env, m.e, SymNo);
    }
  }

  /** A normal form that is seen is not n, whatever its negations are. */
  lemma SeenNormal(env: Env, m: MaybeExpr)
    requires ValidEnv(env) && IsNormal(m) && (m.Some? ==> AllShow(env, m.e, SymNo)) && Seen(env, m)
    ensures Value(env, m) != NO
  {
    if m.Some? {
      NotCrispNotNo(env, m.e);
    }
  }

  datatype Placement = Outside | Absolute | Superset

  /** What is compared finds that the second condition contains nothing the first does not. */
  ghost predicate PassesSupersetTest(dep: MaybeExpr, base: MaybeExpr) {
    EliminateEq(Deduplicated(VisibleTest(dep)), Deduplicated(VisibleTest(base))).1 == ExprYes
  }

  /** Passing the test means that the second condition is seen whenever the first is. */
  lemma SupersetTestSeen(env: Env, dep: MaybeExpr, base: MaybeExpr)
    requires ValidEnv(env) && Plain(env, VisibleTest(dep)) && Plain(env, VisibleTest(base)) && PassesSupersetTest(dep, base)
    ensures Seen(env, dep) ==> Seen(env, base)
  {
    hide VisibleTest, Seen, EliminateEq, Deduplicated;
    DeduplicatedKeeps(VisibleTest(dep));
    DeduplicatedKeeps(VisibleTest(base));
    ReadingIsSeen(env, dep);
    ReadingIsSeen(env, base);
    SupersetTest(env, Deduplicated(VisibleTest(dep)), Deduplicated(VisibleTest(base)));
  }

  /** Whether an entry with condition `dep` goes into the submenu of `sym`, whose prompt has condition `base`.
      An entry is put there only if, whenever it is seen, the symbol is set or its prompt is visible. */
  method Place(dedup: Deduplicator, base: MaybeExpr, dep: MaybeExpr, sym: Symbol) returns (p: Placement)
    modifies dedup
    ensures p == Absolute <==> dep.Some? && DependsOnSymbol(dep.e, sym)
    ensures p == Superset <==>
              dep.Some? && ContainsSymbol(dep.e, sym) && !DependsOnSymbol(dep.e, sym) && PassesSupersetTest(dep, base)
    ensures p == Absolute && sym.Logic() ==>
              forall env | ValidEnv(env) && Value(env, dep) != NO :: env.tri(sym) != NO
    ensures p == Superset ==>
              forall env | ValidEnv(env) && Plain(env, VisibleTest(base)) && Plain(env, VisibleTest(dep)) && Seen(env, dep) ::
                Seen(env, base)
    ensures p == Superset && IsNormal(base) ==>
              forall env | ValidEnv(env) && Plain(env, VisibleTest(base)) && Plain(env, VisibleTest(dep)) && Seen(env, dep)
                        && (base.Some? ==> AllShow(env, base.e, SymNo)) ::
                Value(env, base) != NO
  {
    hide Plain, Crisp, VisibleTest, AllShow, Normal, EliminateEq, Deduplicated;
    var baseVisible := IsVisible(dedup, base);
    if dep.Some? {
      DependsContains(dep.e, sym);
    }
    if dep == Null || !ContainsSymbol(dep.e, sym) {
      return Outside;
    }
    if DependsOnSymbol(dep.e, sym) {
      forall env | ValidEnv(env) && sym.Logic() && Eval(env, dep.e) != NO ensures env.tri(sym) != NO {
        DependsOnSymbolSound(env, dep.e, sym);
      }
      return Absolute;
    }
    var depVisible := IsVisible(dedup, dep);
    if EliminateEq(depVisible, baseVisible).1 != ExprYes {
      return Outside;
    }
    forall env | ValidEnv(env) && Plain(env, VisibleTest(base)) && Plain(env, VisibleTest(dep)) && Seen(env, dep)
      ensures Seen(env, base)
    {
      SupersetTestSeen(env, dep, base);
    }
    forall env | ValidEnv(env) && IsNormal(base) && (base.Some? ==> AllShow(env, base.e, SymNo)) && Seen(env, base)
      ensures Value(env, base) != NO
    {
      SeenNormal(env, base);
    }
    return Superset;
  }

  lemma {:induction false} DependsContains(e: Expr, s: Symbol)
    ensures DependsOnSymbol(e, s) ==> ContainsSymbol(e, s)
  {
    if e.Join? {
      DependsContains(e.left, s);
      DependsContains(e.right, s);
    }
  }
}
