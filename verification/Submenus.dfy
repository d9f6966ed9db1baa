/** When an entry can be put below a prompt that is invisible while the entry is visible. */
module Submenus {
  import opened Tristates
  import opened Exprs
  import opened ExprEquality
  import opened ExprForms
  import opened ExprTransform
  import opened ExprJoin
  import opened ExprDups
  import opened MenuConditions

  // ---------- Readings of normal forms ----------

  /** "Is not n" of a normal form: its symbols are tested one by one. */
  function NormalReading(e: Expr): Expr {
    match e
    case Sym(s) => TransformRel(Unequal, s, SymNo)
    case Not(x) => if x.Sym? then TransformRel(Equal, x.s, SymNo) else e
    case Rel(_, _, _) => e
    case Join(op, l, r) => Join(op, NormalReading(l), NormalReading(r))
  }

  /** How the negation of a join of normal forms is transformed. */
  lemma TransformDeMorgan(op: Junction, l: Expr, r: Expr)
    requires Normal(l) && Normal(r)
    ensures Transform(Not(Join(op, l, r))) == Join(op.Dual(), Transform(Not(l)), Transform(Not(r)))
  {
    NormalStays(Join(op, l, r));
  }

  lemma {:induction false} NegatedTwice(e: Expr)
    requires Normal(e)
    ensures var t := Transform(TransCompare(e, Equal, SymNo)); Normal(t) && Transform(Not(t)) == NormalReading(e)
  {
    TransformNormal(TransCompare(e, Equal, SymNo));
    if e.Join? {
      NegatedTwice(e.left);
      NegatedTwice(e.right);
      var l, r := Transform(TransCompare(e.left, Equal, SymNo)), Transform(TransCompare(e.right, Equal, SymNo));
      assert Transform(TransCompare(e, Equal, SymNo)) == Join(e.op.Dual(), l, r);
      TransformDeMorgan(e.op.Dual(), l, r);
    } else {
      NegatedLeaf(e);
    }
  }

  lemma NegatedLeaf(e: Expr)
    requires Normal(e) && !e.Join?
    ensures Transform(Not(Transform(TransCompare(e, Equal, SymNo)))) == NormalReading(e)
    ensures Transform(TransCompare(e, Unequal, SymNo)) == NormalReading(e)
  {
    match e
    case Sym(s) =>
      if s.Type() == Boolean {
        assert Transform(Not(Sym(s))) == Not(Sym(s));
      }
    case Not(x) =>
      assert TransCompare(e, Equal, SymNo) == Rel(Unequal, x.s, SymNo);
      assert TransCompare(e, Unequal, SymNo) == Rel(Equal, x.s, SymNo);
    case Rel(rel, a, b) =>
      NormalStays(e);
      assert Transform(Not(e)) == Rel(Opposite(rel), a, b);
      NormalStays(Rel(Opposite(rel), a, b));
      assert Opposite(Opposite(rel)) == rel;
  }

  lemma ReadingOfNormal(e: Expr)
    requires Normal(e)
    ensures VisibleTest(Some(e)) == NormalReading(e)
  {
    if e.Join? {
      var j := TransCompare(e, Equal, SymNo);
      assert TransCompare(e, Unequal, SymNo) == Not(j);
      NegatedTwice(e);
      TransformFixpoint(j);
      hide TransCompare, NormalReading;
      assert Transform(Not(j)) == Transform(Not(Transform(j)));
    } else {
      NegatedLeaf(e);
    }
  }

  lemma {:induction false} NormalReadingShape(e: Expr)
    requires Normal(e)
    ensures var r := NormalReading(e); Normal(r) && Clean(r) && !IsConstant(r) && Lone(r)
  {
    if e.Join? {
      NormalReadingShape(e.left);
      NormalReadingShape(e.right);
    }
  }

  /** A reading is its own reading. */
  lemma {:induction false} NormalReadingStays(e: Expr)
    requires Normal(e) && Clean(e) && !IsConstant(e) && Lone(e)
    ensures NormalReading(e) == e
  {
    if e.Join? {
      NormalReadingStays(e.left);
      NormalReadingStays(e.right);
    }
  }

  lemma {:induction false} LoneShows(env: Env, e: Expr)
    requires ValidEnv(env) && Lone(e)
    ensures AllShow(env, e, SymNo)
  {
    match e
    case Sym(s) => LogicShows(env, s, SymNo);
    case Not(x) => LoneShows(env, x);
    case Join(_, l, r) => LoneShows(env, l); LoneShows(env, r);
    case Rel(_, _, _) =>
  }

  lemma {:induction false} CleanIsYnFree(e: Expr)
    requires Normal(e)
    ensures Clean(e) <==> YnFree(e)
  {
    if e.Join? {
      CleanIsYnFree(e.left);
      CleanIsYnFree(e.right);
    }
  }

  /** What the superset test works on: the deduplicated reading of a normal form. */
  lemma DeduplicatedReading(e: Expr)
    requires Normal(e)
    ensures var d := Deduplicated(VisibleTest(Some(e))); Normal(d) && Clean(d) && Lone(d) && Deduped(d)
  {
    ReadingOfNormal(e);
    NormalReadingShape(e);
    CleanIsYnFree(NormalReading(e));
    DeduplicatedKeeps(NormalReading(e));
    CleanIsYnFree(Deduplicated(NormalReading(e)));
  }

  // ---------- Misplaced entries ----------

  /** The prompt's condition passes the test although the entry is visible and the prompt is not. */
  ghost predicate Misplaces(env: Env, dep: Expr, base: Expr) {
    && Normal(base) && AllShow(env, base, SymNo) && Plain(env, VisibleTest(Some(base)))
    && PassesSupersetTest(Some(dep), Some(base))
    && Eval(env, dep) != NO && Eval(env, base) == NO
  }

  /** An entry can be misplaced in a given environment, below some prompt, if and only if its condition reads as n
      though it is not, and its reading is a conjunction. */
  lemma MisplacedExactly(env: Env, dep: Expr)
    requires ValidEnv(env) && Normal(dep) && Plain(env, VisibleTest(Some(dep)))
    ensures (exists base :: Misplaces(env, dep, base))
       <==> Eval(env, dep) != NO && !Seen(env, Some(dep)) && Joins(And, Deduplicated(VisibleTest(Some(dep))))
  {
    hide VisibleTest, Deduplicated, EliminateEq, AllShow, Plain, Seen;
    if base :| Misplaces(env, dep, base) {
      MisplacedUnseen(env, dep, base);
    }
    if Eval(env, dep) != NO && !Seen(env, Some(dep)) && Joins(And, Deduplicated(VisibleTest(Some(dep)))) {
      OwnReadingMisplaces(env, dep);
    }
  }

  lemma MisplacedUnseen(env: Env, dep: Expr, base: Expr)
    requires ValidEnv(env) && Normal(dep) && Plain(env, VisibleTest(Some(dep))) && Misplaces(env, dep, base)
    ensures !Seen(env, Some(dep)) && Joins(And, Deduplicated(VisibleTest(Some(dep))))
  {
    hide VisibleTest, Deduplicated, EliminateEq, AllShow, Plain, Seen;
    SupersetTestSeen(env, Some(dep), Some(base));
    if Seen(env, Some(base)) {
      SeenNormal(env, Some(base));
    }
    DeduplicatedReading(dep);
    DeduplicatedReading(base);
    SupersetIsParts(Deduplicated(VisibleTest(Some(dep))), Deduplicated(VisibleTest(Some(base))));
    DeduplicatedKeeps(VisibleTest(Some(base)));
    ReadingIsSeen(env, Some(base));
  }

  /** The entry's own reading, as a condition of the prompt, does it. */
  lemma OwnReadingMisplaces(env: Env, dep: Expr)
    requires ValidEnv(env) && Normal(dep) && Plain(env, VisibleTest(Some(dep)))
    requires Eval(env, dep) != NO && !Seen(env, Some(dep)) && Joins(And, Deduplicated(VisibleTest(Some(dep))))
    ensures Misplaces(env, dep, Deduplicated(VisibleTest(Some(dep))))
  {
    hide VisibleTest, Deduplicated, EliminateEq, AllShow, Plain, Seen;
    var base := Deduplicated(VisibleTest(Some(dep)));
    DeduplicatedReading(dep);
    LoneShows(env, base);
    ReadingOfNormal(base);
    NormalReadingStays(base);
    DeduplicatedKeeps(base);
    DeduplicatedKeeps(VisibleTest(Some(dep)));
    PlainWithin(env, base, VisibleTest(Some(dep)));
    ReadingIsSeen(env, Some(dep));
    SupersetIsParts(base, base);
  }

  /** So it never is where no negated subterm is m. */
  lemma ReadableIsPlacedRightly(env: Env, dep: Expr, base: Expr)
    requires ValidEnv(env) && Normal(dep) && Plain(env, VisibleTest(Some(dep))) && Readable(env, Some(dep))
    ensures !Misplaces(env, dep, base)
  {
    hide VisibleTest, Deduplicated, EliminateEq, AllShow, Plain, Seen;
    if Misplaces(env, dep, base) {
      MisplacedUnseen(env, dep, base);
      ReadableIsSeen(env, Some(dep));
    }
  }

  // ---------- An entry that is placed wrongly ----------

  /** The condition (S || Q) && !A. */
  function EitherAndNot(s: Symbol, q: Symbol, a: Symbol): Expr {
    Join(And, Join(Or, Sym(s), Sym(q)), Not(Sym(a)))
  }

  lemma TestDeduped(e: Expr)
    requires e.Rel?
    ensures Deduped(e)
  {
  }

  lemma PairDeduped(op: Junction, x: Expr, y: Expr)
    requires !Joins(op, x) && !Joins(op, y) && Deduped(x) && Deduped(y)
    requires JoinOperands(op, x, y).NoJoin? && JoinOperands(op, y, x).NoJoin?
    ensures Deduped(Join(op, x, y))
  {
    hide JoinOperands;
    var cells := Operands(op, Join(op, x, y));
    assert Operands(op, x) == [x] && Operands(op, y) == [y];
    assert cells == [x] + [y];
    assert Settled(op, x, y) && Settled(op, y, x);
    forall i, j | 0 <= i < 2 && 0 <= j < 2 && i != j ensures Settled(op, cells[i], cells[j]) {
      if i == 0 {
        assert cells[i] == x && cells[j] == y;
      } else {
        assert cells[i] == y && cells[j] == x;
      }
    }
  }

  lemma ReadingDeduped(s: Symbol, q: Symbol, a: Symbol)
    requires s != q
    ensures Deduped(Join(And, Join(Or, Rel(Unequal, s, SymNo), Rel(Unequal, q, SymNo)), Rel(Equal, a, SymNo)))
  {
    hide Deduped;
    var x, y, z := Rel(Unequal, s, SymNo), Rel(Unequal, q, SymNo), Rel(Equal, a, SymNo);
    TestDeduped(x);
    TestDeduped(y);
    TestDeduped(z);
    PairDeduped(Or, x, y);
    PairDeduped(And, Join(Or, x, y), z);
  }

  lemma SupersetFound(s: Symbol, q: Symbol, a: Symbol)
    requires s != a && q != a
    ensures EliminateEq(Join(And, Join(Or, Rel(Unequal, s, SymNo), Rel(Unequal, q, SymNo)), Rel(Equal, a, SymNo)),
                        Rel(Equal, a, SymNo)).1 == ExprYes
  {
    var either, base := Join(Or, Rel(Unequal, s, SymNo), Rel(Unequal, q, SymNo)), Rel(Equal, a, SymNo);
    CancelLeftFork(And, Join(And, either, base), base);
    assert CancelEqual(And, either, base) == (either, base);
    assert CancelEqual(And, base, base) == (ExprYes, ExprYes);
  }

  /** With S, Q and A at m the entry that depends on (S || Q) && !A is visible ... */
  lemma MisplacedIsSeen(s: Symbol, q: Symbol, a: Symbol)
    requires s.Type() == q.Type() == a.Type() == Tri
    ensures ValidEnv(SampleEnv(MOD))
    ensures Eval(SampleEnv(MOD), EitherAndNot(s, q, a)) == MOD
    ensures Eval(SampleEnv(MOD), Rel(Equal, a, SymNo)) == NO
  {
    SampleEnvValid(MOD);
    var env := SampleEnv(MOD);
    LogicCompare(env, a, SymNo);
    assert Eval(env, Sym(s)) == MOD && Eval(env, Sym(q)) == MOD && Eval(env, Sym(a)) == MOD;
    hide SampleEnv, Compare;
    assert Eval(env, Join(Or, Sym(s), Sym(q))) == MOD;
    assert Eval(env, Not(Sym(a))) == MOD;
  }

  lemma EitherAndNotShape(s: Symbol, q: Symbol, a: Symbol)
    requires s.Type() == q.Type() == a.Type() == Tri
    ensures var e := EitherAndNot(s, q, a); ContainsSymbol(e, s) && !DependsOnSymbol(e, s) && Normal(e)
  {
    var x := Join(Or, Sym(s), Sym(q));
    assert Normal(x.left) && Normal(x.right) && Normal(Not(Sym(a)));
    assert ContainsSymbol(x.left, s) && ContainsSymbol(x, s) && !DependsOnSymbol(x, s) && Normal(x);
  }

  /** ... and a prompt that depends on A=n is not, yet the entry is placed in the submenu of S as if the prompt were
      visible whenever it is. */
  method PlaceMisreadsNegation(dedup: Deduplicator, s: Symbol, q: Symbol, a: Symbol) returns (p: Placement)
    requires s.Type() == q.Type() == a.Type() == Tri && s != q && q != a && a != s
    modifies dedup
    ensures p == Superset
    ensures var env, base, dep := SampleEnv(MOD), Some(Rel(Equal, a, SymNo)), Some(EitherAndNot(s, q, a));
            ValidEnv(env) && IsNormal(base) && IsNormal(dep) && Value(env, dep) == MOD && Value(env, base) == NO
  {
    MisplacedIsSeen(s, q, a);
    var base, dep := Some(Rel(Equal, a, SymNo)), Some(EitherAndNot(s, q, a));
    EitherAndNotShape(s, q, a);
    assert Normal(base.e);
    PassesTest(s, q, a);
    hide *;
    p := Place(dedup, base, dep, s);
  }

  lemma PassesTest(s: Symbol, q: Symbol, a: Symbol)
    requires s.Type() == q.Type() == a.Type() == Tri && s != q && q != a && a != s
    ensures PassesSupersetTest(Some(EitherAndNot(s, q, a)), Some(Rel(Equal, a, SymNo)))
  {
    hide VisibleTest, Deduplicated, EliminateEq, Deduped;
    var dep, base := EitherAndNot(s, q, a), Rel(Equal, a, SymNo);
    EitherAndNotShape(s, q, a);
    ReadingOfNormal(dep);
    ReadingOfNormal(base);
    EitherAndNotReading(s, q, a);
    ReadingDeduped(s, q, a);
    TestDeduped(base);
    DeduplicatedKeeps(NormalReading(dep));
    DeduplicatedKeeps(base);
    SupersetFound(s, q, a);
  }

  lemma EitherAndNotReading(s: Symbol, q: Symbol, a: Symbol)
    requires s.Type() == q.Type() == a.Type() == Tri
    ensures NormalReading(EitherAndNot(s, q, a))
         == Join(And, Join(Or, Rel(Unequal, s, SymNo), Rel(Unequal, q, SymNo)), Rel(Equal, a, SymNo))
  {
    assert NormalReading(Join(Or, Sym(s), Sym(q))) == Join(Or, Rel(Unequal, s, SymNo), Rel(Unequal, q, SymNo));
    assert NormalReading(Not(Sym(a))) == Rel(Equal, a, SymNo);
  }
}
