/** Where deduplication changes the value of an expression. */
module DedupLimits {
  import opened Tristates
  import opened Exprs
  import opened ExprEquality
  import opened ExprTransform
  import opened ExprJoin
  import opened ExprDups

  // ---------- Two operands ----------

  /** Comparing two cells where neither is a join. */
  lemma MetLeaves(op: Junction, o1: nat, o2: nat, cells: seq<Expr>, d: nat)
    requires o1 < |cells| && o2 < |cells| && o1 != o2 && Shallow(op, d, cells) && !cells[o1].Join?
    ensures Met(op, o1, o2, cells, d)
         == match JoinOperands(op, cells[o1], cells[o2])
            case NoJoin => (cells, 0)
            case Into(t) => (cells[o1 := UnitExpr(op)][o2 := t], 1)
  {
    hide JoinOperands;
  }

  lemma TwoColumns(op: Junction, o1: nat, cells: seq<Expr>, d: nat)
    requires |cells| == 2 && o1 < 2 && Shallow(op, d, cells)
    ensures Columns(op, o1, Fork(Cell, Cell), 0, cells, d) == Met(op, o1, 1 - o1, cells, d)
  {
    hide Met, Shallow;
    var pair := Fork(Cell, Cell);
    assert pair.Cells() == pair.l.Cells() + pair.r.Cells() == 2;
    var first := Columns(op, o1, Cell, 0, cells, d);
    var second := Columns(op, o1, Cell, 1, first.0, d);
    assert Columns(op, o1, pair, 0, cells, d) == (second.0, first.1 + second.1);
  }

  lemma RowsOfCell(op: Junction, o1: nat, s2: Spine, cells: seq<Expr>, d: nat)
    requires o1 < |cells| && s2.Cells() <= |cells| && Shallow(op, d, cells)
    ensures Rows(op, Cell, o1, s2, 0, cells, d) == Columns(op, o1, s2, 0, cells, d)
  {
    hide Shallow, Columns;
  }

  lemma RowsOfPair(op: Junction, s2: Spine, cells: seq<Expr>, d: nat)
    requires |cells| == 2 && s2.Cells() <= 2 && Shallow(op, d, cells)
    ensures var first := Columns(op, 0, s2, 0, cells, d);
            var second := Columns(op, 1, s2, 0, first.0, d);
            Rows(op, Fork(Cell, Cell), 0, s2, 0, cells, d) == (second.0, first.1 + second.1)
  {
    hide Shallow, Columns;
    RowsOfCell(op, 0, s2, cells, d);
    RowsOfCell(op, 1, s2, Columns(op, 0, s2, 0, cells, d).0, d);
  }

  lemma TwoRows(op: Junction, pair: Spine, cells: seq<Expr>, d: nat)
    requires pair == Fork(Cell, Cell) && pair.Cells() == |cells| == 2 && Shallow(op, d, cells)
    ensures var first := Met(op, 0, 1, cells, d);
            var second := Met(op, 1, 0, first.0, d);
            Rows(op, pair, 0, pair, 0, cells, d) == (second.0, first.1 + second.1)
  {
    hide *;
    RowsOfPair(op, pair, cells, d);
    TwoColumns(op, 0, cells, d);
    TwoColumns(op, 1, Met(op, 0, 1, cells, d).0, d);
  }

  lemma PassedPair(op: Junction, x: Expr, y: Expr)
    requires !Joins(op, x) && !Joins(op, y)
    ensures var e := Join(op, x, y);
            && Depth(e) >= 1 && Shallow(op, Depth(e) - 1, [x, y])
            && var first := Met(op, 0, 1, [x, y], Depth(e) - 1);
               var second := Met(op, 1, 0, first.0, Depth(e) - 1);
               Passed(e) == (Join(op, second.0[0], second.0[1]), first.1 + second.1)
  {
    hide Met, Shallow, Rows;
    var e := Join(op, x, y);
    OperandsAreShallow(e);
    PassedInRows(e);
    assert Operands(op, x) == [x] && Operands(op, y) == [y];
    assert Operands(op, e) == [x] + [y] == [x, y];
    assert SpineOf(op, e) == Fork(Cell, Cell);
    TwoRows(op, SpineOf(op, e), [x, y], Depth(e) - 1);
    var first := Met(op, 0, 1, [x, y], Depth(e) - 1);
    var cells := Met(op, 1, 0, first.0, Depth(e) - 1).0;
    assert Rebuild(op, Cell, cells[..1]) == cells[0] && Rebuild(op, Cell, cells[1..]) == cells[1];
    assert Rebuild(op, Fork(Cell, Cell), cells) == Join(op, cells[0], cells[1]);
  }

  /** Two leaves that are joined into a leaf. */
  lemma PassedLeaves(op: Junction, x: Expr, y: Expr, t: Expr)
    requires !x.Join? && !y.Join? && !t.Join? && JoinOperands(op, x, y) == Into(t)
    requires JoinOperands(op, t, UnitExpr(op)).NoJoin?
    ensures Passed(Join(op, x, y)) == (Join(op, UnitExpr(op), t), 1)
  {
    hide JoinOperands, Passed, Met;
    var e := Join(op, x, y);
    PassedPair(op, x, y);
    MetLeaves(op, 0, 1, [x, y], Depth(e) - 1);
    assert [x, y][0 := UnitExpr(op)][1 := t] == [UnitExpr(op), t];
    MetLeaves(op, 1, 0, [UnitExpr(op), t], Depth(e) - 1);
  }

  lemma DedupLeaves(op: Junction, x: Expr, y: Expr, t: Expr)
    requires !x.Join? && !y.Join? && !t.Join? && JoinOperands(op, x, y) == Into(t)
    requires JoinOperands(op, t, UnitExpr(op)).NoJoin?
    ensures Deduplicated(Join(op, x, y)) == t
  {
    hide JoinOperands, Passed;
    PassedLeaves(op, x, y, t);
    PassCounts(Join(op, x, y));
    assert EliminateYn(Join(op, UnitExpr(op), t)) == t;
  }

  /** A nested pass that counts something, in an operand that is not joined with the other. */
  lemma PassedInside(op: Junction, x: Expr, z: Expr)
    requires x.Join? && x.op != op && !z.Join? && Passed(x).1 > 0
    requires JoinOperands(op, Passed(x).0, z).NoJoin? && JoinOperands(op, z, Passed(x).0).NoJoin?
    ensures Passed(Join(op, x, z)) == (Join(op, Passed(x).0, z), Passed(x).1)
  {
    hide JoinOperands, Passed, Shallow;
    var e := Join(op, x, z);
    PassedPair(op, x, z);
    var d, y := Depth(e) - 1, Passed(x).0;
    assert [x, z][0 := y] == [y, z];
    assert Descended(op, 0, [x, z], d) == ([y, z], Passed(x).1);
    assert Met(op, 0, 1, [x, z], d) == ([y, z], Passed(x).1);
    MetLeaves(op, 1, 0, [y, z], d);
  }

  /** So constant elimination follows, and then the next round. */
  lemma DedupInside(op: Junction, x: Expr, z: Expr)
    requires x.Join? && x.op != op && !z.Join? && Passed(x).1 > 0
    requires JoinOperands(op, Passed(x).0, z).NoJoin? && JoinOperands(op, z, Passed(x).0).NoJoin?
    ensures Deduplicated(Join(op, x, z)) == Deduplicated(DropConstant(op, EliminateYn(Passed(x).0), z))
  {
    hide JoinOperands, Passed;
    PassedInside(op, x, z);
    PassCounts(Join(op, x, z));
    assert EliminateYn(z) == z;
  }

  lemma NoJoinOfKinds(op: Junction, x: Expr, z: Expr)
    requires x.Join? && !z.Join?
    ensures JoinOperands(op, x, z).NoJoin? && JoinOperands(op, z, x).NoJoin?
  {
    assert !ExprEq(x, z) && !ExprEq(z, x);
    hide ExprEq;
  }

  lemma NoJoinWithUnit(op: Junction, rel: Relation, a: Symbol, c: Symbol)
    requires a.Config?
    ensures JoinOperands(op, Rel(rel, a, c), UnitExpr(op)).NoJoin?
  {
    assert !ExprEq(Rel(rel, a, c), UnitExpr(op));
    hide ExprEq;
  }

  // ---------- Expressions whose value changes ----------

  function Is(a: Symbol, c: Symbol): Expr {
    Rel(Equal, a, c)
  }

  function IsNot(a: Symbol, c: Symbol): Expr {
    Rel(Unequal, a, c)
  }

  /** A test for one constant and against another becomes the first. */
  lemma DedupForAndAgainst(a: Symbol, b: Symbol, c: Symbol)
    requires a.Type() == Tri && b.Const() && c.Const() && b != c
    ensures Deduplicated(Join(And, Is(a, b), IsNot(a, c))) == Is(a, b)
    ensures Deduplicated(Join(And, IsNot(a, c), Is(a, b))) == Is(a, b)
  {
    assert !ExprEq(Is(a, b), IsNot(a, c)) && !ExprEq(IsNot(a, c), Is(a, b));
    hide ExprEq, Deduplicated;
    NoJoinWithUnit(And, Equal, a, b);
    DedupLeaves(And, Is(a, b), IsNot(a, c), Is(a, b));
    DedupLeaves(And, IsNot(a, c), Is(a, b), Is(a, b));
  }

  predicate Thirds(p: Symbol, q: Symbol, r: Symbol) {
    (p, q, r) in {(SymYes, SymNo, SymMod), (SymYes, SymMod, SymNo)}
  }

  /** Tests for two of y, m and n become one against the third, and that goes when a test for a constant follows. */
  lemma DedupEither(a: Symbol, p: Symbol, q: Symbol, r: Symbol, c: Symbol)
    requires a.Type() == Tri && Thirds(p, q, r) && c.Constant?
    ensures Deduplicated(Join(And, Join(Or, Is(a, p), Is(a, q)), Is(a, c))) == Is(a, c)
  {
    assert !ExprEq(Is(a, p), Is(a, q));
    assert JoinOperands(Or, Is(a, p), Is(a, q)) == Into(IsNot(a, r));
    assert EliminateYn(Join(Or, ExprNo, IsNot(a, r))) == IsNot(a, r);
    hide ExprEq, Deduplicated, JoinOperands, Passed, EliminateYn;
    var x := Join(Or, Is(a, p), Is(a, q));
    NoJoinWithUnit(Or, Unequal, a, r);
    PassedLeaves(Or, Is(a, p), Is(a, q), IsNot(a, r));
    NoJoinOfKinds(And, Passed(x).0, Is(a, c));
    DedupInside(And, x, Is(a, c));
    DedupForAndAgainst(a, c, r);
  }

  /** The symbol and a test against m become a test for y. */
  function YesFromMod(a: Symbol): Expr {
    Join(And, Sym(a), IsNot(a, SymMod))
  }

  /** ... also as an operand of a disjunction, which the first round leaves with that test. */
  lemma DedupYesFromMod(a: Symbol, x: Expr, z: Expr)
    requires a.Type() == Tri && !x.Join? && !z.Join?
    ensures Deduplicated(Join(And, Join(Or, YesFromMod(a), x), z))
         == Deduplicated(DropConstant(And, DropConstant(Or, Is(a, SymYes), x), z))
  {
    assert !ExprEq(Sym(a), IsNot(a, SymMod));
    assert JoinOperands(And, Sym(a), IsNot(a, SymMod)) == Into(Is(a, SymYes));
    hide ExprEq, Deduplicated, JoinOperands, Passed, EliminateYn, DropConstant;
    NoJoinWithUnit(And, Equal, a, SymYes);
    PassedLeaves(And, Sym(a), IsNot(a, SymMod), Is(a, SymYes));
    var inner := Join(And, ExprYes, Is(a, SymYes));
    NoJoinOfKinds(Or, inner, x);
    PassedInside(Or, YesFromMod(a), x);
    var middle := Join(Or, inner, x);
    NoJoinOfKinds(And, middle, z);
    DedupInside(And, Join(Or, YesFromMod(a), x), z);
    MiddleSimplified(a, x);
  }

  lemma MiddleSimplified(a: Symbol, x: Expr)
    requires !x.Join?
    ensures EliminateYn(Join(Or, Join(And, ExprYes, Is(a, SymYes)), x)) == DropConstant(Or, Is(a, SymYes), x)
  {
    var inner := Join(And, ExprYes, Is(a, SymYes));
    assert EliminateYn(x) == x;
    assert EliminateYn(inner.left) == ExprYes && EliminateYn(inner.right) == inner.right;
    assert EliminateYn(inner) == Is(a, SymYes);
  }

  // ---------- The sharp condition ----------

  /** The symbol is tested for these constants only, and no other tristate for any. */
  ghost predicate TestsOnly(e: Expr, a: Symbol, cs: set<Symbol>) {
    Constants(e, a) <= cs && forall s: Symbol | s.Type() == Tri && s != a :: Constants(e, s) == {}
  }

  /** The value is kept whatever value the symbol has. */
  ghost predicate KeptFor(env: Env, a: Symbol, e: Expr) {
    forall t: Tristate :: Eval(WithValue(env, a, t), Deduplicated(e)) == Eval(WithValue(env, a, t), e)
  }

  /** Deduplication keeps the value of every expression that tests a tristate for given constants only if and only if
      no two of the constants that can be derived from these denote the same value. */
  lemma DedupKeepsExactly(env: Env, a: Symbol, cs: set<Symbol>)
    requires ValidEnv(env) && a.Type() == Tri && forall c | c in cs :: c.Const()
    ensures (forall e | TestsOnly(e, a, cs) :: KeptFor(env, a, e)) <==> Apart(env, Derivable(cs))
  {
    hide Derivable, TestsOnly, KeptFor;
    if Apart(env, Derivable(cs)) {
      forall e | TestsOnly(e, a, cs) ensures KeptFor(env, a, e) {
        ApartKeeps(env, a, cs, e);
      }
    } else {
      var b, c :| b in Derivable(cs) && c in Derivable(cs) && b != c && Denoted(env, b).Denotes?
               && Denoted(env, b) == Denoted(env, c);
      var e := SameValueLost(env, a, cs, b, c);
      assert TestsOnly(e, a, cs) && !KeptFor(env, a, e);
    }
  }

  lemma ApartKeeps(env: Env, a: Symbol, cs: set<Symbol>, e: Expr)
    requires ValidEnv(env) && a.Type() == Tri && Apart(env, Derivable(cs)) && TestsOnly(e, a, cs)
    ensures KeptFor(env, a, e)
  {
    hide Derivable, Deduplicated;
    DeduplicatedKeeps(e);
    forall t: Tristate
      ensures Eval(WithValue(env, a, t), Deduplicated(e)) == Eval(WithValue(env, a, t), e)
    {
      var other := WithValue(env, a, t);
      forall s: Symbol | s.Type() == Tri ensures Apart(other, Derivable(Constants(e, s))) {
        ApartAnyway(env, a, t, Derivable(cs));
        DerivableGrows(Constants(e, s), cs, s == a);
        if s == a {
          ApartSubset(other, Derivable(Constants(e, s)), Derivable(cs));
        }
      }
    }
  }

  lemma DerivableGrows(few: set<Symbol>, more: set<Symbol>, within: bool)
    requires if within then few <= more else few == {}
    ensures if within then Derivable(few) <= Derivable(more) else Derivable(few) == {}
  {
  }

  /** What constants denote does not depend on the values of symbols. */
  lemma ApartAnyway(env: Env, a: Symbol, t: Tristate, cs: set<Symbol>)
    requires Apart(env, cs)
    ensures Apart(WithValue(env, a, t), cs)
  {
    forall c ensures Denoted(WithValue(env, a, t), c) == Denoted(env, c) {
    }
  }

  /** An expression over the constants that loses its value when a has the value that b and c denote. */
  lemma SameValueLost(env: Env, a: Symbol, cs: set<Symbol>, b: Symbol, c: Symbol) returns (e: Expr)
    requires ValidEnv(env) && a.Type() == Tri && forall c | c in cs :: c.Const()
    requires b in Derivable(cs) && c in Derivable(cs) && b != c
    requires Denoted(env, b).Denotes? && Denoted(env, b) == Denoted(env, c)
    ensures TestsOnly(e, a, cs) && !KeptFor(env, a, e)
  {
    if b in cs && c in cs {
      e := LostDirectly(env, a, b, c);
    } else if c in cs {
      e := LostByDerivation(env, a, cs, b, c);
    } else if b in cs {
      e := LostByDerivation(env, a, cs, c, b);
    } else {
      e := ExprYes;
      assert false;
    }
  }

  lemma Lost(env: Env, a: Symbol, e: Expr, t: Tristate)
    requires Eval(WithValue(env, a, t), Deduplicated(e)) != Eval(WithValue(env, a, t), e)
    ensures !KeptFor(env, a, e)
  {
  }

  lemma PairTests(op: Junction, l: Expr, r: Expr, a: Symbol, cs: set<Symbol>)
    requires TestsOnly(l, a, cs) && TestsOnly(r, a, cs)
    ensures TestsOnly(Join(op, l, r), a, cs)
  {
  }

  lemma LeafTests(e: Expr, a: Symbol, cs: set<Symbol>)
    requires e.Sym? || (e.Rel? && e.a == a && e.b in cs)
    ensures TestsOnly(e, a, cs)
  {
  }

  lemma LostDirectly(env: Env, a: Symbol, b: Symbol, c: Symbol) returns (e: Expr)
    requires ValidEnv(env) && a.Type() == Tri && b.Const() && c.Const() && b != c
    requires Denoted(env, b).Denotes? && Denoted(env, b) == Denoted(env, c)
    ensures TestsOnly(e, a, {b, c}) && !KeptFor(env, a, e)
  {
    hide Deduplicated;
    e := Join(And, Is(a, b), IsNot(a, c));
    DedupForAndAgainst(a, b, c);
    var other := WithValue(env, a, Denoted(env, b).t);
    DenotedEquals(other, a, b);
    DenotedEquals(other, a, c);
    assert Eval(other, e) == NO && Eval(other, Is(a, b)) == YES;
    Lost(env, a, e, Denoted(env, b).t);
    hide *;
    LeafTests(e.left, a, {b, c});
    LeafTests(e.right, a, {b, c});
    PairTests(And, e.left, e.right, a, {b, c});
  }

  lemma LostByDerivation(env: Env, a: Symbol, cs: set<Symbol>, b: Symbol, c: Symbol) returns (e: Expr)
    requires ValidEnv(env) && a.Type() == Tri && c in cs && c.Const() && b in Derivable(cs) && b !in cs
    requires Denoted(env, b).Denotes? && Denoted(env, b) == Denoted(env, c)
    ensures TestsOnly(e, a, cs) && !KeptFor(env, a, e)
  {
    assert b in {SymYes, SymMod, SymNo} && c.Constant?;
    if b == SymMod {
      e := LostMod(env, a, c);
    } else if b == SymNo {
      e := LostNo(env, a, c);
    } else {
      e := LostYes(env, a, c);
    }
  }

  lemma LostMod(env: Env, a: Symbol, c: Symbol) returns (e: Expr)
    requires ValidEnv(env) && a.Type() == Tri && c.Constant? && Denoted(env, c) == Denotes(MOD)
    ensures TestsOnly(e, a, {SymYes, SymNo, c}) && !KeptFor(env, a, e)
  {
    hide Deduplicated;
    e := Join(And, Join(Or, Is(a, SymYes), Is(a, SymNo)), Is(a, c));
    DedupEither(a, SymYes, SymNo, SymMod, c);
    var other := WithValue(env, a, MOD);
    DenotedEquals(other, a, SymYes);
    DenotedEquals(other, a, SymNo);
    DenotedEquals(other, a, c);
    assert Eval(other, Is(a, SymYes)) == NO && Eval(other, Is(a, SymNo)) == NO && Eval(other, Is(a, c)) == YES;
    assert Eval(other, e.left) == NO;
    Lost(env, a, e, MOD);
    hide *;
    LeafTests(e.left.left, a, {SymYes, SymNo, c});
    LeafTests(e.left.right, a, {SymYes, SymNo, c});
    LeafTests(e.right, a, {SymYes, SymNo, c});
    PairTests(Or, e.left.left, e.left.right, a, {SymYes, SymNo, c});
    PairTests(And, e.left, e.right, a, {SymYes, SymNo, c});
  }

  lemma YesFromModTests(a: Symbol, x: Expr, z: Expr, cs: set<Symbol>)
    requires SymMod in cs && (x.Sym? || (x.Rel? && x.a == a && x.b in cs)) && z.Rel? && z.a == a && z.b in cs
    ensures TestsOnly(Join(And, Join(Or, YesFromMod(a), x), z), a, cs)
  {
    var y := YesFromMod(a);
    hide TestsOnly;
    LeafTests(y.left, a, cs);
    LeafTests(y.right, a, cs);
    PairTests(And, y.left, y.right, a, cs);
    LeafTests(x, a, cs);
    PairTests(Or, y, x, a, cs);
    LeafTests(z, a, cs);
    PairTests(And, Join(Or, y, x), z, a, cs);
  }

  lemma LostNo(env: Env, a: Symbol, c: Symbol) returns (e: Expr)
    requires ValidEnv(env) && a.Type() == Tri && c.Constant? && Denoted(env, c) == Denotes(NO)
    ensures TestsOnly(e, a, {SymMod, c}) && !KeptFor(env, a, e)
  {
    hide Deduplicated;
    e := Join(And, Join(Or, YesFromMod(a), Is(a, SymMod)), Is(a, c));
    DedupYesFromMod(a, Is(a, SymMod), Is(a, c));
    DedupEither(a, SymYes, SymMod, SymNo, c);
    var other := WithValue(env, a, NO);
    DenotedEquals(other, a, SymMod);
    DenotedEquals(other, a, c);
    assert Eval(other, Sym(a)) == NO && Eval(other, Is(a, SymMod)) == NO && Eval(other, Is(a, c)) == YES;
    assert Eval(other, YesFromMod(a)) == NO;
    assert Eval(other, e.left) == NO;
    Lost(env, a, e, NO);
    YesFromModTests(a, e.left.right, e.right, {SymMod, c});
  }

  lemma LostYes(env: Env, a: Symbol, c: Symbol) returns (e: Expr)
    requires ValidEnv(env) && a.Type() == Tri && c.Constant? && Denoted(env, c) == Denotes(YES)
    ensures TestsOnly(e, a, {SymMod, c}) && !KeptFor(env, a, e)
  {
    hide Deduplicated;
    e := Join(And, Join(Or, YesFromMod(a), ExprNo), IsNot(a, c));
    DedupYesFromMod(a, ExprNo, IsNot(a, c));
    DedupForAndAgainst(a, SymYes, c);
    var other := WithValue(env, a, YES);
    DenotedEquals(other, a, SymMod);
    DenotedEquals(other, a, SymYes);
    DenotedEquals(other, a, c);
    assert Eval(other, IsNot(a, c)) == NO && Eval(other, Is(a, SymYes)) == YES;
    assert Eval(other, e) == NO;
    Lost(env, a, e, YES);
    YesFromModTests(a, e.left.right, e.right, {SymMod, c});
  }

  // ---------- Two inputs ----------

  /** (a="1") && (a!=m) is n for a = m and comes out as (a="1"), which is y. */
  method DedupMistakesNumerals(dedup: Deduplicator, id: nat) returns (r: Expr)
    modifies dedup
    ensures var env, a := NumeralEnv(MOD), Config(id, Tri);
            var e := Join(And, Is(a, Constant("1")), IsNot(a, SymMod));
            ValidEnv(env) && r == e.left && Eval(env, e) == NO && Eval(env, r) == YES
  {
    JoinMistakesNumerals(id);
    var a := Config(id, Tri);
    DedupForAndAgainst(a, Constant("1"), SymMod);
    r := dedup.EliminateDups(Join(And, Is(a, Constant("1")), IsNot(a, SymMod)));
  }

  /** ((a=y) || (a=m)) && (a="0"), whose constants all denote different values, is n for a = n and comes out as
      (a="0"), which is y. */
  method DedupMistakesDerivedTests(dedup: Deduplicator, id: nat) returns (r: Expr)
    modifies dedup
    ensures var env, a := NumeralEnv(NO), Config(id, Tri);
            var e := Join(And, Join(Or, Is(a, SymYes), Is(a, SymMod)), Is(a, Constant("0")));
            && ValidEnv(env) && Apart(env, Constants(e, a))
            && r == e.right && Eval(env, e) == NO && Eval(env, r) == YES
  {
    hide Apart, Constants, Eval, Deduplicated;
    JoinMistakesDerivedTests(id);
    var a := Config(id, Tri);
    DedupEither(a, SymYes, SymMod, SymNo, Constant("0"));
    r := dedup.EliminateDups(Join(And, Join(Or, Is(a, SymYes), Is(a, SymMod)), Is(a, Constant("0"))));
  }
}
