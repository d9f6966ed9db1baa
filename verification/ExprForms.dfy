/** What equality after simplification means: the same tree, with the operands of every chain of one connective
    taken as often as they occur, in any order and any grouping. */
module ExprForms {
  import opened Tristates
  import opened Exprs
  import opened ExprEquality

  /** An expression without the order and grouping of operands. */
  datatype Form = Atom(e: Expr) | Inverse(f: Form) | Chain(op: Junction, parts: multiset<Form>)

  function FormOf(e: Expr): Form
    decreases Size(e), 1
  {
    match e
    case Not(x) => Inverse(FormOf(x))
    case Join(op, _, _) => Chain(op, Parts(op, e))
    case _ => Atom(e)
  }

  /** The forms of the operands other than y and n. */
  function Parts(op: Junction, e: Expr): multiset<Form>
    decreases Size(e), if Joins(op, e) then 0 else 2
  {
    if Joins(op, e) then Parts(op, e.left) + Parts(op, e.right)
    else if IsConstant(e) then multiset{}
    else multiset{FormOf(e)}
  }

  /** No join has y or n as an operand, below negations neither. */
  predicate Clean(e: Expr) {
    match e
    case Not(x) => Clean(x)
    case Join(_, l, r) => !IsConstant(l) && !IsConstant(r) && Clean(l) && Clean(r)
    case _ => true
  }

  /** A chain of `op` whose operands are clean; y and n may be among them. */
  predicate Flat(op: Junction, e: Expr) {
    if Joins(op, e) then Flat(op, e.left) && Flat(op, e.right) else Clean(e)
  }

  /** The constant that decides the whole chain. */
  function ZeroExpr(op: Junction): Expr {
    UnitExpr(op.Dual())
  }

  predicate HasZero(op: Junction, e: Expr) {
    if Joins(op, e) then HasZero(op, e.left) || HasZero(op, e.right) else e == ZeroExpr(op)
  }

  lemma {:induction false} CleanIsFlat(op: Junction, e: Expr)
    requires Clean(e)
    ensures Flat(op, e) && (!IsConstant(e) ==> !HasZero(op, e))
  {
    if Joins(op, e) {
      CleanIsFlat(op, e.left);
      CleanIsFlat(op, e.right);
    }
  }

  lemma {:induction false} CleanStays(e: Expr)
    requires Clean(e)
    ensures EliminateYn(e) == e
  {
    if e.Join? {
      CleanStays(e.left);
      CleanStays(e.right);
    }
  }

  lemma {:induction false} ConstantsAreNoParts(op: Junction, e: Expr)
    ensures Atom(ExprYes) !in Parts(op, e) && Atom(ExprNo) !in Parts(op, e)
    decreases e
  {
    if Joins(op, e) {
      ConstantsAreNoParts(op, e.left);
      ConstantsAreNoParts(op, e.right);
    }
  }

  // ---------- Cancellation ----------

  lemma LoneOperand(op: Junction, x: Expr)
    requires !Joins(op, x) && Clean(x)
    ensures Flat(op, x) && (!IsConstant(x) ==> !HasZero(op, x))
    ensures Parts(op, x) == if IsConstant(x) then multiset{} else multiset{FormOf(x)}
    ensures IsConstant(x) ==> FormOf(x) == Atom(x)
  {
  }

  lemma UnitChain(op: Junction)
    ensures Flat(op, UnitExpr(op)) && !HasZero(op, UnitExpr(op)) && Parts(op, UnitExpr(op)) == multiset{}
  {
  }

  /** Taking one operand out of a chain: it goes once if it is there. */
  predicate TakenOut(op: Junction, x: Expr, e: Expr, r: (Expr, Expr)) {
    && Flat(op, r.1) && HasZero(op, r.1) == HasZero(op, e)
    && if FormOf(x) in Parts(op, e) then r.0 == UnitExpr(op) && Parts(op, r.1) == Parts(op, e) - multiset{FormOf(x)}
       else r == (x, e)
  }

  lemma CancelLeaves(op: Junction, x: Expr, y: Expr)
    requires !Joins(op, x) && !Joins(op, y) && Clean(x) && Clean(y) && (ExprEq(x, y) <==> FormOf(x) == FormOf(y))
    ensures TakenOut(op, x, y, CancelEqual(op, x, y))
  {
    assert CancelEqual(op, x, y)
        == if (x == y && IsConstant(x)) || !ExprEq(x, y) then (x, y) else (UnitExpr(op), UnitExpr(op));
    hide CancelEqual, ExprEq, Clean, FormOf, Parts, HasZero, Flat, IsConstant;
    LoneOperand(op, y);
    UnitChain(op);
    SameConstant(x, y);
    if !IsConstant(y) && FormOf(x) == FormOf(y) {
      assert CancelEqual(op, x, y) == (UnitExpr(op), UnitExpr(op));
      assert multiset{FormOf(y)} - multiset{FormOf(x)} == multiset{};
    } else {
      assert CancelEqual(op, x, y) == (x, y);
      assert FormOf(x) !in Parts(op, y);
    }
  }

  lemma SameConstant(x: Expr, y: Expr)
    ensures IsConstant(y) && FormOf(x) == FormOf(y) ==> x == y
    ensures IsConstant(x) && FormOf(x) == FormOf(y) ==> x == y
  {
  }

  lemma TakenFork(op: Junction, x: Expr, e: Expr, first: (Expr, Expr), second: (Expr, Expr))
    requires Joins(op, e) && TakenOut(op, x, e.left, first) && TakenOut(op, first.0, e.right, second)
    ensures TakenOut(op, x, e, (second.0, Join(op, first.1, second.1)))
  {
    var a, b := Parts(op, e.left), Parts(op, e.right);
    var r := Join(op, first.1, second.1);
    assert Parts(op, e) == a + b && Parts(op, r) == Parts(op, first.1) + Parts(op, second.1);
    assert Flat(op, r) && HasZero(op, r) == HasZero(op, e);
    assert FormOf(UnitExpr(op)) == Atom(UnitExpr(op));
    hide Parts, Flat, HasZero, FormOf;
    RemoveFromSum(FormOf(x), a, b);
    if FormOf(x) in a {
      ConstantsAreNoParts(op, e.right);
      assert second == (UnitExpr(op), e.right);
    }
  }

  lemma RemoveFromSum(x: Form, a: multiset<Form>, b: multiset<Form>)
    ensures x in a ==> (a - multiset{x}) + b == (a + b) - multiset{x}
    ensures x in b ==> a + (b - multiset{x}) == (a + b) - multiset{x}
    ensures x in a + b <==> x in a || x in b
  {
  }

  lemma {:induction false} CancelOne(op: Junction, x: Expr, e: Expr)
    requires !Joins(op, x) && Clean(x) && Flat(op, e)
    ensures TakenOut(op, x, e, CancelEqual(op, x, e))
    decreases Size(x) + Size(e), if Joins(op, e) then 0 else 3, 0
  {
    hide CancelEqual, ExprEq, TakenOut;
    if Joins(op, e) {
      CancelRightFork(op, x, e);
      CancelOne(op, x, e.left);
      var first := CancelEqual(op, x, e.left);
      TakenIsClean(op, x, e.left, first);
      CancelOne(op, first.0, e.right);
      TakenFork(op, x, e, first, CancelEqual(op, first.0, e.right));
    } else {
      ExprEqIsForm(x, e);
      CancelLeaves(op, x, e);
    }
  }

  lemma TakenIsClean(op: Junction, x: Expr, e: Expr, r: (Expr, Expr))
    requires !Joins(op, x) && Clean(x) && TakenOut(op, x, e, r)
    ensures !Joins(op, r.0) && Clean(r.0) && Size(r.0) <= Size(x)
  {
  }

  /** The two sides of a cancellation and what remains of them. */
  predicate Cancelled(op: Junction, e1: Expr, e2: Expr, r: (Expr, Expr)) {
    && Flat(op, r.0) && HasZero(op, r.0) == HasZero(op, e1)
    && Flat(op, r.1) && HasZero(op, r.1) == HasZero(op, e2)
    && Parts(op, r.0) == Parts(op, e1) - Parts(op, e2)
    && Parts(op, r.1) == Parts(op, e2) - Parts(op, e1)
  }

  /** Cancellation is one-to-one: what remains on either side is the difference of the two collections. */
  lemma {:induction false} CancelParts(op: Junction, e1: Expr, e2: Expr)
    requires Flat(op, e1) && Flat(op, e2)
    ensures Cancelled(op, e1, e2, CancelEqual(op, e1, e2))
    decreases Size(e1) + Size(e2), if Joins(op, e1) || Joins(op, e2) then 0 else 3, 1
  {
    hide CancelEqual, ExprEq;
    if Joins(op, e1) {
      CancelLeftFork(op, e1, e2);
      CancelParts(op, e1.left, e2);
      var first := CancelEqual(op, e1.left, e2);
      CancelParts(op, e1.right, first.1);
      CancelledFork(op, e1, e2, first, CancelEqual(op, e1.right, first.1));
    } else {
      CancelOne(op, e1, e2);
      OnePart(op, e1, e2, CancelEqual(op, e1, e2));
    }
  }

  lemma CancelledFork(op: Junction, e1: Expr, e2: Expr, first: (Expr, Expr), second: (Expr, Expr))
    requires Joins(op, e1) && Cancelled(op, e1.left, e2, first) && Cancelled(op, e1.right, first.1, second)
    ensures Cancelled(op, e1, e2, (Join(op, first.0, second.0), second.1))
  {
    Differences(Parts(op, e1.left), Parts(op, e1.right), Parts(op, e2));
  }

  lemma OnePart(op: Junction, x: Expr, e: Expr, r: (Expr, Expr))
    requires !Joins(op, x) && Clean(x) && Flat(op, e) && TakenOut(op, x, e, r)
    ensures Cancelled(op, x, e, r)
  {
    hide Clean, FormOf, Parts, HasZero, Flat, IsConstant;
    LoneOperand(op, x);
    UnitChain(op);
    if IsConstant(x) {
      ConstantsNotTaken(op, x, e);
    }
    RemoveOne(FormOf(x), Parts(op, e));
  }

  lemma ConstantsNotTaken(op: Junction, x: Expr, e: Expr)
    requires IsConstant(x)
    ensures FormOf(x) !in Parts(op, e)
  {
    ConstantsAreNoParts(op, e);
  }

  lemma RemoveOne(x: Form, m: multiset<Form>)
    ensures x in m ==> multiset{x} - m == multiset{}
    ensures x !in m ==> multiset{x} - m == multiset{x} && m - multiset{x} == m
    ensures multiset{} - m == multiset{} && m - multiset{} == m
  {
  }

  lemma Differences(a: multiset<Form>, b: multiset<Form>, c: multiset<Form>)
    ensures (a - c) + (b - (c - a)) == (a + b) - c
    ensures (c - a) - b == c - (a + b)
  {
  }

  // ---------- Constant elimination ----------

  /** A chain without constants: its zero if it had one, its unit if nothing else was left, and otherwise no
      constant, and no single operand unless that is all there was. */
  predicate Eliminated(op: Junction, zero: bool, parts: multiset<Form>, r: Expr) {
    if zero then r == ZeroExpr(op)
    else if parts == multiset{} then r == UnitExpr(op)
    else !IsConstant(r) && (!Joins(op, r) ==> parts == multiset{FormOf(r)})
  }

  lemma {:induction false} EliminateYnFlat(op: Junction, e: Expr)
    requires Flat(op, e)
    ensures Eliminated(op, HasZero(op, e), Parts(op, e), EliminateYn(e))
  {
    if Joins(op, e) {
      EliminateYnFlat(op, e.left);
      EliminateYnFlat(op, e.right);
      hide Eliminated, DropConstant;
      EliminateFork(op, HasZero(op, e.left), Parts(op, e.left), EliminateYn(e.left),
                    HasZero(op, e.right), Parts(op, e.right), EliminateYn(e.right));
    } else {
      CleanStays(e);
      hide EliminateYn;
      assert IsConstant(e) ==> e == ZeroExpr(op) || e == UnitExpr(op);
    }
  }

  lemma EliminateFork(op: Junction, z: bool, a: multiset<Form>, l: Expr, y: bool, b: multiset<Form>, r: Expr)
    requires Eliminated(op, z, a, l) && Eliminated(op, y, b, r)
    ensures Eliminated(op, z || y, a + b, DropConstant(op, l, r))
  {
    Dropped(op, l, r);
    SumEmpty(a, b);
    hide FormOf, DropConstant, IsConstant;
  }

  lemma Dropped(op: Junction, l: Expr, r: Expr)
    ensures var e := DropConstant(op, l, r);
            && (l == ZeroExpr(op) || r == ZeroExpr(op) ==> e == ZeroExpr(op))
            && (l == UnitExpr(op) ==> e == r)
            && (r == UnitExpr(op) ==> e == l)
            && (!IsConstant(l) && !IsConstant(r) ==> e == Join(op, l, r))
    ensures IsConstant(l) <==> l == ZeroExpr(op) || l == UnitExpr(op)
    ensures IsConstant(r) <==> r == ZeroExpr(op) || r == UnitExpr(op)
    ensures ZeroExpr(op) != UnitExpr(op) && !IsConstant(Join(op, l, r))
  {
  }

  lemma SumEmpty(a: multiset<Form>, b: multiset<Form>)
    ensures a + b == multiset{} <==> a == multiset{} && b == multiset{}
    ensures a == multiset{} ==> a + b == b
    ensures b == multiset{} ==> a + b == a
  {
    if a + b == multiset{} {
      forall x ensures a[x] == 0 && b[x] == 0 {
        assert (a + b)[x] == 0;
      }
    }
  }

  // ---------- Equality ----------

  /** Two chains of a connective with clean operands are equal exactly when both contain its zero, or neither does
      and they have operands of the same forms as often. */
  lemma {:induction false} ChainsEqual(op: Junction, e1: Expr, e2: Expr)
    requires Joins(op, e1) && Joins(op, e2) && Flat(op, e1) && Flat(op, e2)
    ensures ExprEq(e1, e2)
       <==> if HasZero(op, e1) || HasZero(op, e2) then HasZero(op, e1) && HasZero(op, e2)
            else Parts(op, e1) == Parts(op, e2)
    decreases Size(e1) + Size(e2), 0, 2
  {
    var p := CancelEqual(op, e1, e2);
    CancelParts(op, e1, e2);
    EliminateYnFlat(op, p.0);
    EliminateYnFlat(op, p.1);
    var r := EliminateEq(e1, e2);
    assert r == (EliminateYn(p.0), EliminateYn(p.1));
    assert ExprEq(e1, e2) <==> r.0.Sym? && r.0 == r.1;
    hide CancelEqual, EliminateEq, ExprEq, EliminateYn, Flat;
    var a, b := Parts(op, e1), Parts(op, e2);
    if !HasZero(op, e1) && !HasZero(op, e2) {
      SameCounts(a, b);
      if r.0.Sym? && r.0 == r.1 {
        InBothDifferences(a, b, FormOf(r.0));
      }
    }
  }

  lemma InBothDifferences(a: multiset<Form>, b: multiset<Form>, x: Form)
    ensures !(a - b == multiset{x} && b - a == multiset{x})
  {
    assert (a - b)[x] == 0 || (b - a)[x] == 0;
    assert multiset{x}[x] == 1;
  }

  lemma SameCounts(a: multiset<Form>, b: multiset<Form>)
    ensures a - b == multiset{} && b - a == multiset{} <==> a == b
  {
    if a - b == multiset{} && b - a == multiset{} {
      forall x ensures a[x] == b[x] {
        assert (a - b)[x] == 0 && (b - a)[x] == 0;
      }
    }
  }

  /** Clean expressions are equal if and only if they have the same form, however deeply they are nested. */
  lemma {:induction false} ExprEqIsForm(e1: Expr, e2: Expr)
    requires Clean(e1) && Clean(e2)
    ensures ExprEq(e1, e2) <==> FormOf(e1) == FormOf(e2)
    decreases Size(e1) + Size(e2), 2, 0
  {
    if e1.Not? && e2.Not? {
      ExprEqIsForm(e1.e, e2.e);
    } else if e1.Join? && Joins(e1.op, e2) {
      CleanIsFlat(e1.op, e1);
      CleanIsFlat(e1.op, e2);
      ChainsEqual(e1.op, e1, e2);
    }
  }

  /** So equality is an equivalence on clean expressions. */
  lemma ExprEqIsEquivalence(x: Expr, y: Expr, z: Expr)
    requires Clean(x) && Clean(y) && Clean(z)
    ensures ExprEq(x, x)
    ensures ExprEq(x, y) ==> ExprEq(y, x)
    ensures ExprEq(x, y) && ExprEq(y, z) ==> ExprEq(x, z)
  {
    hide ExprEq;
    ExprEqIsForm(x, x);
    ExprEqIsForm(x, y);
    ExprEqIsForm(y, x);
    ExprEqIsForm(y, z);
    ExprEqIsForm(x, z);
  }

  /** Without that condition equality is none: (A && y) || B is equal to A || B, for what is left once B is cancelled
      is simplified to A on both sides, yet A && y is not equal to A. */
  lemma UncleanEquality(a: nat, b: nat, ty: SymbolType)
    requires a != b
    ensures var x, y := Sym(Config(a, ty)), Sym(Config(b, ty));
            && ExprEq(Join(Or, Join(And, x, ExprYes), y), Join(Or, x, y))
            && !ExprEq(Join(And, x, ExprYes), x)
  {
    var x, y := Sym(Config(a, ty)), Sym(Config(b, ty));
    var z := Join(And, x, ExprYes);
    var left, right := Join(Or, z, y), Join(Or, x, y);
    assert !ExprEq(z, x) && !ExprEq(z, y) && !ExprEq(y, x) && ExprEq(y, y);
    CancelLeftFork(Or, left, right);
    CancelRightFork(Or, z, right);
    CancelRightFork(Or, y, right);
    assert CancelEqual(Or, z, x) == (z, x) && CancelEqual(Or, z, y) == (z, y) && CancelEqual(Or, y, x) == (y, x);
    assert CancelEqual(Or, y, y) == (ExprNo, ExprNo);
    assert CancelEqual(Or, left, right) == (Join(Or, z, ExprNo), Join(Or, x, ExprNo));
    assert EliminateYn(z) == x && EliminateYn(ExprNo) == ExprNo;
    assert EliminateYn(Join(Or, z, ExprNo)) == x && EliminateYn(Join(Or, x, ExprNo)) == x;
  }

  // ---------- The superset test ----------

  /** Cancelling a whole expression, no chain of the connective, against a chain. */
  lemma {:induction false} CancelWhole(op: Junction, e1: Expr, e2: Expr)
    requires Flat(op, e1) && Clean(e2) && !Joins(op, e2)
    ensures var r := CancelEqual(op, e1, e2);
            if FormOf(e2) in Parts(op, e1) then r.1 == UnitExpr(op) else r == (e1, e2)
    decreases e1
  {
    hide CancelEqual, ExprEq;
    if Joins(op, e1) {
      CancelLeftFork(op, e1, e2);
      CancelWhole(op, e1.left, e2);
      var first := CancelEqual(op, e1.left, e2);
      CancelWhole(op, e1.right, first.1);
      ConstantsAreNoParts(op, e1.right);
      assert FormOf(UnitExpr(op)) == Atom(UnitExpr(op));
    } else {
      ExprEqIsForm(e1, e2);
      CancelWholeLeaf(op, e1, e2);
    }
  }

  lemma CancelWholeLeaf(op: Junction, x: Expr, y: Expr)
    requires !Joins(op, x) && !Joins(op, y) && Clean(x) && (ExprEq(x, y) <==> FormOf(x) == FormOf(y))
    ensures CancelEqual(op, x, y)
         == if FormOf(y) in Parts(op, x) then (UnitExpr(op), UnitExpr(op)) else (x, y)
  {
    assert CancelEqual(op, x, y)
        == if (x == y && IsConstant(x)) || !ExprEq(x, y) then (x, y) else (UnitExpr(op), UnitExpr(op));
    hide CancelEqual, ExprEq;
    SameConstant(x, y);
    LoneOperand(op, x);
  }

  /** Nothing that is no zero of a disjunction comes out of constant elimination as y. */
  lemma NoZeroNoYes(e: Expr)
    requires Flat(Or, e) && !HasZero(Or, e)
    ensures EliminateYn(e) != ExprYes
  {
    hide EliminateYn;
    EliminateYnFlat(Or, e);
  }

  lemma {:induction false} ChainHasTwo(op: Junction, e: Expr)
    requires Joins(op, e) && Clean(e)
    ensures |Parts(op, e)| >= 2
  {
    ChainHasOne(op, e.left);
    ChainHasOne(op, e.right);
  }

  lemma {:induction false} ChainHasOne(op: Junction, e: Expr)
    requires Clean(e) && !IsConstant(e)
    ensures |Parts(op, e)| >= 1
    decreases e
  {
    if Joins(op, e) {
      ChainHasOne(op, e.left);
      ChainHasOne(op, e.right);
    }
  }

  /** Cancelling a single expression out of a conjunction leaves some of it. */
  lemma OneIsNotAll(x: Expr, e: Expr)
    requires !Joins(And, x) && Clean(x) && Joins(And, e) && Clean(e)
    ensures EliminateYn(CancelEqual(And, x, e).1) != ExprYes
  {
    hide CancelEqual, EliminateYn;
    CleanIsFlat(And, e);
    CancelOne(And, x, e);
    ChainHasTwo(And, e);
    var r := CancelEqual(And, x, e).1;
    EliminateYnFlat(And, r);
    assert |Parts(And, r)| >= 1;
  }

  /** The second round does nothing for a disjunction either. */
  lemma DisjunctionStays(x: Expr, e: Expr)
    requires !Joins(Or, x) && Clean(x) && Joins(Or, e) && Clean(e)
    ensures EliminateYn(CancelEqual(Or, x, e).1) != ExprYes
  {
    hide CancelEqual, EliminateYn;
    CleanIsFlat(Or, e);
    CancelOne(Or, x, e);
    NoZeroNoYes(CancelEqual(Or, x, e).1);
  }

  /** Nothing of the second of two clean expressions is left by cancellation if and only if it is y, or the first is a
      conjunction that has every operand of the second, taken as a conjunction, as often. */
  lemma SupersetIsParts(e1: Expr, e2: Expr)
    requires Clean(e1) && Clean(e2)
    ensures EliminateEq(e1, e2).1 == ExprYes
       <==> e2 == ExprYes || (e2 != ExprNo && Joins(And, e1) && Parts(And, e2) <= Parts(And, e1))
  {
    hide CancelEqual, EliminateYn, ExprEq, FormOf;
    CleanStays(e2);
    if Joins(And, e1) {
      SupersetOfConjunction(e1, e2);
    } else if Joins(Or, e1) {
      SupersetOfDisjunction(e1, e2);
    } else if Joins(And, e2) {
      OneIsNotAll(e1, e2);
    } else if Joins(Or, e2) {
      DisjunctionStays(e1, e2);
    }
  }

  lemma SupersetOfConjunction(e1: Expr, e2: Expr)
    requires Joins(And, e1) && Clean(e1) && Clean(e2)
    ensures EliminateEq(e1, e2).1 == ExprYes
       <==> e2 == ExprYes || (e2 != ExprNo && Parts(And, e2) <= Parts(And, e1))
  {
    var p := CancelEqual(And, e1, e2);
    assert Joins(And, p.0) && (Joins(And, e2) ==> Joins(And, p.1));
    hide CancelEqual, EliminateYn, ExprEq, FormOf, Parts;
    CleanIsFlat(And, e1);
    if Joins(Or, e2) {
      CancelWhole(And, e1, e2);
      LoneOperand(And, e2);
      OneInAll(FormOf(e2), Parts(And, e1));
      if FormOf(e2) !in Parts(And, e1) {
        DisjunctionStays(e1, e2);
      } else {
        CleanStays(UnitExpr(And));
      }
    } else {
      if !Joins(And, e2) {
        CancelWhole(And, e1, e2);
      }
      assert EliminateEq(e1, e2).1 == EliminateYn(p.1);
      ConjunctionLeft(e1, e2);
    }
  }

  lemma ConjunctionLeft(e1: Expr, e2: Expr)
    requires Joins(And, e1) && Clean(e1) && Clean(e2)
    ensures EliminateYn(CancelEqual(And, e1, e2).1) == ExprYes
       <==> e2 == ExprYes || (e2 != ExprNo && Parts(And, e2) <= Parts(And, e1))
  {
    hide CancelEqual, EliminateYn, ExprEq, FormOf;
    CleanIsFlat(And, e1);
    CleanIsFlat(And, e2);
    CancelParts(And, e1, e2);
    EliminateYnFlat(And, CancelEqual(And, e1, e2).1);
    assert IsConstant(e2) ==> Parts(And, e2) == multiset{};
    hide Parts;
    Subset(Parts(And, e2), Parts(And, e1));
  }

  lemma OneInAll(x: Form, m: multiset<Form>)
    ensures multiset{x} <= m <==> x in m
  {
    assert multiset{x}[x] == 1;
  }

  lemma SupersetOfDisjunction(e1: Expr, e2: Expr)
    requires Joins(Or, e1) && Clean(e1) && Clean(e2)
    ensures EliminateEq(e1, e2).1 == ExprYes <==> e2 == ExprYes
  {
    var p := CancelEqual(Or, e1, e2);
    assert Joins(Or, p.0) && (Joins(Or, e2) ==> Joins(Or, p.1));
    hide CancelEqual, EliminateYn, ExprEq, FormOf;
    CleanIsFlat(Or, e1);
    CleanIsFlat(Or, e2);
    CleanStays(e2);
    if Joins(Or, e2) {
      CancelParts(Or, e1, e2);
      assert EliminateEq(e1, e2).1 == EliminateYn(p.1);
      NoZeroNoYes(p.1);
    } else {
      CancelWhole(Or, e1, e2);
      CleanStays(UnitExpr(Or));
      ConstantsNotTakenYes(e1);
      if p == (e1, e2) && Joins(And, e2) {
        OneIsNotAll(e1, e2);
      }
    }
  }

  lemma ConstantsNotTakenYes(e: Expr)
    ensures FormOf(ExprYes) !in Parts(Or, e)
  {
    ConstantsNotTaken(Or, ExprYes, e);
  }

  lemma Subset(a: multiset<Form>, b: multiset<Form>)
    ensures a - b == multiset{} <==> a <= b
  {
    if a - b == multiset{} {
      forall x ensures a[x] <= b[x] {
        assert (a - b)[x] == 0;
      }
    }
  }
}
