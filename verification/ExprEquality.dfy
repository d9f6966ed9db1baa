/** Constant elimination, structural equality up to reordering, and cancellation of common operands. */
module ExprEquality {
  import opened Tristates
  import opened Exprs

  // ---------- Elimination of y and n operands ----------

  /** One join node whose operands are already free of constants. */
  function DropConstant(op: Junction, l: Expr, r: Expr): Expr {
    if l == UnitExpr(op.Dual()) then l
    else if l == UnitExpr(op) then r
    else if r == UnitExpr(op.Dual()) then r
    else if r == UnitExpr(op) then l
    else Join(op, l, r)
  }

  function EliminateYn(e: Expr): Expr {
    match e
    case Join(op, l, r) => DropConstant(op, EliminateYn(l), EliminateYn(r))
    case _ => e
  }

  predicate IsConstant(e: Expr) {
    e == ExprYes || e == ExprNo
  }

  /** No join has y or n as an operand.  Subterms of negations are not looked at. */
  predicate YnFree(e: Expr) {
    e.Join? ==> !IsConstant(e.left) && !IsConstant(e.right) && YnFree(e.left) && YnFree(e.right)
  }

  function Leaves(e: Expr): (n: nat)
    ensures n >= 1
  {
    match e
    case Join(_, l, r) => Leaves(l) + Leaves(r)
    case Not(x) => Leaves(x)
    case _ => 1
  }

  lemma {:induction false} EliminateYnSound(env: Env, e: Expr)
    requires ValidEnv(env)
    ensures Eval(env, EliminateYn(e)) == Eval(env, e)
  {
    if e.Join? {
      EliminateYnSound(env, e.left);
      EliminateYnSound(env, e.right);
    }
  }

  /** Constant elimination ends without constant operands, changes nothing when there is none, and otherwise
      loses a leaf. */
  lemma {:induction false} EliminateYnShape(e: Expr)
    ensures YnFree(EliminateYn(e))
    ensures YnFree(e) ==> EliminateYn(e) == e
    ensures !YnFree(e) ==> Leaves(EliminateYn(e)) < Leaves(e)
  {
    if e.Join? {
      EliminateYnShape(e.left);
      EliminateYnShape(e.right);
    }
  }

  // ---------- Equality and cancellation ----------

  function Size(e: Expr): (n: nat)
    ensures n >= 1
  {
    match e
    case Join(_, l, r) => 1 + Size(l) + Size(r)
    case Not(x) => 1 + Size(x)
    case _ => 1
  }

  predicate Joins(op: Junction, e: Expr) {
    e.Join? && e.op == op
  }

  /** Compares every `op`-operand of the first expression with every `op`-operand of the second, and
      replaces each pair of equal operands by the unit of `op` on both sides. */
  function CancelEqual(op: Junction, e1: Expr, e2: Expr): (r: (Expr, Expr))
    ensures Size(r.0) <= Size(e1) && Size(r.1) <= Size(e2)
    ensures Joins(op, e1) ==> Joins(op, r.0)
    ensures Joins(op, e2) ==> Joins(op, r.1)
    decreases Size(e1) + Size(e2), if Joins(op, e1) || Joins(op, e2) then 0 else 3
  {
    if Joins(op, e1) then
      var first := CancelEqual(op, e1.left, e2);
      var second := CancelEqual(op, e1.right, first.1);
      (Join(op, first.0, second.0), second.1)
    else if Joins(op, e2) then
      var first := CancelEqual(op, e1, e2.left);
      var second := CancelEqual(op, first.0, e2.right);
      (second.0, Join(op, first.1, second.1))
    else if e1 == e2 && IsConstant(e1) then (e1, e2)
    else if !ExprEq(e1, e2) then (e1, e2)
    else (UnitExpr(op), UnitExpr(op))
  }

  /** Removes the operands common to two expressions: first those of the first one's root connective, then,
      if the second one's root is a different connective, those of that one. */
  function EliminateEq(e1: Expr, e2: Expr): (Expr, Expr)
    decreases Size(e1) + Size(e2), 1
  {
    var p := if e1.Join? then CancelEqual(e1.op, e1, e2) else (e1, e2);
    var q := if p.1.Join? && !Joins(p.1.op, p.0) then CancelEqual(p.1.op, p.0, p.1) else p;
    (EliminateYn(q.0), EliminateYn(q.1))
  }

  /** Equality after minor simplification; operands may come in any order. */
  predicate ExprEq(e1: Expr, e2: Expr)
    decreases Size(e1) + Size(e2), 2
  {
    if e1.Not? && e2.Not? then ExprEq(e1.e, e2.e)
    else if e1.Join? && e2.Join? then
      e1.op == e2.op &&
      var r := EliminateEq(e1, e2);
      r.0.Sym? && r.0 == r.1
    else e1 == e2
  }

  // The recursion of the cancellation, node by node.

  lemma CancelLeftFork(op: Junction, e1: Expr, e2: Expr)
    requires Joins(op, e1)
    ensures var first := CancelEqual(op, e1.left, e2);
            var second := CancelEqual(op, e1.right, first.1);
            CancelEqual(op, e1, e2) == (Join(op, first.0, second.0), second.1)
  {
  }

  lemma CancelRightFork(op: Junction, x: Expr, e: Expr)
    requires !Joins(op, x) && Joins(op, e)
    ensures var first := CancelEqual(op, x, e.left);
            var second := CancelEqual(op, first.0, e.right);
            CancelEqual(op, x, e) == (second.0, Join(op, first.1, second.1))
  {
  }

  lemma CombineInterchange(op: Junction, l: Tristate, r: Tristate, x: Tristate, a: Tristate, b: Tristate)
    ensures Combine(op, Combine(op, l, a), Combine(op, r, b)) == Combine(op, Combine(op, l, r), Combine(op, a, b))
    ensures Combine(op, Combine(op, x, b), a) == Combine(op, x, Combine(op, a, b))
  {
  }

  /** Cancellation takes the same quantity out of both sides: some value that, put back, restores both. */
  lemma {:induction false} CancelEqualSound(env: Env, op: Junction, e1: Expr, e2: Expr) returns (taken: Tristate)
    requires ValidEnv(env)
    ensures Eval(env, e1) == Combine(op, Eval(env, CancelEqual(op, e1, e2).0), taken)
    ensures Eval(env, e2) == Combine(op, Eval(env, CancelEqual(op, e1, e2).1), taken)
    decreases Size(e1) + Size(e2), if Joins(op, e1) || Joins(op, e2) then 0 else 3
  {
    if Joins(op, e1) {
      var first := CancelEqual(op, e1.left, e2);
      var a := CancelEqualSound(env, op, e1.left, e2);
      var second := CancelEqual(op, e1.right, first.1);
      var b := CancelEqualSound(env, op, e1.right, first.1);
      taken := Combine(op, a, b);
      CombineInterchange(op, Eval(env, first.0), Eval(env, second.0), Eval(env, second.1), a, b);
      assert CancelEqual(op, e1, e2) == (Join(op, first.0, second.0), second.1);
    } else if Joins(op, e2) {
      var first := CancelEqual(op, e1, e2.left);
      var a := CancelEqualSound(env, op, e1, e2.left);
      var second := CancelEqual(op, first.0, e2.right);
      var b := CancelEqualSound(env, op, first.0, e2.right);
      taken := Combine(op, a, b);
      CombineInterchange(op, Eval(env, first.1), Eval(env, second.1), Eval(env, second.0), a, b);
      assert CancelEqual(op, e1, e2) == (second.0, Join(op, first.1, second.1));
    } else if (e1 == e2 && IsConstant(e1)) || !ExprEq(e1, e2) {
      taken := op.Unit();
    } else {
      ExprEqSound(env, e1, e2);
      taken := Eval(env, e1);
    }
  }

  /** Equal expressions have the same value in every environment. */
  lemma {:induction false} ExprEqSound(env: Env, e1: Expr, e2: Expr)
    requires ValidEnv(env) && ExprEq(e1, e2)
    ensures Eval(env, e1) == Eval(env, e2)
    decreases Size(e1) + Size(e2), 2
  {
    if e1.Not? && e2.Not? {
      ExprEqSound(env, e1.e, e2.e);
    } else if e1.Join? && e2.Join? {
      var p := CancelEqual(e1.op, e1, e2);
      var _ := CancelEqualSound(env, e1.op, e1, e2);
      EliminateYnSound(env, p.0);
      EliminateYnSound(env, p.1);
    }
  }

  /** Cancellation reflects the order of the two sides, and a second side that has become y bounds the first. */
  lemma CancelReflectsOrder(env: Env, op: Junction, e1: Expr, e2: Expr)
    requires ValidEnv(env)
    requires var r := CancelEqual(op, e1, e2); Eval(env, r.0) <= Eval(env, r.1) || Eval(env, r.1) == YES
    ensures Eval(env, e1) <= Eval(env, e2)
  {
    var _ := CancelEqualSound(env, op, e1, e2);
  }

  /** The superset test: when cancelling leaves nothing of the second expression, the first is bounded by it
      in every environment, whatever connectives the two roots are. */
  lemma SupersetTest(env: Env, e1: Expr, e2: Expr)
    requires ValidEnv(env) && EliminateEq(e1, e2).1 == ExprYes
    ensures Eval(env, e1) <= Eval(env, e2)
  {
    var p := if e1.Join? then CancelEqual(e1.op, e1, e2) else (e1, e2);
    var again := p.1.Join? && !Joins(p.1.op, p.0);
    var q := if again then CancelEqual(p.1.op, p.0, p.1) else p;
    EliminateYnSound(env, q.1);
    assert Eval(env, q.1) == YES;
    if again {
      CancelReflectsOrder(env, p.1.op, p.0, p.1);
    }
    if e1.Join? {
      CancelReflectsOrder(env, e1.op, e1, e2);
    }
  }
}
