/** Equality and cancellation on nodes: the comparison copies both expressions and cancels inside the copies, and
    cancelling compares operands in turn. */
module ExprCopies {
  import opened Tristates
  import opened Exprs
  import opened ExprEquality
  import opened ExprNodes

  /** The two results stand apart, in what the two arguments occupied and new nodes. */
  twostate predicate Separate(e1: Node, e2: Node, new r1: Node, new r2: Node)
    reads r1, r2, r1.Repr, r2.Repr
  {
    && r1.Valid() && r2.Valid() && r1.Repr !! r2.Repr
    && fresh(r1.Repr - old(e1.Repr)) && fresh(r2.Repr - old(e2.Repr))
  }

  /** __expr_eliminate_eq: down to the operands of both sides; two equal ones become fresh units. */
  method CancelInPlace(op: Junction, e1: Node, e2: Node) returns (r1: Node, r2: Node)
    requires e1.Valid() && e2.Valid() && e1.Repr !! e2.Repr
    modifies e1.Repr, e2.Repr
    ensures Separate(e1, e2, r1, r2)
    ensures (r1.tree, r2.tree) == CancelEqual(op, old(e1.tree), old(e2.tree))
    decreases Size(e1.tree) + Size(e2.tree), if Joins(op, e1.tree) || Joins(op, e2.tree) then 0 else 3, 1
  {
    if e1.tag == JoinTag(op) {
      r1, r2 := CancelLeft(op, e1, e2);
    } else if e2.tag == JoinTag(op) {
      r1, r2 := CancelRight(op, e1, e2);
    } else {
      r1, r2 := CancelOperands(op, e1, e2);
    }
  }

  method CancelLeft(op: Junction, e1: Node, e2: Node) returns (r1: Node, r2: Node)
    requires e1.Valid() && e2.Valid() && e1.Repr !! e2.Repr && e1.tag == JoinTag(op)
    modifies e1.Repr, e2.Repr
    ensures Separate(e1, e2, r1, r2)
    ensures (r1.tree, r2.tree) == CancelEqual(op, old(e1.tree), old(e2.tree))
    decreases Size(e1.tree) + Size(e2.tree), 0, 0
  {
    hide CancelEqual;
    CancelLeftFork(op, e1.tree, e2.tree);
    var l, t := CancelInPlace(op, e1.left, e2);
    assert e1.right.Valid();
    var r;
    r, r2 := CancelInPlace(op, e1.right, t);
    assert l.Valid() && e1 !in l.Repr && e1 !in r.Repr && l.Repr !! r.Repr;
    assert e1 !in r2.Repr && r2.Repr !! l.Repr && r2.Repr !! r.Repr;
    assert fresh(l.Repr + r.Repr - old(e1.Repr)) && fresh(r2.Repr - old(e2.Repr));
    e1.SetOperands(l, r);
    r1 := e1;
    assert r2.Valid();
  }

  method CancelRight(op: Junction, e1: Node, e2: Node) returns (r1: Node, r2: Node)
    requires e1.Valid() && e2.Valid() && e1.Repr !! e2.Repr && e1.tag != JoinTag(op) && e2.tag == JoinTag(op)
    modifies e1.Repr, e2.Repr
    ensures Separate(e1, e2, r1, r2)
    ensures (r1.tree, r2.tree) == CancelEqual(op, old(e1.tree), old(e2.tree))
    decreases Size(e1.tree) + Size(e2.tree), 0, 0
  {
    hide CancelEqual;
    CancelRightFork(op, e1.tree, e2.tree);
    var t, l := CancelInPlace(op, e1, e2.left);
    assert e2.right.Valid();
    var r;
    r1, r := CancelInPlace(op, t, e2.right);
    assert l.Valid() && e2 !in l.Repr && e2 !in r.Repr && l.Repr !! r.Repr;
    assert e2 !in r1.Repr && r1.Repr !! l.Repr && r1.Repr !! r.Repr;
    assert fresh(l.Repr + r.Repr - old(e2.Repr)) && fresh(r1.Repr - old(e1.Repr));
    e2.SetOperands(l, r);
    r2 := e2;
    assert r1.Valid();
  }

  method CancelOperands(op: Junction, e1: Node, e2: Node) returns (r1: Node, r2: Node)
    requires e1.Valid() && e2.Valid() && e1.Repr !! e2.Repr && e1.tag != JoinTag(op) && e2.tag != JoinTag(op)
    ensures Separate(e1, e2, r1, r2)
    ensures (r1.tree, r2.tree) == CancelEqual(op, e1.tree, e2.tree)
    decreases Size(e1.tree) + Size(e2.tree), 3, 0
  {
    r1, r2 := e1, e2;
    if e1.tag == SymTag && e2.tag == SymTag && e1.a == e2.a && e1.a in {SymYes, SymNo} {
      return;
    }
    var same := EqualOnCopies(e1, e2);
    if same {
      r1 := new Node.Leaf(if op == And then SymYes else SymNo);
      r2 := new Node.Leaf(if op == And then SymYes else SymNo);
    }
  }

  /** expr_eliminate_eq. */
  method EliminateEqInPlace(e1: Node, e2: Node) returns (r1: Node, r2: Node)
    requires e1.Valid() && e2.Valid() && e1.Repr !! e2.Repr
    modifies e1.Repr, e2.Repr
    ensures Separate(e1, e2, r1, r2)
    ensures (r1.tree, r2.tree) == EliminateEq(old(e1.tree), old(e2.tree))
    decreases Size(e1.tree) + Size(e2.tree), 1
  {
    hide CancelEqual, EliminateYn;
    r1, r2 := e1, e2;
    if r1.tag.JoinTag? {
      r1, r2 := CancelInPlace(r1.tag.op, r1, r2);
    }
    if r2.tag.JoinTag? && r1.tag != r2.tag {
      r1, r2 := CancelInPlace(r2.tag.op, r1, r2);
    }
    EliminateYnOfBoth(r1, r2);
  }

  method EliminateYnOfBoth(e1: Node, e2: Node)
    requires e1.Valid() && e2.Valid() && e1.Repr !! e2.Repr
    modifies e1.Repr, e2.Repr
    ensures e1.Valid() && e2.Valid() && e1.Repr == old(e1.Repr) && e2.Repr == old(e2.Repr)
    ensures e1.tree == EliminateYn(old(e1.tree)) && e2.tree == EliminateYn(old(e2.tree))
  {
    hide EliminateYn;
    e1.EliminateYnInPlace();
    assert e2.Valid();
    e2.EliminateYnInPlace();
    assert e1.Valid();
  }

  /** expr_eq. */
  method EqualOnCopies(e1: Node, e2: Node) returns (same: bool)
    requires e1.Valid() && e2.Valid()
    ensures same == ExprEq(e1.tree, e2.tree)
    decreases Size(e1.tree) + Size(e2.tree), 2
  {
    if e1.tag != e2.tag {
      return false;
    }
    match e1.tag
    case SymTag => same := e1.a == e2.a;
    case RelTag(_) => same := e1.a == e2.a && e1.b == e2.b;
    case NotTag => same := EqualOnCopies(e1.left, e2.left);
    case JoinTag(_) =>
      var c1 := Copy(e1);
      var c2 := Copy(e2);
      c1, c2 := EliminateEqInPlace(c1, c2);
      same := c1.tag == SymTag && c2.tag == SymTag && c1.a == c2.a;
  }
}
