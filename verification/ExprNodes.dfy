/** The simplifiers that overwrite expression nodes in place, proved against the functions on trees. */
module ExprNodes {
  import opened Tristates
  import opened Exprs
  import opened ExprEquality
  import opened ExprTransform

  datatype Tag = SymTag | NotTag | JoinTag(op: Junction) | RelTag(rel: Relation)

  /** A node of an expression: the children of a negation or join, or the symbols of a leaf. */
  class Node {
    var tag: Tag
    var left: Node?
    var right: Node?
    var a: Symbol
    var b: Symbol
    ghost var tree: Expr
    ghost var Repr: set<Node>

    ghost predicate Valid()
      reads this, Repr
      ensures Valid() ==> this in Repr
    {
      && this in Repr
      && match tag {
           case SymTag => tree == Sym(a)
           case RelTag(rel) => tree == Rel(rel, a, b)
           case NotTag =>
             && left != null && left in Repr && left.Repr <= Repr && this !in left.Repr
             && left.Valid() && tree == Not(left.tree)
           case JoinTag(op) =>
             && left != null && left in Repr && left.Repr <= Repr && this !in left.Repr
             && right != null && right in Repr && right.Repr <= Repr && this !in right.Repr
             && left.Repr !! right.Repr
             && left.Valid() && right.Valid() && tree == Join(op, left.tree, right.tree)
         }
    }

    constructor Leaf(s: Symbol)
      ensures Valid() && fresh(Repr) && tree == Sym(s)
    {
      tag, left, right, a, b := SymTag, null, null, s, s;
      tree, Repr := Sym(s), {this};
    }

    constructor Negation(child: Node)
      requires child.Valid()
      ensures Valid() && fresh(Repr - child.Repr) && tree == Not(child.tree)
    {
      tag, left, right, a, b := NotTag, child, null, SymNo, SymNo;
      tree, Repr := Not(child.tree), {this} + child.Repr;
    }

    constructor Comparison(rel: Relation, a: Symbol, b: Symbol)
      ensures Valid() && fresh(Repr) && tree == Rel(rel, a, b)
    {
      tag, left, right := RelTag(rel), null, null;
      this.a, this.b := a, b;
      tree, Repr := Rel(rel, a, b), {this};
    }

    constructor Operation(op: Junction, l: Node, r: Node)
      requires l.Valid() && r.Valid() && l.Repr !! r.Repr
      ensures Valid() && fresh(Repr - l.Repr - r.Repr) && tree == Join(op, l.tree, r.tree)
    {
      tag, left, right, a, b := JoinTag(op), l, r, SymNo, SymNo;
      tree, Repr := Join(op, l.tree, r.tree), {this} + l.Repr + r.Repr;
    }

    /** Turns the node into a leaf for the given symbol. */
    method SetSymbol(s: Symbol)
      requires Valid()
      modifies this
      ensures Valid() && tree == Sym(s) && Repr == old(Repr)
    {
      tag, a, left, right := SymTag, s, null, null;
      tree := Sym(s);
    }

    /** Overwrites the node with a copy of one of its operands. */
    method Become(n: Node)
      requires Valid() && n.Valid() && n.Repr <= Repr && this !in n.Repr
      modifies this
      ensures Valid() && tree == n.tree && Repr == old(Repr)
    {
      tag, left, right, a, b := n.tag, n.left, n.right, n.a, n.b;
      tree := n.tree;
    }

    /** Puts two other operands below a join. */
    method SetOperands(l: Node, r: Node)
      requires tag.JoinTag? && l.Valid() && r.Valid() && l.Repr !! r.Repr && this !in l.Repr && this !in r.Repr
      modifies this
      ensures Valid() && tag == old(tag) && tree == Join(tag.op, l.tree, r.tree) && Repr == {this} + l.Repr + r.Repr
    {
      left, right := l, r;
      tree, Repr := Join(tag.op, l.tree, r.tree), {this} + l.Repr + r.Repr;
    }

    /** expr_eliminate_yn. */
    method EliminateYnInPlace()
      requires Valid()
      modifies Repr
      ensures Valid() && Repr == old(Repr)
      ensures tree == EliminateYn(old(tree))
      decreases Repr
    {
      hide DropConstant;
      if tag.JoinTag? {
        var op := tag.op;
        left.EliminateYnInPlace();
        assert right.Valid();
        right.EliminateYnInPlace();
        assert left.Valid();
        tree := Join(op, left.tree, right.tree);
        DropConstantOperand();
      }
    }

    /** What is left to do when neither operand contains constant operands any more. */
    method DropConstantOperand()
      requires Valid() && tag.JoinTag?
      modifies this
      ensures Valid() && Repr == old(Repr)
      ensures tree == DropConstant(old(tag.op), old(left.tree), old(right.tree))
    {
      var unit := if tag.op == And then SymYes else SymNo;
      var zero := if tag.op == And then SymNo else SymYes;
      if left.tag == SymTag && left.a == zero {
        SetSymbol(zero);
      } else if left.tag == SymTag && left.a == unit {
        Become(right);
      } else if right.tag == SymTag && right.a == zero {
        SetSymbol(zero);
      } else if right.tag == SymTag && right.a == unit {
        Become(left);
      }
    }

    /** expr_trans_bool. */
    method TransBoolInPlace()
      requires Valid()
      modifies Repr
      ensures Valid() && Repr == old(Repr)
      ensures tree == TransBool(old(tree))
      decreases Repr
    {
      match tag
      case JoinTag(op) =>
        left.TransBoolInPlace();
        right.TransBoolInPlace();
        tree := Join(op, left.tree, right.tree);
      case NotTag =>
        left.TransBoolInPlace();
        tree := Not(left.tree);
      case RelTag(rel) =>
        if rel == Unequal && a.Type() == Tri && b == SymNo {
          SetSymbol(a);
        }
      case SymTag =>
    }
  }

  /** expr_copy. */
  method Copy(n: Node) returns (c: Node)
    requires n.Valid()
    ensures c.Valid() && fresh(c.Repr) && c.tree == n.tree
    decreases n.Repr
  {
    if n.tag == SymTag {
      c := new Node.Leaf(n.a);
    } else if n.tag.RelTag? {
      c := new Node.Comparison(n.tag.rel, n.a, n.b);
    } else if n.tag == NotTag {
      var l := Copy(n.left);
      c := new Node.Negation(l);
    } else {
      var l := Copy(n.left);
      var r := Copy(n.right);
      c := new Node.Operation(n.tag.op, l, r);
    }
  }

  /** The bool comparison cases of expr_transform. */
  method TransformRelInPlace(e: Node)
    requires e.Valid() && e.tag.RelTag?
    modifies e
    ensures e.Valid() && fresh(e.Repr - old(e.Repr))
    ensures e.tree == TransformRel(old(e.tag).rel, old(e.a), old(e.b))
  {
    var rel := e.tag.rel;
    if e.a.Type() != Boolean || rel !in {Equal, Unequal} {
      return;
    }
    if e.b == (if rel == Equal then SymNo else SymYes) {
      var leaf := new Node.Leaf(e.a);
      e.tag, e.left, e.right := NotTag, leaf, null;
      e.tree, e.Repr := Not(leaf.tree), {e} + leaf.Repr;
    } else if e.b == SymMod {
      e.SetSymbol(if rel == Equal then SymNo else SymYes);
    } else if e.b == (if rel == Equal then SymYes else SymNo) {
      e.SetSymbol(e.a);
    }
  }

  method TransformOperands(e: Node)
    requires e.Valid() && e.tag.JoinTag?
    modifies e.Repr
    ensures e.Valid() && fresh(e.Repr - old(e.Repr))
    ensures e.tree == Transform(old(e.tree))
    decreases Weight(e.tree), 0
  {
    var l := TransformInPlace(e.left);
    assert e.right.Valid() && l.Repr !! e.right.Repr;
    var r := TransformInPlace(e.right);
    assert l.Valid() && l.Repr !! r.Repr;
    e.SetOperands(l, r);
  }

  /** expr_transform. */
  method TransformInPlace(e: Node) returns (r: Node)
    requires e.Valid()
    modifies e.Repr
    ensures r.Valid() && fresh(r.Repr - old(e.Repr))
    ensures r.tree == Transform(old(e.tree))
    decreases Weight(e.tree)
  {
    r := e;
    match e.tag
    case SymTag =>
    case RelTag(_) => TransformRelInPlace(e);
    case JoinTag(_) =>
      TransformOperands(e);
    case NotTag =>
      var x := TransformInPlace(e.left);
      e.left := x;
      e.tree, e.Repr := Not(x.tree), {e} + x.Repr;
      r := PushNegation(e, x);
  }

  /** One step of De Morgan's law: the negated join becomes the negation of its own left operand, and the
      negation becomes the dual join. */
  method Distribute(e: Node, x: Node)
    requires e.Valid() && e.tag == NotTag && e.left == x && x.tag.JoinTag?
    modifies e, x
    ensures e.Valid() && fresh(e.Repr - old(e.Repr))
    ensures var t := old(x.tree); t.Join? && e.tree == DeMorgan(t.op, t.left, t.right)
  {
    ghost var l, r := x.left.tree, x.right.tree;
    var op := x.tag.op;
    var n := new Node.Negation(x.right);
    e.tag, e.right := JoinTag(op.Dual()), n;
    x.tag, x.right := NotTag, null;
    x.tree, x.Repr := Not(l), {x} + x.left.Repr;
    e.tree, e.Repr := DeMorgan(op, l, r), {e} + x.Repr + n.Repr;
  }

  /** The negation cases of expr_transform; the operand has been transformed already. */
  method PushNegation(e: Node, x: Node) returns (r: Node)
    requires e.Valid() && e.tag == NotTag && e.left == x
    modifies e.Repr
    ensures r.Valid() && fresh(r.Repr - old(e.Repr))
    ensures r.tree == match old(x.tree) {
                        case Not(y) => Transform(y)
                        case Rel(rel, a, b) => Rel(Opposite(rel), a, b)
                        case Join(op, l, r) => Transform(DeMorgan(op, l, r))
                        case Sym(s) => NegatedConstant(s)
                      }
    decreases Weight(e.tree), 0
  {
    r := x;
    if x.tag == NotTag {
      assert Weight(x.tree) == 2 * Weight(x.left.tree);
      r := TransformInPlace(x.left);
    } else if x.tag.RelTag? {
      x.tag := RelTag(Opposite(x.tag.rel));
      x.tree := Rel(x.tag.rel, x.a, x.b);
    } else if x.tag.JoinTag? {
      Distribute(e, x);
      r := TransformInPlace(e);
    } else if x.a == SymYes {
      x.SetSymbol(SymNo);
    } else if x.a == SymNo {
      x.SetSymbol(SymYes);
    } else if x.a != SymMod {
      r := e;
    }
  }
}
