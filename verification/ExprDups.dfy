/** Deduplication of the operands of conjunctions and disjunctions.

    A pass walks an expression against itself through two pointers.  The nodes of the root connective never
    change during a pass; only the operands below them are overwritten, each in its own place.  The model
    keeps that split: a spine of fork nodes that stays put, and an array with one cell per operand that both
    walks share, so that writing through one of them is seen through the other. */
module ExprDups {
  import opened Tristates
  import opened Exprs
  import opened ExprEquality
  import opened ExprTransform
  import opened ExprJoin

  // ---------- Spines and operands ----------

  datatype Spine = Cell | Fork(l: Spine, r: Spine) {
    function Cells(): (n: nat)
      ensures n >= 1
    {
      if Cell? then 1 else l.Cells() + r.Cells()
    }
  }

  function SpineOf(op: Junction, e: Expr): Spine {
    if Joins(op, e) then Fork(SpineOf(op, e.left), SpineOf(op, e.right)) else Cell
  }

  function Operands(op: Junction, e: Expr): (s: seq<Expr>)
    ensures |s| == SpineOf(op, e).Cells()
    ensures forall x | x in s :: Size(x) <= Size(e) && (Joins(op, e) ==> Size(x) < Size(e))
  {
    if Joins(op, e) then Operands(op, e.left) + Operands(op, e.right) else [e]
  }

  function Rebuild(op: Junction, s: Spine, cells: seq<Expr>): Expr
    requires |cells| == s.Cells()
  {
    if s.Cell? then cells[0]
    else Join(op, Rebuild(op, s.l, cells[..s.l.Cells()]), Rebuild(op, s.r, cells[s.l.Cells()..]))
  }

  lemma {:induction false} RebuildOperands(op: Junction, e: Expr)
    ensures Rebuild(op, SpineOf(op, e), Operands(op, e)) == e
    ensures forall x | x in Operands(op, e) :: !Joins(op, x)
  {
    if Joins(op, e) {
      RebuildOperands(op, e.left);
      RebuildOperands(op, e.right);
      var n := SpineOf(op, e.left).Cells();
      assert Operands(op, e)[..n] == Operands(op, e.left);
      assert Operands(op, e)[n..] == Operands(op, e.right);
    }
  }

  lemma {:induction false} OperandsRebuild(op: Junction, s: Spine, cells: seq<Expr>)
    requires |cells| == s.Cells() && forall x | x in cells :: !Joins(op, x)
    ensures Operands(op, Rebuild(op, s, cells)) == cells
    ensures SpineOf(op, Rebuild(op, s, cells)) == s
  {
    if s.Fork? {
      var n := s.l.Cells();
      var a, b := cells[..n], cells[n..];
      assert a + b == cells;
      assert Rebuild(op, s, cells) == Join(op, Rebuild(op, s.l, a), Rebuild(op, s.r, b));
      OperandsRebuild(op, s.l, a);
      OperandsRebuild(op, s.r, b);
    }
  }

  // ---------- Folding a row of operands ----------

  function Fold(env: Env, op: Junction, cells: seq<Expr>): Tristate {
    if cells == [] then op.Unit() else Combine(op, Eval(env, cells[0]), Fold(env, op, cells[1..]))
  }

  lemma {:induction false} FoldAppend(env: Env, op: Junction, a: seq<Expr>, b: seq<Expr>)
    ensures Fold(env, op, a + b) == Combine(op, Fold(env, op, a), Fold(env, op, b))
  {
    if a == [] {
      assert a + b == b;
    } else {
      FoldAppend(env, op, a[1..], b);
      assert (a + b)[1..] == a[1..] + b;
    }
  }

  lemma {:induction false} EvalRebuild(env: Env, op: Junction, s: Spine, cells: seq<Expr>)
    requires |cells| == s.Cells()
    ensures Eval(env, Rebuild(op, s, cells)) == Fold(env, op, cells)
  {
    if s.Fork? {
      var n := s.l.Cells();
      EvalRebuild(env, op, s.l, cells[..n]);
      EvalRebuild(env, op, s.r, cells[n..]);
      FoldAppend(env, op, cells[..n], cells[n..]);
      assert cells[..n] + cells[n..] == cells;
    }
  }

  /** One operand can be taken out of a row and combined back in. */
  lemma FoldExtract(env: Env, op: Junction, cells: seq<Expr>, i: nat)
    requires ValidEnv(env) && i < |cells|
    ensures Fold(env, op, cells)
         == Combine(op, Fold(env, op, cells[i := UnitExpr(op)]), Eval(env, cells[i]))
  {
    var a, b := cells[..i], cells[i + 1..];
    assert cells == a + ([cells[i]] + b);
    assert cells[i := UnitExpr(op)] == a + ([UnitExpr(op)] + b);
    FoldAppend(env, op, a, [cells[i]] + b);
    FoldAppend(env, op, a, [UnitExpr(op)] + b);
    assert ([cells[i]] + b)[1..] == b && ([UnitExpr(op)] + b)[1..] == b;
  }

  lemma CombineMerge(op: Junction, rest: Tristate, x: Tristate, y: Tristate)
    ensures Combine(op, rest, Combine(op, x, y)) == Combine(op, Combine(op, rest, y), x)
  {
  }

  /** Emptying one cell into another keeps the fold. */
  lemma FoldMerge(env: Env, op: Junction, cells: seq<Expr>, i: nat, j: nat, t: Expr)
    requires ValidEnv(env) && i < |cells| && j < |cells| && i != j
    requires Eval(env, t) == Combine(op, Eval(env, cells[i]), Eval(env, cells[j]))
    ensures Fold(env, op, cells[i := UnitExpr(op)][j := t]) == Fold(env, op, cells)
  {
    var once := cells[i := UnitExpr(op)];
    FoldExtract(env, op, cells, i);
    FoldExtract(env, op, once, j);
    FoldExtract(env, op, once[j := t], j);
    assert once[j := t][j := UnitExpr(op)] == once[j := UnitExpr(op)];
    CombineMerge(op, Fold(env, op, once[j := UnitExpr(op)]), Eval(env, cells[i]), Eval(env, cells[j]));
  }

  // ---------- What a pass does to a row ----------

  /** The constants that a symbol is tested for in a row. */
  ghost function RowConstants(cells: seq<Expr>, a: Symbol): set<Symbol> {
    set i, c | 0 <= i < |cells| && c in Constants(cells[i], a) :: c
  }

  /** Whatever a symbol is tested for in the one is or can come to be tested in the other. */
  ghost predicate Within(new_: Expr, old_: Expr) {
    forall a :: Constants(new_, a) <= Derivable(Constants(old_, a))
  }

  ghost predicate RowWithin(new_: seq<Expr>, old_: seq<Expr>) {
    forall a :: RowConstants(new_, a) <= Derivable(RowConstants(old_, a))
  }

  ghost predicate PlainRow(env: Env, cells: seq<Expr>) {
    forall a: Symbol | a.Type() == Tri :: Apart(env, Derivable(RowConstants(cells, a)))
  }

  lemma ApartSubset(env: Env, cs: set<Symbol>, ds: set<Symbol>)
    requires Apart(env, ds) && cs <= ds
    ensures Apart(env, cs)
  {
  }

  lemma RowWithinCompose(a: seq<Expr>, b: seq<Expr>, c: seq<Expr>)
    requires RowWithin(b, a) && RowWithin(c, b)
    ensures RowWithin(c, a)
    ensures forall env | PlainRow(env, a) :: PlainRow(env, b)
  {
    hide Derivable, RowConstants, Apart;
    forall s: Symbol ensures RowConstants(c, s) <= Derivable(RowConstants(a, s)) {
      DerivableCloses(RowConstants(b, s), RowConstants(a, s));
    }
    forall env, s: Symbol | PlainRow(env, a) && s.Type() == Tri ensures Apart(env, Derivable(RowConstants(b, s))) {
      DerivableCloses(RowConstants(b, s), RowConstants(a, s));
      ApartSubset(env, Derivable(RowConstants(b, s)), Derivable(RowConstants(a, s)));
    }
  }

  lemma PlainCell(env: Env, cells: seq<Expr>, i: nat)
    requires i < |cells| && PlainRow(env, cells)
    ensures Plain(env, cells[i])
  {
    hide Derivable, Apart;
    forall a: Symbol | a.Type() == Tri ensures Apart(env, Derivable(Constants(cells[i], a))) {
      DerivableCloses(RowConstants(cells, a), RowConstants(cells, a));
      DerivableCloses(Constants(cells[i], a), RowConstants(cells, a));
      ApartSubset(env, Derivable(Constants(cells[i], a)), Derivable(RowConstants(cells, a)));
    }
  }

  lemma PlainPair(env: Env, op: Junction, cells: seq<Expr>, i: nat, j: nat)
    requires i < |cells| && j < |cells| && PlainRow(env, cells)
    ensures Plain(env, Join(op, cells[i], cells[j]))
  {
    hide Derivable, Apart;
    var pair := Join(op, cells[i], cells[j]);
    forall a: Symbol | a.Type() == Tri ensures Apart(env, Derivable(Constants(pair, a))) {
      assert Constants(pair, a) == Constants(cells[i], a) + Constants(cells[j], a);
      assert Constants(cells[i], a) <= RowConstants(cells, a) && Constants(cells[j], a) <= RowConstants(cells, a);
      DerivableCloses(RowConstants(cells, a), RowConstants(cells, a));
      DerivableCloses(Constants(pair, a), RowConstants(cells, a));
      ApartSubset(env, Derivable(Constants(pair, a)), Derivable(RowConstants(cells, a)));
    }
  }

  lemma ReplaceWithin(cells: seq<Expr>, i: nat, x: Expr)
    requires i < |cells| && Within(x, cells[i])
    ensures RowWithin(cells[i := x], cells)
  {
    hide Derivable;
    forall a: Symbol ensures RowConstants(cells[i := x], a) <= Derivable(RowConstants(cells, a)) {
      var all := RowConstants(cells, a);
      DerivableCloses(all, all);
      DerivableCloses(Constants(cells[i], a), all);
      assert Constants(cells[i], a) <= all;
      assert RowConstants(cells[i := x], a) <= all + Constants(x, a);
    }
  }

  lemma JoinWithin(op: Junction, cells: seq<Expr>, i: nat, j: nat)
    requires i < |cells| && j < |cells| && i != j && JoinOperands(op, cells[i], cells[j]).Into?
    ensures RowWithin(cells[i := UnitExpr(op)][j := JoinOperands(op, cells[i], cells[j]).e], cells)
  {
    hide Derivable, JoinOperands;
    var t := JoinOperands(op, cells[i], cells[j]).e;
    var new_ := cells[i := UnitExpr(op)][j := t];
    forall a: Symbol ensures RowConstants(new_, a) <= Derivable(RowConstants(cells, a)) {
      var all, both := RowConstants(cells, a), Constants(cells[i], a) + Constants(cells[j], a);
      JoinOperandsDerivable(op, cells[i], cells[j], a);
      DerivableCloses(all, all);
      assert both <= all;
      DerivableCloses(both, all);
      assert RowConstants(new_, a) <= all + Constants(t, a);
    }
  }

  predicate AllNormal(cells: seq<Expr>) {
    forall x | x in cells :: Normal(x)
  }

  /** Every symbol that stands for its own value, or is negated, is bool or one of y and n. */
  predicate Lone(e: Expr) {
    match e
    case Sym(s) => s.Type() == Boolean || s == SymYes || s == SymNo
    case Not(x) => Lone(x)
    case Join(_, l, r) => Lone(l) && Lone(r)
    case Rel(_, _, _) => true
  }

  predicate AllLone(cells: seq<Expr>) {
    forall x | x in cells :: Lone(x)
  }

  function TotalLeaves(cells: seq<Expr>): nat {
    if cells == [] then 0 else Leaves(cells[0]) + TotalLeaves(cells[1..])
  }

  lemma {:induction false} TotalLeavesAppend(a: seq<Expr>, b: seq<Expr>)
    ensures TotalLeaves(a + b) == TotalLeaves(a) + TotalLeaves(b)
  {
    if a == [] {
      assert a + b == b;
    } else {
      TotalLeavesAppend(a[1..], b);
      assert (a + b)[1..] == a[1..] + b;
    }
  }

  lemma TotalLeavesUpdate(cells: seq<Expr>, i: nat, x: Expr)
    requires i < |cells|
    ensures TotalLeaves(cells[i := x]) == TotalLeaves(cells) - Leaves(cells[i]) + Leaves(x)
  {
    var a, b := cells[..i], cells[i + 1..];
    assert cells == a + ([cells[i]] + b) && cells[i := x] == a + ([x] + b);
    TotalLeavesAppend(a, [cells[i]] + b);
    TotalLeavesAppend(a, [x] + b);
    assert ([cells[i]] + b)[1..] == b && ([x] + b)[1..] == b;
  }

  /** Some operand is a constant or contains a constant operand: the next constant elimination will shrink
      the expression. */
  predicate Marked(e: Expr) {
    IsConstant(e) || !YnFree(e)
  }

  predicate HasMark(cells: seq<Expr>) {
    exists x | x in cells :: Marked(x)
  }

  /** How many times conjunction and disjunction alternate on the way down. */
  function Depth(e: Expr): (n: nat)
    ensures e.Join? ==> n >= 1
  {
    if e.Join? then
      var l := Depth(e.left) + if Joins(e.op, e.left) then 0 else 1;
      var r := Depth(e.right) + if Joins(e.op, e.right) then 0 else 1;
      if l > r then l else r
    else 0
  }

  predicate Shallow(op: Junction, d: nat, cells: seq<Expr>) {
    forall x | x in cells :: !Joins(op, x) && Depth(x) <= d
  }

  /** What every step of a pass guarantees of the row. */
  ghost predicate Refines(op: Junction, d: nat, old_: seq<Expr>, new_: seq<Expr>) {
    && |new_| == |old_|
    && (Shallow(op, d, old_) ==> Shallow(op, d, new_))
    && TotalLeaves(new_) <= TotalLeaves(old_)
    && (HasMark(old_) ==> HasMark(new_))
    && (AllNormal(old_) ==> AllNormal(new_))
    && (AllLone(old_) ==> AllLone(new_))
    && RowWithin(new_, old_)
    && (forall env | ValidEnv(env) && PlainRow(env, old_) :: Fold(env, op, new_) == Fold(env, op, old_))
  }

  lemma RefinesItself(op: Junction, d: nat, cells: seq<Expr>)
    ensures Refines(op, d, cells, cells)
  {
    hide RowConstants, Derivable;
    forall a ensures RowConstants(cells, a) <= Derivable(RowConstants(cells, a)) {
      DerivableCloses(RowConstants(cells, a), RowConstants(cells, a));
    }
  }

  lemma RefinesCompose(op: Junction, d: nat, a: seq<Expr>, b: seq<Expr>, c: seq<Expr>)
    requires Refines(op, d, a, b) && Refines(op, d, b, c)
    ensures Refines(op, d, a, c)
  {
    RowWithinCompose(a, b, c);
    hide RowWithin, PlainRow;
  }

  lemma FoldReplace(env: Env, op: Junction, cells: seq<Expr>, i: nat, x: Expr)
    requires ValidEnv(env) && i < |cells| && Eval(env, x) == Eval(env, cells[i])
    ensures Fold(env, op, cells[i := x]) == Fold(env, op, cells)
  {
    FoldExtract(env, op, cells, i);
    FoldExtract(env, op, cells[i := x], i);
    assert cells[i := x][i := UnitExpr(op)] == cells[i := UnitExpr(op)];
  }

  lemma MarkReplace(cells: seq<Expr>, i: nat, x: Expr)
    requires i < |cells| && (Marked(cells[i]) ==> Marked(x))
    ensures HasMark(cells) || Marked(x) ==> HasMark(cells[i := x])
  {
    var new_ := cells[i := x];
    assert new_[i] == x;
    if HasMark(cells) {
      var k :| 0 <= k < |cells| && Marked(cells[k]);
      assert new_[k] in new_ && Marked(new_[k]);
    }
  }

  /** Overwriting a cell with an expression of the same meaning and no larger shape. */
  lemma RefinesReplace(op: Junction, d: nat, cells: seq<Expr>, i: nat, x: Expr)
    requires i < |cells| && Shallow(op, d, cells)
    requires !Joins(op, x) && Depth(x) <= d && Leaves(x) <= Leaves(cells[i])
    requires Marked(cells[i]) ==> Marked(x)
    requires Normal(cells[i]) ==> Normal(x)
    requires Lone(cells[i]) ==> Lone(x)
    requires Within(x, cells[i])
    requires forall env | ValidEnv(env) && Plain(env, cells[i]) :: Eval(env, x) == Eval(env, cells[i])
    ensures Refines(op, d, cells, cells[i := x])
    ensures Marked(x) ==> HasMark(cells[i := x])
  {
    TotalLeavesUpdate(cells, i, x);
    MarkReplace(cells, i, x);
    ReplaceWithin(cells, i, x);
    hide Within, RowWithin, PlainRow, Plain;
    assert cells[i] in cells;
    assert forall y | y in cells[i := x] :: y == x || y in cells;
    assert Shallow(op, d, cells[i := x]);
    assert AllNormal(cells) ==> AllNormal(cells[i := x]);
    assert AllLone(cells) ==> AllLone(cells[i := x]);
    forall env | ValidEnv(env) && PlainRow(env, cells)
      ensures Fold(env, op, cells[i := x]) == Fold(env, op, cells)
    {
      PlainCell(env, cells, i);
      FoldReplace(env, op, cells, i, x);
    }
  }

  lemma JoinOperandsLone(op: Junction, e1: Expr, e2: Expr)
    requires JoinOperands(op, e1, e2).Into? && Lone(e1) && Lone(e2)
    ensures Lone(JoinOperands(op, e1, e2).e)
  {
    hide ExprEq;
  }

  /** What a row looks like after joining cell i into cell j. */
  lemma JoinShape(op: Junction, d: nat, cells: seq<Expr>, i: nat, j: nat)
    requires i < |cells| && j < |cells| && i != j && Shallow(op, d, cells)
    requires JoinOperands(op, cells[i], cells[j]).Into?
    ensures var new_ := cells[i := UnitExpr(op)][j := JoinOperands(op, cells[i], cells[j]).e];
            && Shallow(op, d, new_) && TotalLeaves(new_) <= TotalLeaves(cells) && HasMark(new_)
            && (AllNormal(cells) ==> AllNormal(new_)) && (AllLone(cells) ==> AllLone(new_))
  {
    var t := JoinOperands(op, cells[i], cells[j]).e;
    var once := cells[i := UnitExpr(op)];
    var new_ := once[j := t];
    JoinOperandsShape(op, cells[i], cells[j]);
    if AllLone(cells) {
      JoinOperandsLone(op, cells[i], cells[j]);
    }
    TotalLeavesUpdate(cells, i, UnitExpr(op));
    TotalLeavesUpdate(once, j, t);
    hide JoinOperands;
    assert new_[i] == UnitExpr(op) && Marked(new_[i]);
    assert forall x | x in new_ :: x == t || x == UnitExpr(op) || x in cells;
  }

  /** Joining cell i into cell j. */
  lemma RefinesJoin(op: Junction, d: nat, cells: seq<Expr>, i: nat, j: nat)
    requires i < |cells| && j < |cells| && i != j && Shallow(op, d, cells)
    requires JoinOperands(op, cells[i], cells[j]).Into?
    ensures var new_ := cells[i := UnitExpr(op)][j := JoinOperands(op, cells[i], cells[j]).e];
            Refines(op, d, cells, new_) && HasMark(new_)
  {
    var t := JoinOperands(op, cells[i], cells[j]).e;
    var new_ := cells[i := UnitExpr(op)][j := t];
    JoinShape(op, d, cells, i, j);
    JoinWithin(op, cells, i, j);
    hide RowWithin, PlainRow, Plain, JoinOperands, Shallow, HasMark, AllNormal, AllLone, TotalLeaves;
    forall env | ValidEnv(env) && PlainRow(env, cells) ensures Fold(env, op, new_) == Fold(env, op, cells) {
      PlainPair(env, op, cells, i, j);
      JoinOperandsSound(env, op, cells[i], cells[j]);
      FoldMerge(env, op, cells, i, j, t);
    }
  }

  // ---------- From rows back to expressions ----------

  lemma {:induction false} LeavesOfOperands(op: Junction, e: Expr)
    ensures Leaves(e) == TotalLeaves(Operands(op, e))
  {
    if Joins(op, e) {
      LeavesOfOperands(op, e.left);
      LeavesOfOperands(op, e.right);
      TotalLeavesAppend(Operands(op, e.left), Operands(op, e.right));
    }
  }

  lemma {:induction false} MarkOfOperands(op: Junction, e: Expr)
    ensures HasMark(Operands(op, e)) <==> Marked(e)
  {
    if Joins(op, e) {
      MarkOfOperands(op, e.left);
      MarkOfOperands(op, e.right);
    } else {
      assert Operands(op, e)[0] == e;
    }
  }

  lemma {:induction false} NormalOfOperands(op: Junction, e: Expr)
    ensures AllNormal(Operands(op, e)) <==> Normal(e)
  {
    if Joins(op, e) {
      NormalOfOperands(op, e.left);
      NormalOfOperands(op, e.right);
    } else {
      assert Operands(op, e)[0] == e;
    }
  }

  lemma {:induction false} LoneOfOperands(op: Junction, e: Expr)
    ensures AllLone(Operands(op, e)) <==> Lone(e)
  {
    if Joins(op, e) {
      LoneOfOperands(op, e.left);
      LoneOfOperands(op, e.right);
    } else {
      assert Operands(op, e)[0] == e;
    }
  }

  lemma {:induction false} ConstantsOfOperands(op: Junction, e: Expr, a: Symbol)
    ensures RowConstants(Operands(op, e), a) == Constants(e, a)
  {
    if Joins(op, e) {
      ConstantsOfOperands(op, e.left, a);
      ConstantsOfOperands(op, e.right, a);
      RowConstantsAppend(Operands(op, e.left), Operands(op, e.right), a);
    } else {
      assert Operands(op, e)[0] == e;
    }
  }

  lemma RowConstantsAppend(x: seq<Expr>, y: seq<Expr>, a: Symbol)
    ensures RowConstants(x + y, a) == RowConstants(x, a) + RowConstants(y, a)
  {
    forall c | c in RowConstants(x, a) + RowConstants(y, a) ensures c in RowConstants(x + y, a) {
      if c in RowConstants(x, a) {
        var i :| 0 <= i < |x| && c in Constants(x[i], a);
        assert (x + y)[i] == x[i];
      } else {
        var i :| 0 <= i < |y| && c in Constants(y[i], a);
        assert (x + y)[|x| + i] == y[i];
      }
    }
  }

  lemma EvalOfOperands(env: Env, op: Junction, e: Expr)
    ensures Eval(env, e) == Fold(env, op, Operands(op, e))
  {
    RebuildOperands(op, e);
    EvalRebuild(env, op, SpineOf(op, e), Operands(op, e));
  }

  lemma {:induction false} DepthOfOperands(e: Expr, d: nat)
    requires e.Join?
    ensures Shallow(e.op, d, Operands(e.op, e)) <==> Depth(e) <= d + 1
  {
    var l, r := Operands(e.op, e.left), Operands(e.op, e.right);
    assert forall x | x in Operands(e.op, e) :: x in l || x in r;
    assert Shallow(e.op, d, l + r) <==> Shallow(e.op, d, l) && Shallow(e.op, d, r);
    if Joins(e.op, e.left) {
      DepthOfOperands(e.left, d);
    } else {
      assert l == [e.left] && e.left in l;
    }
    if Joins(e.op, e.right) {
      DepthOfOperands(e.right, d);
    } else {
      assert r == [e.right] && e.right in r;
    }
  }

  /** No two operands of any level can be joined. */
  predicate Deduped(e: Expr)
    decreases Size(e), 0
  {
    e.Join? ==>
      var cells := Operands(e.op, e);
      forall i, j | 0 <= i < |cells| && 0 <= j < |cells| && i != j :: Settled(e.op, cells[i], cells[j])
  }

  /** Nothing is left to do when the first operand meets the second. */
  predicate Settled(op: Junction, x: Expr, y: Expr)
    decreases Size(x), 1
  {
    Deduped(x) && JoinOperands(op, x, y).NoJoin?
  }

  ghost predicate Unjoinable(op: Junction, cells: seq<Expr>, lo1: nat, hi1: nat, lo2: nat, hi2: nat)
    requires hi1 <= |cells| && hi2 <= |cells|
  {
    forall i, j | lo1 <= i < hi1 && lo2 <= j < hi2 && i != j :: Settled(op, cells[i], cells[j])
  }

  /** What walking the operands [lo1, hi1) against [lo2, hi2) does to the row, and how much it counts. */
  ghost predicate Walked(op: Junction, d: nat, a: seq<Expr>, b: seq<Expr>, n: nat, lo1: nat, hi1: nat, lo2: nat, hi2: nat)
    requires hi1 <= |a| && hi2 <= |a|
  {
    && Refines(op, d, a, b)
    && (n > 0 ==> HasMark(b))
    && (n == 0 ==> a == b)
    && (n == 0 <==> Unjoinable(op, a, lo1, hi1, lo2, hi2))
  }

  lemma WalkedRows(op: Junction, d: nat, a: seq<Expr>, b: seq<Expr>, n: nat, c: seq<Expr>, m: nat,
                   lo1: nat, mid1: nat, hi1: nat, lo2: nat, hi2: nat)
    requires lo1 <= mid1 <= hi1 <= |c| && hi2 <= |c| && |a| == |b| == |c|
    requires Walked(op, d, a, b, n, lo1, mid1, lo2, hi2) && Walked(op, d, b, c, m, mid1, hi1, lo2, hi2)
    ensures Walked(op, d, a, c, n + m, lo1, hi1, lo2, hi2)
  {
    RefinesCompose(op, d, a, b, c);
    MarkStays(op, d, b, c);
    hide Refines, Settled, HasMark;
  }

  lemma WalkedColumns(op: Junction, d: nat, a: seq<Expr>, b: seq<Expr>, n: nat, c: seq<Expr>, m: nat,
                      lo1: nat, hi1: nat, lo2: nat, mid2: nat, hi2: nat)
    requires hi1 <= |c| && lo2 <= mid2 <= hi2 <= |c| && |a| == |b| == |c|
    requires Walked(op, d, a, b, n, lo1, hi1, lo2, mid2) && Walked(op, d, b, c, m, lo1, hi1, mid2, hi2)
    ensures Walked(op, d, a, c, n + m, lo1, hi1, lo2, hi2)
  {
    RefinesCompose(op, d, a, b, c);
    MarkStays(op, d, b, c);
    hide Refines, Settled, HasMark;
  }

  lemma MarkStays(op: Junction, d: nat, a: seq<Expr>, b: seq<Expr>)
    requires Refines(op, d, a, b)
    ensures |a| == |b| && (HasMark(a) ==> HasMark(b)) && (Shallow(op, d, a) ==> Shallow(op, d, b))
  {
  }

  /** What every step guarantees of a whole expression. */
  ghost predicate Keeps(e: Expr, r: Expr) {
    && (Normal(e) ==> Normal(r))
    && (Lone(e) ==> Lone(r))
    && Within(r, e)
    && (forall env | ValidEnv(env) && Plain(env, e) :: Eval(env, r) == Eval(env, e))
  }

  lemma KeepsItself(e: Expr)
    ensures Keeps(e, e)
  {
    hide Apart;
    forall a ensures Constants(e, a) <= Derivable(Constants(e, a)) {
      DerivableCloses(Constants(e, a), Constants(e, a));
    }
  }

  lemma PlainWithin(env: Env, new_: Expr, old_: Expr)
    requires Within(new_, old_) && Plain(env, old_)
    ensures Plain(env, new_)
  {
    hide Derivable, Apart;
    forall a: Symbol | a.Type() == Tri ensures Apart(env, Derivable(Constants(new_, a))) {
      DerivableCloses(Constants(new_, a), Constants(old_, a));
      ApartSubset(env, Derivable(Constants(new_, a)), Derivable(Constants(old_, a)));
    }
  }

  lemma WithinCompose(a: Expr, b: Expr, c: Expr)
    requires Within(b, a) && Within(c, b)
    ensures Within(c, a)
  {
    hide Derivable;
    forall s ensures Constants(c, s) <= Derivable(Constants(a, s)) {
      DerivableCloses(Constants(b, s), Constants(a, s));
    }
  }

  lemma KeepsCompose(a: Expr, b: Expr, c: Expr)
    requires Keeps(a, b) && Keeps(b, c)
    ensures Keeps(a, c)
  {
    hide Plain, Within;
    WithinCompose(a, b, c);
    forall env | ValidEnv(env) && Plain(env, a) ensures Eval(env, c) == Eval(env, a) {
      PlainWithin(env, b, a);
    }
  }

  /** What a pass guarantees of a whole expression. */
  ghost predicate RefinesExpr(e: Expr, r: Expr) {
    && Leaves(r) <= Leaves(e)
    && Depth(r) <= Depth(e)
    && (Marked(e) ==> Marked(r))
    && Keeps(e, r)
  }

  lemma RefinesOperands(e: Expr, r: Expr, d: nat)
    requires e.Join? && r.Join? && r.op == e.op && Depth(e) == d + 1
    requires Refines(e.op, d, Operands(e.op, e), Operands(e.op, r))
    ensures RefinesExpr(e, r)
  {
    LeavesOfOperands(e.op, e);
    LeavesOfOperands(e.op, r);
    MarkOfOperands(e.op, e);
    MarkOfOperands(e.op, r);
    NormalOfOperands(e.op, e);
    NormalOfOperands(e.op, r);
    LoneOfOperands(e.op, e);
    LoneOfOperands(e.op, r);
    DepthOfOperands(e, d);
    DepthOfOperands(r, d);
    forall a ensures RowConstants(Operands(e.op, e), a) == Constants(e, a) {
      ConstantsOfOperands(e.op, e, a);
    }
    forall a ensures RowConstants(Operands(e.op, r), a) == Constants(r, a) {
      ConstantsOfOperands(e.op, r, a);
    }
    hide Derivable, RowConstants, Apart;
    forall env | ValidEnv(env) && Plain(env, e) ensures Eval(env, r) == Eval(env, e) {
      EvalOfOperands(env, e.op, e);
      EvalOfOperands(env, e.op, r);
    }
  }

  lemma {:induction false} EliminateYnWithin(e: Expr, a: Symbol)
    ensures Constants(EliminateYn(e), a) <= Constants(e, a)
    ensures Normal(e) ==> Normal(EliminateYn(e))
    ensures Lone(e) ==> Lone(EliminateYn(e))
  {
    if e.Join? {
      EliminateYnWithin(e.left, a);
      EliminateYnWithin(e.right, a);
    }
  }

  lemma EliminateYnKeeps(e: Expr)
    ensures Keeps(e, EliminateYn(e))
  {
    hide Apart, EliminateYn, Eval;
    EliminateYnWithin(e, SymYes);
    forall a ensures Constants(EliminateYn(e), a) <= Derivable(Constants(e, a)) {
      EliminateYnWithin(e, a);
      DerivableCloses(Constants(e, a), Constants(e, a));
    }
    forall env | ValidEnv(env) ensures Eval(env, EliminateYn(e)) == Eval(env, e) {
      EliminateYnSound(env, e);
    }
  }

  lemma ShallowRow(op: Junction, d: nat, cells: seq<Expr>)
    requires Shallow(op, d, cells)
    ensures forall x | x in cells :: !Joins(op, x)
  {
  }

  lemma DedupedRow(e: Expr)
    requires e.Join?
    ensures var n := |Operands(e.op, e)|;
            Deduped(e) <==> Unjoinable(e.op, Operands(e.op, e), 0, n, 0, n)
  {
  }

  /** What walking all operands against all operands means for the expression. */
  lemma WalkedExpr(e: Expr, d: nat, cells: seq<Expr>, n: nat)
    requires e.Join? && Depth(e) == d + 1 && |cells| == |Operands(e.op, e)| && Shallow(e.op, d, cells)
    requires Walked(e.op, d, Operands(e.op, e), cells, n, 0, |cells|, 0, |cells|)
    ensures PassedOver(e, Rebuild(e.op, SpineOf(e.op, e), cells), n)
  {
    var r := Rebuild(e.op, SpineOf(e.op, e), cells);
    ShallowRow(e.op, d, cells);
    DedupedRow(e);
    RebuildOperands(e.op, e);
    OperandsRebuild(e.op, SpineOf(e.op, e), cells);
    MarkOfOperands(e.op, r);
    hide Refines, RefinesExpr, Shallow, Deduped, HasMark, Marked;
    RefinesOperands(e, r, d);
  }

  /** What a pass over an expression guarantees, having counted n simplifications. */
  ghost predicate PassedOver(e: Expr, r: Expr, n: nat)
    requires e.Join?
  {
    && r.Join? && r.op == e.op && RefinesExpr(e, r)
    && (n > 0 ==> Marked(r))
    && (n == 0 ==> r == e)
    && (n == 0 <==> Deduped(e))
  }

  // ---------- What the passes compute ----------

  /** The row and the number of simplifications after comparing every operand below the first spine with every
      operand below the second. */
  ghost function Rows(op: Junction, s1: Spine, o1: nat, s2: Spine, o2: nat, cells: seq<Expr>, d: nat): (r: (seq<Expr>, nat))
    requires o1 + s1.Cells() <= |cells| && o2 + s2.Cells() <= |cells| && Shallow(op, d, cells)
    ensures |r.0| == |cells| && Shallow(op, d, r.0)
    decreases d, 2, s1.Cells()
  {
    hide Shallow;
    if s1.Cell? then Columns(op, o1, s2, o2, cells, d)
    else
      var a := Rows(op, s1.l, o1, s2, o2, cells, d);
      var b := Rows(op, s1.r, o1 + s1.l.Cells(), s2, o2, a.0, d);
      (b.0, a.1 + b.1)
  }

  /** The same for one operand. */
  ghost function Columns(op: Junction, o1: nat, s2: Spine, o2: nat, cells: seq<Expr>, d: nat): (r: (seq<Expr>, nat))
    requires o1 < |cells| && o2 + s2.Cells() <= |cells| && Shallow(op, d, cells)
    ensures |r.0| == |cells| && Shallow(op, d, r.0)
    decreases d, 1, s2.Cells()
  {
    hide Shallow;
    if s2.Fork? then
      var a := Columns(op, o1, s2.l, o2, cells, d);
      var b := Columns(op, o1, s2.r, o2 + s2.l.Cells(), a.0, d);
      (b.0, a.1 + b.1)
    else if o1 != o2 then Met(op, o1, o2, cells, d)
    else (cells, 0)
  }

  /** A nested pass inside the first operand, which is then joined into the second where a rule allows. */
  ghost function Met(op: Junction, o1: nat, o2: nat, cells: seq<Expr>, d: nat): (r: (seq<Expr>, nat))
    requires o1 < |cells| && o2 < |cells| && o1 != o2 && Shallow(op, d, cells)
    ensures |r.0| == |cells| && Shallow(op, d, r.0)
    decreases d, 0, 2
  {
    hide JoinOperands;
    var a := Descended(op, o1, cells, d);
    match JoinOperands(op, a.0[o1], a.0[o2]) {
      case NoJoin => a
      case Into(t) =>
        JoinOperandsShape(op, a.0[o1], a.0[o2]);
        (a.0[o1 := UnitExpr(op)][o2 := t], a.1 + 1)
    }
  }

  /** The nested pass, which there is only inside a join. */
  ghost function Descended(op: Junction, o: nat, cells: seq<Expr>, d: nat): (r: (seq<Expr>, nat))
    requires o < |cells| && Shallow(op, d, cells)
    ensures |r.0| == |cells| && Shallow(op, d, r.0)
    decreases d, 0, 1
  {
    assert cells[o] in cells;
    if !cells[o].Join? then (cells, 0)
    else
      var p := Passed(cells[o]);
      (cells[o := p.0], p.1)
  }

  /** One pass of an expression against itself. */
  ghost function Passed(e: Expr): (r: (Expr, nat))
    requires e.Join?
    ensures r.0.Join? && r.0.op == e.op && Depth(r.0) <= Depth(e)
    decreases Depth(e) - 1, 3, 0
  {
    hide Rows;
    OperandsAreShallow(e);
    var spine := SpineOf(e.op, e);
    var w := Rows(e.op, spine, 0, spine, 0, Operands(e.op, e), Depth(e) - 1);
    RebuiltDepth(e, w.0);
    (Rebuild(e.op, spine, w.0), w.1)
  }

  lemma OperandsAreShallow(e: Expr)
    requires e.Join?
    ensures Depth(e) >= 1 && Shallow(e.op, Depth(e) - 1, Operands(e.op, e))
  {
    DepthOfOperands(e, Depth(e) - 1);
  }

  lemma RebuiltDepth(e: Expr, cells: seq<Expr>)
    requires e.Join? && |cells| == SpineOf(e.op, e).Cells() && Shallow(e.op, Depth(e) - 1, cells)
    ensures var r := Rebuild(e.op, SpineOf(e.op, e), cells); r.Join? && r.op == e.op && Depth(r) <= Depth(e)
  {
    var r := Rebuild(e.op, SpineOf(e.op, e), cells);
    ShallowRow(e.op, Depth(e) - 1, cells);
    OperandsRebuild(e.op, SpineOf(e.op, e), cells);
    DepthOfOperands(r, Depth(e) - 1);
  }

  // ---------- What they guarantee ----------

  lemma {:induction false} RowsWalked(op: Junction, s1: Spine, o1: nat, s2: Spine, o2: nat, cells: seq<Expr>, d: nat)
    requires o1 + s1.Cells() <= |cells| && o2 + s2.Cells() <= |cells| && Shallow(op, d, cells)
    ensures var r := Rows(op, s1, o1, s2, o2, cells, d);
            Walked(op, d, cells, r.0, r.1, o1, o1 + s1.Cells(), o2, o2 + s2.Cells())
    decreases d, 2, s1.Cells()
  {
    hide Shallow, Walked, Columns;
    if s1.Cell? {
      ColumnsWalked(op, o1, s2, o2, cells, d);
    } else {
      RowsWalked(op, s1.l, o1, s2, o2, cells, d);
      var a := Rows(op, s1.l, o1, s2, o2, cells, d);
      RowsWalked(op, s1.r, o1 + s1.l.Cells(), s2, o2, a.0, d);
      var b := Rows(op, s1.r, o1 + s1.l.Cells(), s2, o2, a.0, d);
      WalkedRows(op, d, cells, a.0, a.1, b.0, b.1, o1, o1 + s1.l.Cells(), o1 + s1.Cells(), o2, o2 + s2.Cells());
    }
  }

  lemma {:induction false} ColumnsWalked(op: Junction, o1: nat, s2: Spine, o2: nat, cells: seq<Expr>, d: nat)
    requires o1 < |cells| && o2 + s2.Cells() <= |cells| && Shallow(op, d, cells)
    ensures var r := Columns(op, o1, s2, o2, cells, d);
            Walked(op, d, cells, r.0, r.1, o1, o1 + 1, o2, o2 + s2.Cells())
    decreases d, 1, s2.Cells()
  {
    hide Shallow, Walked, Met;
    if s2.Fork? {
      ColumnsWalked(op, o1, s2.l, o2, cells, d);
      var a := Columns(op, o1, s2.l, o2, cells, d);
      ColumnsWalked(op, o1, s2.r, o2 + s2.l.Cells(), a.0, d);
      var b := Columns(op, o1, s2.r, o2 + s2.l.Cells(), a.0, d);
      WalkedColumns(op, d, cells, a.0, a.1, b.0, b.1, o1, o1 + 1, o2, o2 + s2.l.Cells(), o2 + s2.Cells());
    } else if o1 != o2 {
      MetWalked(op, o1, o2, cells, d);
    } else {
      NothingWalked(op, o1, cells, d);
    }
  }

  lemma NothingWalked(op: Junction, o: nat, cells: seq<Expr>, d: nat)
    requires o < |cells|
    ensures Walked(op, d, cells, cells, 0, o, o + 1, o, o + 1)
  {
    hide Refines;
    RefinesItself(op, d, cells);
  }

  lemma {:induction false} MetWalked(op: Junction, o1: nat, o2: nat, cells: seq<Expr>, d: nat)
    requires o1 < |cells| && o2 < |cells| && o1 != o2 && Shallow(op, d, cells)
    ensures var r := Met(op, o1, o2, cells, d); Walked(op, d, cells, r.0, r.1, o1, o1 + 1, o2, o2 + 1)
    decreases d, 0, 2
  {
    hide JoinOperands, Shallow, HasMark, Refines, Descended, Deduped;
    DescendedRefines(op, o1, cells, d);
    var a := Descended(op, o1, cells, d);
    var r := Met(op, o1, o2, cells, d);
    if JoinOperands(op, a.0[o1], a.0[o2]).Into? {
      RefinesJoin(op, d, a.0, o1, o2);
      RefinesCompose(op, d, cells, a.0, r.0);
    }
    assert r.1 == 0 <==> Settled(op, cells[o1], cells[o2]);
  }

  lemma {:induction false} DescendedRefines(op: Junction, o: nat, cells: seq<Expr>, d: nat)
    requires o < |cells| && Shallow(op, d, cells)
    ensures var r := Descended(op, o, cells, d);
            && Refines(op, d, cells, r.0)
            && (r.1 > 0 ==> HasMark(r.0))
            && (r.1 == 0 ==> r.0 == cells)
            && (r.1 == 0 <==> Deduped(cells[o]))
    decreases d, 0, 1
  {
    hide Passed;
    assert cells[o] in cells;
    if !cells[o].Join? {
      RefinesItself(op, d, cells);
    } else {
      PassedRefines(cells[o]);
      RefinesReplace(op, d, cells, o, Passed(cells[o]).0);
    }
  }

  lemma PassedInRows(e: Expr)
    requires e.Join? && Depth(e) >= 1 && Shallow(e.op, Depth(e) - 1, Operands(e.op, e))
    ensures var w := Rows(e.op, SpineOf(e.op, e), 0, SpineOf(e.op, e), 0, Operands(e.op, e), Depth(e) - 1);
            Passed(e) == (Rebuild(e.op, SpineOf(e.op, e), w.0), w.1)
  {
    hide Rows, Rebuild, Shallow;
  }

  lemma {:induction false} OperandsWalked(e: Expr)
    requires e.Join? && Depth(e) >= 1 && Shallow(e.op, Depth(e) - 1, Operands(e.op, e))
    ensures var cells, spine := Operands(e.op, e), SpineOf(e.op, e);
            var w := Rows(e.op, spine, 0, spine, 0, cells, Depth(e) - 1);
            Walked(e.op, Depth(e) - 1, cells, w.0, w.1, 0, |cells|, 0, |cells|)
    decreases Depth(e) - 1, 3
  {
    hide *;
    RowsWalked(e.op, SpineOf(e.op, e), 0, SpineOf(e.op, e), 0, Operands(e.op, e), Depth(e) - 1);
  }

  /** A pass keeps the value, adds no leaves, counts nothing exactly when no two operands of any level could be joined,
      and then changes nothing. */
  lemma {:induction false} PassedRefines(e: Expr)
    requires e.Join?
    ensures PassedOver(e, Passed(e).0, Passed(e).1)
    decreases Depth(e) - 1, 4
  {
    OperandsAreShallow(e);
    PassedInRows(e);
    OperandsWalked(e);
    hide *;
    var spine, d: nat := SpineOf(e.op, e), Depth(e) - 1;
    var w := Rows(e.op, spine, 0, spine, 0, Operands(e.op, e), d);
    WalkedExpr(e, d, w.0, w.1);
  }

  /** Passes and constant elimination in turn until a pass changes nothing. */
  ghost function Deduplicated(e: Expr): Expr
    decreases Leaves(e)
  {
    hide Passed;
    if !e.Join? then e
    else
      var p := Passed(e);
      if p.1 == 0 then e
      else
        PassedRefines(e);
        EliminateYnShape(p.0);
        Deduplicated(EliminateYn(p.0))
  }

  /** The value is kept in every environment in which no two constants that a tristate can come to be compared with
      denote the same value, no comparison with anything but those appears, the number of leaves does not grow, and
      nothing that could be joined is left at any level.  An expression of which that is true already stays as it is. */
  lemma {:induction false} DeduplicatedKeeps(e: Expr)
    ensures Keeps(e, Deduplicated(e))
    ensures Leaves(Deduplicated(e)) <= Leaves(e)
    ensures Deduped(Deduplicated(e))
    ensures Deduped(e) ==> Deduplicated(e) == e
    ensures YnFree(e) ==> YnFree(Deduplicated(e))
    decreases Leaves(e)
  {
    hide Passed, Keeps, Deduped;
    KeepsItself(e);
    if e.Join? {
      var p := Passed(e);
      PassedRefines(e);
      if p.1 > 0 {
        var x := EliminateYn(p.0);
        EliminateYnShape(p.0);
        EliminateYnKeeps(p.0);
        KeepsCompose(e, p.0, x);
        DeduplicatedKeeps(x);
        KeepsCompose(e, x, Deduplicated(x));
      }
    } else {
      NothingToJoin(e);
    }
  }

  /** What is changed ends without y and n operands. */
  lemma DeduplicatedYnFree(e: Expr)
    ensures Deduplicated(e) == e || YnFree(Deduplicated(e))
  {
    hide Passed;
    if e.Join? && Passed(e).1 > 0 {
      EliminateYnShape(Passed(e).0);
      DeduplicatedKeeps(EliminateYn(Passed(e).0));
    }
  }

  lemma NothingToJoin(e: Expr)
    requires !e.Join?
    ensures Deduped(e)
  {
  }

  /** What the loop goes on from after a pass. */
  lemma PassCounts(e: Expr)
    requires e.Join?
    ensures var p := Passed(e);
            if p.1 == 0 then p.0 == e == Deduplicated(e)
            else Deduplicated(EliminateYn(p.0)) == Deduplicated(e) && Leaves(EliminateYn(p.0)) < Leaves(e)
  {
    hide Passed, Keeps, Deduped;
    PassedRefines(e);
    EliminateYnShape(Passed(e).0);
  }

  // ---------- The passes on cells ----------

  class Deduplicator {
    /** Simplifications made so far; shared by all nested passes. */
    var transCount: nat

    constructor ()
      ensures transCount == 0
    {
      transCount := 0;
    }

    /** Compares every operand below the first spine with every operand below the second. */
    method Walk(op: Junction, s1: Spine, o1: nat, s2: Spine, o2: nat, cells: array<Expr>, ghost d: nat)
      requires o1 + s1.Cells() <= cells.Length && o2 + s2.Cells() <= cells.Length
      requires Shallow(op, d, cells[..])
      modifies this, cells
      ensures var w := Rows(op, s1, o1, s2, o2, old(cells[..]), d); cells[..] == w.0 && transCount == old(transCount) + w.1
      decreases d, 2, s1.Cells()
    {
      hide Shallow;
      if s1.Fork? {
        Walk(op, s1.l, o1, s2, o2, cells, d);
        Walk(op, s1.r, o1 + s1.l.Cells(), s2, o2, cells, d);
      } else {
        WalkOperand(op, o1, s2, o2, cells, d);
      }
    }

    /** Compares one operand with every operand below the second spine. */
    method WalkOperand(op: Junction, o1: nat, s2: Spine, o2: nat, cells: array<Expr>, ghost d: nat)
      requires o1 < cells.Length && o2 + s2.Cells() <= cells.Length
      requires Shallow(op, d, cells[..])
      modifies this, cells
      ensures var w := Columns(op, o1, s2, o2, old(cells[..]), d); cells[..] == w.0 && transCount == old(transCount) + w.1
      decreases d, 1, s2.Cells()
    {
      hide Shallow;
      if s2.Fork? {
        WalkOperand(op, o1, s2.l, o2, cells, d);
        WalkOperand(op, o1, s2.r, o2 + s2.l.Cells(), cells, d);
      } else if o1 != o2 {
        Meet(op, o1, o2, cells, d);
      }
    }

    /** Simplifies inside the first operand, then joins it into the second where a rule allows. */
    method Meet(op: Junction, o1: nat, o2: nat, cells: array<Expr>, ghost d: nat)
      requires o1 < cells.Length && o2 < cells.Length && o1 != o2 && Shallow(op, d, cells[..])
      modifies this, cells
      ensures var w := Met(op, o1, o2, old(cells[..]), d); cells[..] == w.0 && transCount == old(transCount) + w.1
      decreases d, 0, 2
    {
      hide JoinOperands, Shallow;
      if cells[o1].Join? {
        Descend(op, o1, cells, d);
      }
      ghost var mid := cells[..];
      var joined := JoinOperands(op, cells[o1], cells[o2]);
      if joined.Into? {
        cells[o1] := UnitExpr(op);
        cells[o2] := joined.e;
        transCount := transCount + 1;
        assert cells[..] == mid[o1 := UnitExpr(op)][o2 := joined.e];
      }
    }

    /** Runs a nested pass inside one operand. */
    method Descend(op: Junction, o: nat, cells: array<Expr>, ghost d: nat)
      requires o < cells.Length && cells[o].Join? && Shallow(op, d, cells[..])
      modifies this, cells
      ensures var w := Descended(op, o, old(cells[..]), d); cells[..] == w.0 && transCount == old(transCount) + w.1
      decreases d, 0, 1
    {
      ghost var before := cells[..];
      assert before[o] in before;
      var t := Pass(cells[o]);
      cells[o] := t;
      assert cells[..] == before[o := t];
    }

    /** One pass of an expression against itself. */
    method Pass(e: Expr) returns (r: Expr)
      requires e.Join?
      modifies this
      ensures r == Passed(e).0 && transCount == old(transCount) + Passed(e).1
      decreases Depth(e) - 1, 3, 0
    {
      OperandsAreShallow(e);
      ghost var d: nat := Depth(e) - 1;
      hide Shallow, Rows, Rebuild;
      var spine := SpineOf(e.op, e);
      var operands := Operands(e.op, e);
      var cells := new Expr[|operands|](i requires 0 <= i < |operands| => operands[i]);
      assert cells[..] == operands;
      Walk(e.op, spine, 0, spine, 0, cells, d);
      r := Rebuild(e.op, spine, cells[..]);
    }

    /** expr_eliminate_dups: the counter is shared with the passes and put back in the end. */
    method EliminateDups(e: Expr) returns (r: Expr)
      modifies this
      ensures r == Deduplicated(e)
      ensures transCount == old(transCount)
    {
      hide Passed;
      var oldCount := transCount;
      r := e;
      while true
        invariant Deduplicated(r) == Deduplicated(e)
        decreases Leaves(r)
      {
        transCount := 0;
        if r.Join? {
          PassCounts(r);
          r := Pass(r);
        }
        if transCount == 0 {
          break;
        }
        r := EliminateYn(r);
      }
      transCount := oldCount;
    }
  }
}
