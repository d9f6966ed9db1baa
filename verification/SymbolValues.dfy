/** The values of bool and tristate symbols: the equations that define them, and the lazy evaluator that
    caches them.  Choices and int, hex and string symbols are not modelled, and whether modules are enabled
    is a constant. */
module SymbolValues {
  import opened Tristates
  import opened Exprs
  import opened ExprTransform
  import opened MenuConditions
  import opened SymbolGraph

  /** The fixed part of a configuration. */
  datatype Setting = Setting(g: Graph, modules: bool, numeral: (SymbolType, string) -> Reading)

  type Assignment = seq<Tristate>

  // ---------- Expressions under an assignment ----------

  function SymbolValue(c: Setting, v: Assignment, s: Symbol): Tristate {
    match s
    case SymYes => YES
    case SymMod => MOD
    case SymNo => NO
    case Constant(_) => NO
    case Config(id, ty) => if id < |v| && id < |c.g| && c.g[id].ty == ty then v[id] else NO
  }

  /** The text of a symbol; m reads as n when modules are off. */
  function SymbolText(c: Setting, v: Assignment, s: Symbol): string {
    match s
    case SymYes => "y"
    case SymMod => "m"
    case SymNo => "n"
    case Constant(w) => w
    case Config(id, _) =>
      if !s.Logic() then if id < |c.g| then c.g[id].name else ""
      else
        var t := SymbolValue(c, v, s);
        if t == MOD && !c.modules then "n" else TriText(t)
  }

  function EnvOf(c: Setting, v: Assignment): Env {
    Env(s => SymbolValue(c, v, s), s => SymbolText(c, v, s), c.numeral)
  }

  function ValueIn(c: Setting, v: Assignment, m: MaybeExpr): Tristate {
    Value(EnvOf(c, v), m)
  }

  // ---------- The value equations ----------

  /** The type a symbol behaves as. */
  function EffectiveType(c: Setting, ty: SymbolType): SymbolType {
    if ty == Tri && !c.modules then Boolean else ty
  }

  /** For a symbol that behaves as a bool, m counts as y. */
  function Promote(c: Setting, ty: SymbolType, t: Tristate): Tristate {
    if t == MOD && EffectiveType(c, ty) == Boolean then YES else t
  }

  function PromptsVisible(c: Setting, v: Assignment, props: seq<Property>): Tristate {
    if props == [] then NO
    else
      var rest := PromptsVisible(c, v, props[1..]);
      if props[0].hasText then TriOr(ValueIn(c, v, props[0].visible), rest) else rest
  }

  function Visibility(c: Setting, v: Assignment, x: SymbolInfo): Tristate {
    var t := PromptsVisible(c, v, x.props);
    if t == MOD && (x.ty != Tri || !c.modules) then YES else t
  }

  /** The conditions of a symbol; a missing dependency is y, a missing reverse dependency n. */
  function DependsValue(c: Setting, v: Assignment, x: SymbolInfo): Tristate {
    Promote(c, x.ty, ValueIn(c, v, x.dirDep))
  }

  function ReverseValue(c: Setting, v: Assignment, ty: SymbolType, m: MaybeExpr): Tristate {
    Promote(c, ty, if m == Null then NO else ValueIn(c, v, m))
  }

  /** The first default whose condition is not n, cut down to its condition; n if there is none. */
  function DefaultValue(c: Setting, v: Assignment, props: seq<Property>): Tristate {
    if props == [] then NO
    else if props[0].kind == Default && ValueIn(c, v, props[0].visible) != NO then
      TriAnd(ValueIn(c, v, props[0].expr), ValueIn(c, v, props[0].visible))
    else DefaultValue(c, v, props[1..])
  }

  /** What a symbol is worth before reverse dependencies: the user's value up to the visibility where the
      symbol is visible and has one, else its default, raised by what implies it up to what it depends on. */
  function OwnValue(c: Setting, v: Assignment, x: SymbolInfo): Tristate {
    var visible := Visibility(c, v, x);
    if visible != NO && x.user.User? then TriAnd(x.user.t, visible)
    else
      var d := DefaultValue(c, v, x.props);
      var implied := ReverseValue(c, v, x.ty, x.implied);
      if implied == NO then d else TriAnd(TriOr(d, implied), DependsValue(c, v, x))
  }

  /** The value equation of a symbol. */
  function Formula(c: Setting, v: Assignment, x: SymbolInfo): Tristate {
    if x.ty !in {Boolean, Tri} then NO
    else Promote(c, x.ty, TriOr(OwnValue(c, v, x), ReverseValue(c, v, x.ty, x.revDep)))
  }

  predicate Satisfies(c: Setting, v: Assignment, i: nat)
    requires i < |c.g| == |v|
  {
    v[i] == Formula(c, v, c.g[i])
  }

  /** An assignment that satisfies every equation. */
  ghost predicate Solves(c: Setting, v: Assignment) {
    |v| == |c.g| && forall i | 0 <= i < |v| :: Satisfies(c, v, i)
  }

  // ---------- Only mentioned symbols matter ----------

  predicate Agree(v: Assignment, w: Assignment, s: set<nat>) {
    |v| == |w| && forall k | k in s && k < |v| :: v[k] == w[k]
  }

  lemma SymbolLocal(c: Setting, v: Assignment, w: Assignment, s: Symbol)
    requires Agree(v, w, Mention(s))
    ensures SymbolValue(c, v, s) == SymbolValue(c, w, s) && SymbolText(c, v, s) == SymbolText(c, w, s)
  {
    if s.Config? {
      assert s.id in Mention(s);
    }
  }

  lemma CompareLocal(c: Setting, v: Assignment, w: Assignment, a: Symbol, b: Symbol)
    requires Agree(v, w, Mention(a) + Mention(b))
    ensures Compare(EnvOf(c, v), a, b) == Compare(EnvOf(c, w), a, b)
  {
    assert Agree(v, w, Mention(a)) && Agree(v, w, Mention(b));
    SymbolLocal(c, v, w, a);
    SymbolLocal(c, v, w, b);
    var x, y := EnvOf(c, v), EnvOf(c, w);
    assert x.text(a) == y.text(a) && x.text(b) == y.text(b);
  }

  lemma {:induction false} EvalLocal(c: Setting, v: Assignment, w: Assignment, e: Expr)
    requires Agree(v, w, Mentions(e))
    ensures Eval(EnvOf(c, v), e) == Eval(EnvOf(c, w), e)
  {
    match e
    case Sym(s) => SymbolLocal(c, v, w, s);
    case Not(x) => EvalLocal(c, v, w, x);
    case Join(_, l, r) => EvalLocal(c, v, w, l); EvalLocal(c, v, w, r);
    case Rel(_, a, b) => CompareLocal(c, v, w, a, b);
  }

  lemma MaybeLocal(c: Setting, v: Assignment, w: Assignment, m: MaybeExpr)
    requires Agree(v, w, MaybeMentions(m))
    ensures ValueIn(c, v, m) == ValueIn(c, w, m)
  {
    if m.Some? {
      EvalLocal(c, v, w, m.e);
    }
  }

  /** Select and imply properties carry no prompt. */
  predicate PromptsFollowed(props: seq<Property>) {
    forall p | p in props :: p.hasText ==> p.kind !in {Select, Imply}
  }

  lemma {:induction false} PropertiesLocal(c: Setting, v: Assignment, w: Assignment, props: seq<Property>)
    requires Agree(v, w, PropertiesMention(props)) && PromptsFollowed(props)
    ensures PromptsVisible(c, v, props) == PromptsVisible(c, w, props)
    ensures DefaultValue(c, v, props) == DefaultValue(c, w, props)
  {
    if props != [] {
      var p := props[0];
      if p.kind !in {Select, Imply} {
        MaybeLocal(c, v, w, p.visible);
      }
      if p.kind == Default {
        MaybeLocal(c, v, w, p.expr);
      }
      PropertiesLocal(c, v, w, props[1..]);
    }
  }

  lemma FormulaLocal(c: Setting, v: Assignment, w: Assignment, i: nat)
    requires i < |c.g| && Agree(v, w, Edges(c.g, i)) && PromptsFollowed(c.g[i].props)
    ensures Formula(c, v, c.g[i]) == Formula(c, w, c.g[i])
  {
    var x := c.g[i];
    PropertiesLocal(c, v, w, x.props);
    MaybeLocal(c, v, w, x.dirDep);
    MaybeLocal(c, v, w, x.revDep);
    MaybeLocal(c, v, w, x.implied);
  }

  // ---------- Existence and uniqueness ----------

  /** A well-formed setting whose symbol graph the dependency check accepts. */
  ghost predicate Sound(c: Setting) {
    && WellFormed(c.g)
    && Acyclic(c.g)
    && forall i | 0 <= i < |c.g| :: PromptsFollowed(c.g[i].props)
  }

  lemma {:induction false} AgreeBelow(c: Setting, rank: nat -> nat, v: Assignment, w: Assignment, n: nat)
    requires Sound(c) && Ranks(c.g, rank) && Solves(c, v) && Solves(c, w)
    ensures forall i | 0 <= i < |c.g| && rank(i) < n :: v[i] == w[i]
  {
    if n > 0 {
      AgreeBelow(c, rank, v, w, n - 1);
      forall i | 0 <= i < |c.g| && rank(i) < n ensures v[i] == w[i] {
        assert Satisfies(c, v, i) && Satisfies(c, w, i);
        FormulaLocal(c, v, w, i);
      }
    }
  }

  /** The equations have at most one solution. */
  lemma SolutionUnique(c: Setting, v: Assignment, w: Assignment)
    requires Sound(c) && Solves(c, v) && Solves(c, w)
    ensures v == w
  {
    var rank: nat -> nat :| Ranks(c.g, rank);
    forall i | 0 <= i < |v| ensures v[i] == w[i] {
      AgreeBelow(c, rank, v, w, rank(i) + 1);
    }
  }

  /** n rounds of evaluating every equation, from all n. */
  function Rounds(c: Setting, n: nat): (v: Assignment)
    ensures |v| == |c.g|
  {
    if n == 0 then seq(|c.g|, i => NO)
    else
      var v := Rounds(c, n - 1);
      seq(|c.g|, i requires 0 <= i < |c.g| => Formula(c, v, c.g[i]))
  }

  lemma NextRoundSettles(c: Setting, v: Assignment, w: Assignment, i: nat)
    requires i < |c.g| == |v| == |w| && PromptsFollowed(c.g[i].props)
    requires Agree(v, w, Edges(c.g, i)) && w[i] == Formula(c, v, c.g[i])
    ensures Satisfies(c, w, i)
  {
    FormulaLocal(c, v, w, i);
  }

  lemma {:induction false} RoundsSettle(c: Setting, rank: nat -> nat, n: nat)
    requires Sound(c) && Ranks(c.g, rank)
    ensures forall i | 0 <= i < |c.g| && rank(i) < n :: Satisfies(c, Rounds(c, n), i)
  {
    if n > 0 {
      RoundsSettle(c, rank, n - 1);
      var v, w := Rounds(c, n - 1), Rounds(c, n);
      forall i | 0 <= i < |c.g| && rank(i) < n ensures Satisfies(c, w, i) {
        forall k | k in Edges(c.g, i) && k < |v| ensures v[k] == w[k] {
          assert Satisfies(c, v, k);
        }
        NextRoundSettles(c, v, w, i);
      }
    }
  }

  function Highest(rank: nat -> nat, n: nat): (h: nat)
    ensures forall i: nat | i < n :: rank(i) < h
  {
    if n == 0 then 0 else
      var h := Highest(rank, n - 1);
      if rank(n - 1) < h then h else rank(n - 1) + 1
  }

  /** The equations have a solution. */
  lemma SolutionExists(c: Setting)
    requires Sound(c)
    ensures exists v :: Solves(c, v)
  {
    var rank: nat -> nat :| Ranks(c.g, rank);
    var n := Highest(rank, |c.g|);
    RoundsSettle(c, rank, n);
    assert Solves(c, Rounds(c, n));
  }

  /** The solution. */
  ghost function Solution(c: Setting): (v: Assignment)
    requires Sound(c)
    ensures Solves(c, v)
  {
    SolutionExists(c);
    var v :| Solves(c, v);
    v
  }

  /** The library reads no number in y, m and n, and reads the texts of constants as signed numbers. */
  ghost predicate SensibleNumerals(c: Setting) {
    && (forall t: Tristate :: c.numeral(Unknown, TriText(t)) == NotANumber)
    && (forall w :: !c.numeral(Unknown, w).Unsigned?)
  }

  lemma FormulaRange(c: Setting, v: Assignment, x: SymbolInfo)
    ensures EffectiveType(c, x.ty) == Boolean ==> Formula(c, v, x) != MOD
  {
  }

  /** The solution is an environment in the sense of the expression theorems: no bool symbol is m, and no
      tristate symbol is m while modules are off. */
  lemma SolutionIsEnvironment(c: Setting)
    requires Sound(c) && SensibleNumerals(c)
    ensures ValidEnv(EnvOf(c, Solution(c)))
    ensures !c.modules ==> forall i | 0 <= i < |c.g| :: Solution(c)[i] != MOD
  {
    var v := Solution(c);
    forall i | 0 <= i < |c.g| ensures EffectiveType(c, c.g[i].ty) == Boolean ==> v[i] != MOD {
      assert Satisfies(c, v, i);
      FormulaRange(c, v, c.g[i]);
    }
    forall i | 0 <= i < |c.g| && !c.modules ensures v[i] != MOD {
      assert Satisfies(c, v, i);
    }
  }

  // ---------- Rewritten prompt conditions ----------

  /** A property whose condition has its tests against n dropped. */
  function WithoutTests(p: Property): Property {
    if p.visible == Null then p else p.(visible := Some(TransBool(p.visible.e)))
  }

  ghost predicate Rewritten(props: seq<Property>, others: seq<Property>) {
    && |props| == |others|
    && forall k | 0 <= k < |props| ::
         others[k] == WithoutTests(props[k]) && (props[k].visible.Some? ==> QuietNegations(props[k].visible.e))
  }

  lemma {:induction false} RewrittenPrompts(c: Setting, v: Assignment, props: seq<Property>, others: seq<Property>)
    requires ValidEnv(EnvOf(c, v)) && Rewritten(props, others)
    ensures PromptsVisible(c, v, props) == NO <==> PromptsVisible(c, v, others) == NO
  {
    if props != [] {
      if props[0].visible.Some? {
        TransBoolKeepsVisibility(EnvOf(c, v), props[0].visible.e);
      }
      RewrittenPrompts(c, v, props[1..], others[1..]);
    }
  }

  /** Dropping the tests does not change the visibility of a symbol that is not a tristate: m counts as y. */
  lemma RewrittenVisibility(c: Setting, v: Assignment, x: SymbolInfo, others: seq<Property>)
    requires ValidEnv(EnvOf(c, v)) && x.ty != Tri && Rewritten(x.props, others)
    ensures Visibility(c, v, x.(props := others)) == Visibility(c, v, x)
  {
    RewrittenPrompts(c, v, x.props, others);
  }

  /** A symbol is written to the configuration file when it is visible, selected, implied or defaulted. */
  predicate Written(c: Setting, v: Assignment, x: SymbolInfo) {
    && x.ty in {Boolean, Tri}
    && (|| Visibility(c, v, x) != NO
        || ReverseValue(c, v, x.ty, x.revDep) != NO
        || ReverseValue(c, v, x.ty, x.implied) != NO
        || DefaultValue(c, v, x.props) != NO)
  }

  lemma DefaultStep(c: Setting, v: Assignment, props: seq<Property>, k: nat)
    requires k < |props|
    ensures DefaultValue(c, v, props[k..])
         == if props[k].kind == Default && ValueIn(c, v, props[k].visible) != NO
            then TriAnd(ValueIn(c, v, props[k].expr), ValueIn(c, v, props[k].visible))
            else DefaultValue(c, v, props[k + 1..])
  {
    assert props[k..][1..] == props[k + 1..];
  }

  lemma DefaultNothing(c: Setting, v: Assignment, props: seq<Property>)
    ensures DefaultValue(c, v, props[|props|..]) == NO
  {
  }

  // ---------- The lazy evaluator ----------

  class Calculator {
    const c: Setting
    /** Whether a symbol's value is up to date, its value, its visibility, and whether it is to be written. */
    var valid: seq<bool>
    var curr: Assignment
    var visible: Assignment
    var write: seq<bool>
    ghost const rank: nat -> nat

    constructor (c: Setting, ghost rank: nat -> nat)
      requires Sound(c) && Ranks(c.g, rank)
      ensures this.c == c && this.rank == rank && Shaped() && Ready(Highest(rank, |c.g|))
      ensures forall i | 0 <= i < |c.g| :: !valid[i]
    {
      this.c, this.rank := c, rank;
      valid, write := seq(|c.g|, i => false), seq(|c.g|, i => false);
      curr, visible := seq(|c.g|, i => NO), seq(|c.g|, i => NO);
    }

    ghost predicate Shaped()
      reads this
    {
      && Sound(c) && Ranks(c.g, rank)
      && |valid| == |curr| == |visible| == |write| == |c.g|
    }

    ghost predicate Final(i: nat)
      requires Shaped() && i < |c.g|
      reads this
    {
      var v := Solution(c);
      && curr[i] == v[i]
      && (c.g[i].ty in {Boolean, Tri} ==>
            visible[i] == Visibility(c, v, c.g[i]) && write[i] == Written(c, v, c.g[i]))
    }

    /** Every symbol of rank below n that is flagged valid has its final value.  Symbols in the middle of
        being calculated are flagged too, but have a higher rank. */
    ghost predicate Ready(n: nat)
      requires Shaped()
      reads this
    {
      forall i | 0 <= i < |c.g| && rank(i) < n && valid[i] :: Final(i)
    }

    /** Only symbols of rank below n were touched, and none lost its value. */
    twostate predicate OnlyBelow(n: nat)
      requires old(Shaped()) && Shaped()
      reads this
    {
      Untouched(n, |c.g|)
    }

    twostate predicate Untouched(n: nat, except: nat)
      requires old(Shaped()) && Shaped()
      reads this
    {
      && (forall i | 0 <= i < |c.g| && i != except && rank(i) >= n ::
            valid[i] == old(valid)[i] && curr[i] == old(curr)[i]
            && visible[i] == old(visible)[i] && write[i] == old(write)[i])
      && (forall i | 0 <= i < |c.g| && old(valid)[i] :: valid[i])
    }

    /** expr_calc_value. */
    method CalcExpr(e: Expr, ghost n: nat) returns (t: Tristate)
      requires Shaped() && Known(c.g, e) && Ready(n)
      requires forall k | k in Mentions(e) :: rank(k) < n
      modifies this
      ensures Shaped() && Ready(n) && OnlyBelow(n)
      ensures t == Eval(EnvOf(c, Solution(c)), e)
      decreases n, 1, e
    {
      match e
      case Sym(s) =>
        t := CalcSymbol(s, n);
      case Not(x) =>
        var a := CalcExpr(x, n);
        t := TriNot(a);
      case Join(op, l, r) =>
        var a := CalcExpr(l, n);
        var b := CalcExpr(r, n);
        t := Combine(op, a, b);
      case Rel(rel, a, b) =>
        var _ := CalcSymbol(a, n);
        var _ := CalcSymbol(b, n);
        var order := Compare(EnvOf(c, curr), a, b);
        CompareLocal(c, curr, Solution(c), a, b);
        t := TriOf(Holds(rel, order));
    }

    method CalcSymbol(s: Symbol, ghost n: nat) returns (t: Tristate)
      requires Shaped() && SymbolKnown(c.g, s) && Ready(n)
      requires forall k | k in Mention(s) :: rank(k) < n
      modifies this
      ensures Shaped() && Ready(n) && OnlyBelow(n)
      ensures t == SymbolValue(c, Solution(c), s)
      ensures s.Config? ==> valid[s.id]
      decreases n, 0
    {
      if s.Config? {
        assert s.id in Mention(s);
        CalcValue(s.id);
        t := curr[s.id];
      } else {
        t := SymbolValue(c, curr, s);
      }
    }

    method CalcMaybe(m: MaybeExpr, missing: Tristate, ghost n: nat) returns (t: Tristate)
      requires Shaped() && MaybeKnown(c.g, m) && Ready(n)
      requires forall k | k in MaybeMentions(m) :: rank(k) < n
      modifies this
      ensures Shaped() && Ready(n) && OnlyBelow(n)
      ensures t == if m == Null then missing else Eval(EnvOf(c, Solution(c)), m.e)
      decreases n, 2
    {
      t := missing;
      if m.Some? {
        t := CalcExpr(m.e, n);
      }
    }

    /** The prompt loop of sym_calc_visibility. */
    method CalcPrompts(i: nat) returns (t: Tristate)
      requires Shaped() && i < |c.g| && Ready(rank(i))
      modifies this
      ensures Shaped() && Ready(rank(i)) && OnlyBelow(rank(i))
      ensures t == PromptsVisible(c, Solution(c), c.g[i].props)
      decreases rank(i), 3
    {
      hide Final, Solution;
      var props := c.g[i].props;
      t := NO;
      for k := 0 to |props|
        invariant Shaped() && Ready(rank(i)) && OnlyBelow(rank(i))
        invariant PromptsVisible(c, Solution(c), props)
               == TriOr(t, PromptsVisible(c, Solution(c), props[k..]))
      {
        assert props[k..][1..] == props[k + 1..];
        if props[k].hasText {
          PropertyInMentions(props, props[k]);
          assert MaybeMentions(props[k].visible) <= Edges(c.g, i);
          var p := CalcMaybe(props[k].visible, YES, rank(i));
          t := TriOr(t, p);
        }
      }
    }

    /** sym_get_default_prop and the value of the default it finds. */
    method CalcDefault(i: nat) returns (t: Tristate)
      requires Shaped() && i < |c.g| && Ready(rank(i))
      modifies this
      ensures Shaped() && Ready(rank(i)) && OnlyBelow(rank(i))
      ensures t == DefaultValue(c, Solution(c), c.g[i].props)
      decreases rank(i), 3
    {
      hide Final, Solution, DefaultValue;
      var props := c.g[i].props;
      DefaultNothing(c, Solution(c), props);
      for k := 0 to |props|
        invariant Shaped() && Ready(rank(i)) && OnlyBelow(rank(i))
        invariant DefaultValue(c, Solution(c), props) == DefaultValue(c, Solution(c), props[k..])
      {
        DefaultStep(c, Solution(c), props, k);
        if props[k].kind == Default {
          PropertyInMentions(props, props[k]);
          assert PropertyMentions(props[k]) <= Edges(c.g, i);
          var p := CalcMaybe(props[k].visible, YES, rank(i));
          if p != NO {
            var d := CalcMaybe(props[k].expr, YES, rank(i));
            return TriAnd(d, p);
          }
        }
      }
      t := NO;
    }

    /** sym_calc_visibility. */
    method CalcVisibility(i: nat) returns (t: Tristate, depends: Tristate, reverse: Tristate, implied: Tristate)
      requires Shaped() && i < |c.g| && Ready(rank(i))
      modifies this
      ensures Shaped() && Ready(rank(i)) && OnlyBelow(rank(i))
      ensures var v, x := Solution(c), c.g[i];
              && t == Visibility(c, v, x)
              && depends == DependsValue(c, v, x)
              && reverse == ReverseValue(c, v, x.ty, x.revDep)
              && implied == ReverseValue(c, v, x.ty, x.implied)
      decreases rank(i), 4
    {
      var x := c.g[i];
      t := CalcPrompts(i);
      if t == MOD && (x.ty != Tri || !c.modules) {
        t := YES;
      }
      depends := CalcMaybe(x.dirDep, YES, rank(i));
      depends := Promote(c, x.ty, depends);
      reverse := CalcMaybe(x.revDep, NO, rank(i));
      reverse := Promote(c, x.ty, reverse);
      implied := CalcMaybe(x.implied, NO, rank(i));
      implied := Promote(c, x.ty, implied);
    }

    /** The bool and tristate case of sym_calc_value: the value and whether to write it. */
    method CalcTristate(i: nat) returns (t: Tristate, new_: Tristate, toWrite: bool)
      requires Shaped() && i < |c.g| && Ready(rank(i)) && c.g[i].ty in {Boolean, Tri}
      modifies this
      ensures Shaped() && Ready(rank(i)) && OnlyBelow(rank(i))
      ensures t == Visibility(c, Solution(c), c.g[i])
      ensures new_ == Formula(c, Solution(c), c.g[i])
      ensures toWrite == Written(c, Solution(c), c.g[i])
      decreases rank(i), 5
    {
      var x := c.g[i];
      var depends, reverse, implied;
      t, depends, reverse, implied := CalcVisibility(i);
      toWrite := t != NO;
      if t != NO && x.user.User? {
        new_ := TriAnd(x.user.t, t);
      } else {
        if reverse != NO {
          toWrite := true;
        }
        new_ := CalcDefault(i);
        if new_ != NO {
          toWrite := true;
        }
        if implied != NO {
          toWrite := true;
          new_ := TriAnd(TriOr(new_, implied), depends);
        }
      }
      new_ := Promote(c, x.ty, TriOr(new_, reverse));
    }

    /** sym_calc_value. */
    method CalcValue(i: nat)
      requires Shaped() && i < |c.g| && Ready(rank(i) + 1)
      modifies this
      ensures Shaped() && Ready(rank(i) + 1) && OnlyBelow(rank(i) + 1)
      ensures valid[i] && Final(i)
      decreases rank(i), 7
    {
      if valid[i] {
        return;
      }
      valid := valid[i := true];
      CalcFlagged(i);
    }

    method CalcFlagged(i: nat)
      requires Shaped() && i < |c.g| && Ready(rank(i)) && valid[i]
      modifies this
      ensures Shaped() && Ready(rank(i)) && Untouched(rank(i), i)
      ensures valid[i] && Final(i)
      decreases rank(i), 6
    {
      assert Satisfies(c, Solution(c), i);
      if c.g[i].ty in {Boolean, Tri} {
        var t, new_, toWrite := CalcTristate(i);
        Store(i, t, toWrite, new_);
      } else {
        Store(i, visible[i], write[i], NO);
      }
    }

    /** Stores what was computed for a flagged symbol. */
    method Store(i: nat, t: Tristate, toWrite: bool, new_: Tristate)
      requires Shaped() && i < |c.g| && Ready(rank(i)) && valid[i]
      requires new_ == Solution(c)[i]
      requires c.g[i].ty in {Boolean, Tri} ==>
                 t == Visibility(c, Solution(c), c.g[i]) && toWrite == Written(c, Solution(c), c.g[i])
      modifies this`visible, this`write, this`curr
      ensures Shaped() && Ready(rank(i)) && Untouched(rank(i), i) && Final(i)
      ensures forall k | 0 <= k < |c.g| && k != i ::
                curr[k] == old(curr)[k] && visible[k] == old(visible)[k] && write[k] == old(write)[k]
    {
      hide Visibility, Written, Solution;
      visible, write, curr := visible[i := t], write[i := toWrite], curr[i := new_];
    }

    method Ask(i: nat, ghost n: nat) returns (t: Tristate)
      requires Shaped() && i < |c.g| && rank(i) < n && Ready(n)
      modifies this
      ensures Shaped() && Ready(n) && t == Solution(c)[i]
    {
      CalcValue(i);
      t := curr[i];
    }

    /** Querying symbols in any order, with any repetitions, yields for each its value in the solution. */
    method Query(order: seq<nat>) returns (values: seq<Tristate>)
      requires Shaped() && Ready(Highest(rank, |c.g|))
      requires forall k | 0 <= k < |order| :: order[k] < |c.g|
      modifies this
      ensures Shaped() && Ready(Highest(rank, |c.g|))
      ensures |values| == |order| && forall k | 0 <= k < |order| :: values[k] == Solution(c)[order[k]]
    {
      ghost var v := Solution(c);
      ghost var all := Highest(rank, |c.g|);
      values := [];
      for k := 0 to |order|
        invariant Shaped() && Ready(all)
        invariant |values| == k && forall j | 0 <= j < k :: values[j] == v[order[j]]
      {
        var t := Ask(order[k], all);
        values := values + [t];
      }
    }
  }
}

/** Setting a symbol's value from outside. */
module UserValues {
  import opened Tristates
  import opened Exprs
  import opened MenuConditions
  import opened SymbolGraph
  import opened SymbolValues

  /** sym_tristate_within_range, for a bool or tristate symbol. */
  predicate WithinRange(c: Setting, v: Assignment, x: SymbolInfo, t: Tristate) {
    var visible, reverse := Visibility(c, v, x), ReverseValue(c, v, x.ty, x.revDep);
    && x.ty in {Boolean, Tri}
    && visible != NO
    && !(EffectiveType(c, x.ty) == Boolean && t == MOD)
    && visible > reverse
    && reverse <= t <= visible
  }

  /** The setting after the user has given symbol i the value t. */
  function WithUser(c: Setting, i: nat, t: Tristate): Setting
    requires i < |c.g|
  {
    c.(g := c.g[i := c.g[i].(user := User(t))])
  }

  /** sym_set_tristate_value: a value out of range is refused unless it is the current one. */
  datatype Outcome = Refused | Accepted(c: Setting)

  function SetTristate(c: Setting, v: Assignment, i: nat, t: Tristate): Outcome
    requires i < |c.g| && |v| == |c.g|
  {
    if v[i] != t && !WithinRange(c, v, c.g[i], t) then Refused else Accepted(WithUser(c, i, t))
  }

  lemma WithUserSound(c: Setting, i: nat, t: Tristate)
    requires Sound(c) && i < |c.g|
    ensures Sound(WithUser(c, i, t))
    ensures forall rank: nat -> nat :: Ranks(c.g, rank) ==> Ranks(WithUser(c, i, t).g, rank)
  {
    var d := WithUser(c, i, t);
    forall k | 0 <= k < |c.g| ensures Edges(d.g, k) == Edges(c.g, k) {
    }
    forall e: Expr ensures Known(d.g, e) == Known(c.g, e) {
      KnownSame(c.g, d.g, e);
    }
    var rank: nat -> nat :| Ranks(c.g, rank);
    assert Ranks(d.g, rank);
  }

  lemma {:induction false} KnownSame(g: Graph, h: Graph, e: Expr)
    requires |g| == |h| && forall i | 0 <= i < |g| :: g[i].ty == h[i].ty
    ensures Known(g, e) == Known(h, e)
  {
    match e
    case Not(x) => KnownSame(g, h, x);
    case Join(_, l, r) => KnownSame(g, h, l); KnownSame(g, h, r);
    case _ =>
  }

  /** The equations of two settings that differ in one user value. */
  lemma FormulaSame(c: Setting, i: nat, t: Tristate, v: Assignment, x: SymbolInfo)
    requires i < |c.g|
    ensures Formula(WithUser(c, i, t), v, x) == Formula(c, v, x)
    ensures Visibility(WithUser(c, i, t), v, x) == Visibility(c, v, x)
    ensures ReverseValue(WithUser(c, i, t), v, x.ty, x.revDep) == ReverseValue(c, v, x.ty, x.revDep)
  {
    var d := WithUser(c, i, t);
    forall s: Symbol ensures SymbolValue(d, v, s) == SymbolValue(c, v, s) && SymbolText(d, v, s) == SymbolText(c, v, s) {
    }
    forall m: MaybeExpr ensures ValueIn(d, v, m) == ValueIn(c, v, m) {
      if m.Some? {
        EvalSame(c, d, v, m.e);
      }
    }
    PropertiesSame(c, d, v, x.props);
  }

  lemma {:induction false} EvalSame(c: Setting, d: Setting, v: Assignment, e: Expr)
    requires d.numeral == c.numeral
    requires forall s: Symbol :: SymbolValue(d, v, s) == SymbolValue(c, v, s) && SymbolText(d, v, s) == SymbolText(c, v, s)
    ensures Eval(EnvOf(d, v), e) == Eval(EnvOf(c, v), e)
  {
    match e
    case Sym(_) =>
    case Not(x) => EvalSame(c, d, v, x);
    case Join(_, l, r) => EvalSame(c, d, v, l); EvalSame(c, d, v, r);
    case Rel(_, a, b) => assert Compare(EnvOf(d, v), a, b) == Compare(EnvOf(c, v), a, b);
  }

  lemma {:induction false} PropertiesSame(c: Setting, d: Setting, v: Assignment, props: seq<Property>)
    requires forall m: MaybeExpr :: ValueIn(d, v, m) == ValueIn(c, v, m)
    ensures PromptsVisible(d, v, props) == PromptsVisible(c, v, props)
    ensures DefaultValue(d, v, props) == DefaultValue(c, v, props)
  {
    if props != [] {
      PropertiesSame(c, d, v, props[1..]);
    }
  }

  /** Giving a symbol a value does not change the symbols it depends on, directly or not. */
  lemma {:induction false} LowerUnchanged(c: Setting, i: nat, t: Tristate, rank: nat -> nat, n: nat)
    requires Sound(c) && i < |c.g| && Ranks(c.g, rank) && n <= rank(i)
    requires Sound(WithUser(c, i, t))
    ensures forall k | 0 <= k < |c.g| && rank(k) < n :: Solution(WithUser(c, i, t))[k] == Solution(c)[k]
  {
    if n > 0 {
      var d := WithUser(c, i, t);
      LowerUnchanged(c, i, t, rank, n - 1);
      forall k | 0 <= k < |c.g| && rank(k) < n ensures Solution(d)[k] == Solution(c)[k] {
        assert Satisfies(c, Solution(c), k) && Satisfies(d, Solution(d), k);
        FormulaSame(c, i, t, Solution(d), c.g[k]);
        FormulaLocal(c, Solution(d), Solution(c), k);
      }
    }
  }

  /** A visible symbol takes the value it is given exactly when the value is not below what selects the
      symbol, not above its visibility unless it is what selects it, and not m for a symbol that behaves as
      a bool. */
  lemma UserValueHonoured(c: Setting, i: nat, t: Tristate)
    requires Sound(c) && i < |c.g| && c.g[i].ty in {Boolean, Tri}
    requires Visibility(c, Solution(c), c.g[i]) != NO
    ensures Sound(WithUser(c, i, t))
    ensures var visible := Visibility(c, Solution(c), c.g[i]);
            var reverse := ReverseValue(c, Solution(c), c.g[i].ty, c.g[i].revDep);
            Solution(WithUser(c, i, t))[i] == t <==>
              t >= reverse && (t <= visible || t == reverse)
              && !(EffectiveType(c, c.g[i].ty) == Boolean && t == MOD)
  {
    var d := WithUser(c, i, t);
    WithUserSound(c, i, t);
    var rank: nat -> nat :| Ranks(c.g, rank);
    LowerUnchanged(c, i, t, rank, rank(i));
    var v, w := Solution(c), Solution(d);
    var x := d.g[i];
    assert Satisfies(d, w, i);
    FormulaSame(c, i, t, w, x);
    PropertiesLocal(c, w, v, x.props);
    MaybeLocal(c, w, v, x.revDep);
    assert Visibility(c, w, x) == Visibility(c, v, c.g[i]);
    assert OwnValue(c, w, x) == TriAnd(t, Visibility(c, w, x));
  }

  /** A value accepted because it is in range is the symbol's next value. */
  lemma InRangeIsHonoured(c: Setting, i: nat, t: Tristate)
    requires Sound(c) && i < |c.g| && WithinRange(c, Solution(c), c.g[i], t)
    ensures SetTristate(c, Solution(c), i, t) == Accepted(WithUser(c, i, t))
    ensures Sound(WithUser(c, i, t)) && Solution(WithUser(c, i, t))[i] == t
  {
    UserValueHonoured(c, i, t);
  }

  /** A tristate with a prompt that is visible at m and an unconditional default of y. */
  function Overdefaulted(numeral: (SymbolType, string) -> Reading): Setting {
    var prompt := Property(Prompt, true, Some(Sym(SymMod)), Null);
    var dflt := Property(Default, false, Null, Null);
    Setting([SymbolInfo("A", Tri, Unset, [prompt, dflt], Null, Null, Null)], true, numeral)
  }

  /** Accepting the current value without a range check is not harmless: when the user confirms the value of a
      symbol whose default exceeds its visibility, recalculation gives the visibility. */
  lemma ConfirmingCanLower(numeral: (SymbolType, string) -> Reading)
    ensures var c := Overdefaulted(numeral);
            && Sound(c) && Solution(c) == [YES]
            && SetTristate(c, Solution(c), 0, YES) == Accepted(WithUser(c, 0, YES))
            && Sound(WithUser(c, 0, YES)) && Solution(WithUser(c, 0, YES)) == [MOD]
  {
    var c := Overdefaulted(numeral);
    var d := WithUser(c, 0, YES);
    var props := c.g[0].props;
    assert props[1..][1..] == [];
    assert PropertiesMention(props) == PropertyMentions(props[0]) + PropertiesMention(props[1..]);
    assert Edges(c.g, 0) == {};
    assert Ranks(c.g, k => 0);
    WithUserSound(c, 0, YES);
    assert DefaultValue(c, [YES], props) == DefaultValue(c, [YES], props[1..]) == YES;
    assert PromptsVisible(c, [YES], props[1..]) == NO;
    assert Satisfies(c, [YES], 0);
    assert Solves(c, [YES]);
    SolutionUnique(c, Solution(c), [YES]);
    assert PromptsVisible(d, [MOD], props[1..]) == NO;
    assert PromptsVisible(d, [MOD], props) == MOD;
    assert Satisfies(d, [MOD], 0);
    assert Solves(d, [MOD]);
    SolutionUnique(d, Solution(d), [MOD]);
  }
}
