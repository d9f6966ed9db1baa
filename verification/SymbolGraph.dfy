/** The graph of symbols that refer to each other, and the recursive dependency check over it.
    Choice groups are not modelled. */
module SymbolGraph {
  import opened Tristates
  import opened Exprs
  import opened MenuConditions

  datatype PropertyKind = Prompt | Comment | MenuPrompt | Default | Select | Imply | Range | Definition

  /** A property: its condition, its expression where it has one, and whether it carries a prompt text. */
  datatype Property = Property(kind: PropertyKind, hasText: bool, visible: MaybeExpr, expr: MaybeExpr)

  datatype UserValue = Unset | User(t: Tristate)

  datatype SymbolInfo = SymbolInfo(
    name: string,
    ty: SymbolType,
    user: UserValue,
    props: seq<Property>,
    dirDep: MaybeExpr,
    revDep: MaybeExpr,
    implied: MaybeExpr)

  /** All symbols, known by their position. */
  type Graph = seq<SymbolInfo>

  // ---------- Mentioned symbols and edges ----------

  function Mentions(e: Expr): set<nat> {
    match e
    case Sym(s) => Mention(s)
    case Not(x) => Mentions(x)
    case Join(_, l, r) => Mentions(l) + Mentions(r)
    case Rel(_, a, b) => Mention(a) + Mention(b)
  }

  function Mention(s: Symbol): set<nat> {
    if s.Config? then {s.id} else {}
  }

  function MaybeMentions(m: MaybeExpr): set<nat> {
    if m == Null then {} else Mentions(m.e)
  }

  /** The part of a property that the check follows. */
  function PropertyMentions(p: Property): set<nat> {
    if p.kind in {Select, Imply} then {}
    else MaybeMentions(p.visible) + if p.kind == Default then MaybeMentions(p.expr) else {}
  }

  function PropertiesMention(props: seq<Property>): set<nat> {
    if props == [] then {} else PropertyMentions(props[0]) + PropertiesMention(props[1..])
  }

  /** The symbols a symbol's value may depend on. */
  function Edges(g: Graph, i: nat): set<nat>
    requires i < |g|
  {
    MaybeMentions(g[i].dirDep) + MaybeMentions(g[i].revDep) + MaybeMentions(g[i].implied)
    + PropertiesMention(g[i].props)
  }

  predicate SymbolKnown(g: Graph, s: Symbol) {
    s.Config? ==> s.id < |g| && s.ty == g[s.id].ty
  }

  predicate Known(g: Graph, e: Expr) {
    match e
    case Sym(s) => SymbolKnown(g, s)
    case Not(x) => Known(g, x)
    case Join(_, l, r) => Known(g, l) && Known(g, r)
    case Rel(_, a, b) => SymbolKnown(g, a) && SymbolKnown(g, b)
  }

  predicate MaybeKnown(g: Graph, m: MaybeExpr) {
    m == Null || Known(g, m.e)
  }

  /** Expressions mention only symbols of the graph, with their types; defaults have a value. */
  predicate WellFormed(g: Graph) {
    forall i | 0 <= i < |g| ::
      && MaybeKnown(g, g[i].dirDep) && MaybeKnown(g, g[i].revDep) && MaybeKnown(g, g[i].implied)
      && forall p | p in g[i].props :: MaybeKnown(g, p.visible) && MaybeKnown(g, p.expr)
  }

  lemma {:induction false} KnownMentions(g: Graph, e: Expr)
    requires Known(g, e)
    ensures forall k | k in Mentions(e) :: k < |g|
  {
    match e
    case Not(x) => KnownMentions(g, x);
    case Join(_, l, r) => KnownMentions(g, l); KnownMentions(g, r);
    case _ =>
  }

  lemma {:induction false} PropertyInMentions(props: seq<Property>, p: Property)
    requires p in props
    ensures PropertyMentions(p) <= PropertiesMention(props)
  {
    if p != props[0] {
      PropertyInMentions(props[1..], p);
    }
  }

  // ---------- Cycles ----------

  /** A ranking by which every symbol comes after the symbols it refers to. */
  ghost predicate Ranks(g: Graph, rank: nat -> nat) {
    forall i, j | 0 <= i < |g| && j in Edges(g, i) :: rank(j) < rank(i)
  }

  ghost predicate Acyclic(g: Graph) {
    exists rank: nat -> nat :: Ranks(g, rank)
  }

  ghost predicate Walk(g: Graph, p: seq<nat>) {
    && (forall k | 0 <= k < |p| :: p[k] < |g|)
    && (forall k | 0 < k < |p| :: p[k] in Edges(g, p[k - 1]))
  }

  /** A closed walk along edges. */
  ghost predicate Cycle(g: Graph, p: seq<nat>) {
    p != [] && Walk(g, p) && p[0] in Edges(g, p[|p| - 1])
  }

  ghost predicate HasCycle(g: Graph) {
    exists p: seq<nat> :: Cycle(g, p)
  }

  lemma {:induction false} RankFalls(g: Graph, rank: nat -> nat, p: seq<nat>, k: nat)
    requires Ranks(g, rank) && Walk(g, p) && k < |p|
    ensures rank(p[k]) <= rank(p[0])
  {
    if k > 0 {
      RankFalls(g, rank, p, k - 1);
    }
  }

  lemma AcyclicHasNoCycle(g: Graph)
    requires Acyclic(g)
    ensures !HasCycle(g)
  {
    var rank: nat -> nat :| Ranks(g, rank);
    forall p: seq<nat> ensures !Cycle(g, p) {
      if Cycle(g, p) {
        RankFalls(g, rank, p, |p| - 1);
      }
    }
  }

  lemma CycleOnWalk(g: Graph, walk: seq<nat>, i: nat)
    requires Walk(g, walk) && i in walk && i in Edges(g, walk[|walk| - 1])
    ensures HasCycle(g)
  {
    var k :| 0 <= k < |walk| && walk[k] == i;
    var p := walk[k..];
    assert p[|p| - 1] == walk[|walk| - 1];
    forall j | 0 < j < |p| ensures p[j] in Edges(g, p[j - 1]) {
      assert p[j] == walk[k + j] && p[j - 1] == walk[k + j - 1];
    }
    assert Cycle(g, p);
  }

  lemma ExtendWalk(g: Graph, walk: seq<nat>, i: nat)
    requires Walk(g, walk) && i < |g| && (walk == [] || i in Edges(g, walk[|walk| - 1]))
    ensures Walk(g, walk + [i])
  {
  }

  // ---------- The recursive check ----------

  function Below(n: nat): (s: set<nat>)
    ensures forall i: nat :: i in s <==> i < n
  {
    if n == 0 then {} else Below(n - 1) + {n - 1}
  }

  /** Completed symbols refer only to symbols completed before them. */
  ghost predicate InOrder(g: Graph, done: set<nat>, finished: map<nat, nat>, clock: nat) {
    forall i | i in done ::
      && i < |g| && i in finished && finished[i] < clock
      && forall j | j in Edges(g, i) :: j in done && j in finished && finished[j] < finished[i]
  }

  lemma FinishInOrder(g: Graph, done: set<nat>, finished: map<nat, nat>, clock: nat, i: nat)
    requires InOrder(g, done, finished, clock) && i < |g| && i !in done && Edges(g, i) <= done
    ensures InOrder(g, done + {i}, finished[i := clock], clock + 1)
  {
  }

  lemma InOrderRanks(g: Graph, done: set<nat>, finished: map<nat, nat>, clock: nat)
    requires InOrder(g, done, finished, clock) && forall i | 0 <= i < |g| :: i in done
    ensures Acyclic(g)
  {
    var rank: nat -> nat := i => if i in finished then finished[i] else 0;
    forall i, j | 0 <= i < |g| && j in Edges(g, i) ensures rank(j) < rank(i) {
      assert i in done;
    }
    assert Ranks(g, rank);
  }

  datatype Found = Fine | Recursive(i: nat)

  class DependencyChecker {
    const g: Graph
    /** The symbols being checked, outermost first, and the flags of the symbols. */
    var stack: seq<nat>
    var check: set<nat>
    var checked: set<nat>
    /** Order in which symbols were completed without error. */
    ghost var finished: map<nat, nat>
    ghost var clock: nat
    ghost var unchecked: set<nat>

    constructor (g: Graph)
      requires WellFormed(g)
      ensures this.g == g && Valid() && Clean() && stack == []
    {
      this.g := g;
      stack, check, checked := [], {}, {};
      finished, clock := map[], 0;
      unchecked := Below(|g|);
    }

    /** The flagged symbols are those on the stack, which is a walk. */
    ghost predicate Valid()
      reads this
    {
      && WellFormed(g)
      && Walk(g, stack)
      && (forall i :: i in check <==> i in stack)
      && check <= checked
      && (forall i | i in checked :: i < |g|)
      && (forall i: nat | i < |g| :: i in checked || i in unchecked)
      && unchecked !! checked
    }

    ghost predicate Done(s: set<nat>)
      reads this
    {
      s <= checked && s !! check
    }

    /** Holds as long as no error was found. */
    ghost predicate Clean()
      reads this
    {
      InOrder(g, checked - check, finished, clock)
    }

    /** The stack and the flags of the symbols on it are back; more symbols may have been checked. */
    twostate predicate Unwound()
      reads this
    {
      stack == old(stack) && check == old(check) && old(checked) <= checked && unchecked <= old(unchecked)
    }

    /** sym_check_expr_deps. */
    method CheckExpr(e: Expr) returns (r: Found)
      requires Valid() && Known(g, e)
      requires stack != [] && Mentions(e) <= Edges(g, stack[|stack| - 1])
      modifies this
      ensures Valid() && Unwound()
      ensures r.Fine? ==> Done(Mentions(e))
      ensures r.Fine? && old(Clean()) ==> Clean()
      ensures r.Recursive? ==> HasCycle(g)
      decreases unchecked, 1, e
    {
      hide InOrder, Walk, HasCycle, Edges, WellFormed;
      match e
      case Join(_, left, right) =>
        r := CheckExpr(left);
        if r.Recursive? {
          return;
        }
        r := CheckExpr(right);
      case Not(x) =>
        r := CheckExpr(x);
      case Rel(_, a, b) =>
        r := CheckReference(a);
        if r.Recursive? {
          return;
        }
        r := CheckReference(b);
      case Sym(s) =>
        r := CheckReference(s);
    }

    method CheckReference(s: Symbol) returns (r: Found)
      requires Valid() && SymbolKnown(g, s)
      requires stack != [] && Mention(s) <= Edges(g, stack[|stack| - 1])
      modifies this
      ensures Valid() && Unwound()
      ensures r.Fine? ==> Done(Mention(s))
      ensures r.Fine? && old(Clean()) ==> Clean()
      ensures r.Recursive? ==> HasCycle(g)
      decreases unchecked, 0, 3
    {
      r := Fine;
      if s.Config? {
        r := CheckSymbol(s.id);
      }
    }

    method CheckMaybe(m: MaybeExpr) returns (r: Found)
      requires Valid() && MaybeKnown(g, m)
      requires stack != [] && MaybeMentions(m) <= Edges(g, stack[|stack| - 1])
      modifies this
      ensures Valid() && Unwound()
      ensures r.Fine? ==> Done(MaybeMentions(m))
      ensures r.Fine? && old(Clean()) ==> Clean()
      ensures r.Recursive? ==> HasCycle(g)
      decreases unchecked, 2
    {
      r := Fine;
      if m.Some? {
        r := CheckExpr(m.e);
      }
    }

    /** The property loop of sym_check_sym_deps. */
    method CheckProperties(i: nat) returns (r: Found)
      requires Valid() && i < |g| && stack != [] && stack[|stack| - 1] == i
      modifies this
      ensures Valid() && Unwound()
      ensures r.Fine? ==> Done(PropertiesMention(g[i].props))
      ensures r.Fine? && old(Clean()) ==> Clean()
      ensures r.Recursive? ==> HasCycle(g)
      decreases unchecked, 3, 1
    {
      r := Fine;
      var props := g[i].props;
      assert props[..0] == [] && PropertiesMention([]) == {};
      for k := 0 to |props|
        invariant Valid() && Unwound()
        invariant r.Fine? && Done(PropertiesMention(props[..k]))
        invariant old(Clean()) ==> Clean()
      {
        hide PropertiesMention, InOrder, Walk, WellFormed;
        MentionsSoFar(props, k);
        r := CheckProperty(i, props[k]);
        if r.Recursive? {
          return;
        }
      }
      assert props[..|props|] == props;
    }

    /** One property: its visibility and, if it is a default, its expression; select and imply are skipped. */
    method CheckProperty(i: nat, p: Property) returns (r: Found)
      requires Valid() && i < |g| && p in g[i].props && stack != [] && stack[|stack| - 1] == i
      modifies this
      ensures Valid() && Unwound()
      ensures r.Fine? ==> Done(PropertyMentions(p))
      ensures r.Fine? && old(Clean()) ==> Clean()
      ensures r.Recursive? ==> HasCycle(g)
      decreases unchecked, 3, 0
    {
      r := Fine;
      PropertyInMentions(g[i].props, p);
      if p.kind !in {Select, Imply} {
        r := CheckMaybe(p.visible);
        if r.Fine? && p.kind == Default {
          r := CheckMaybe(p.expr);
        }
      }
    }

    /** sym_check_sym_deps. */
    method CheckSymbolDeps(i: nat) returns (r: Found)
      requires Valid() && i < |g| && stack != [] && stack[|stack| - 1] == i
      modifies this
      ensures Valid() && Unwound()
      ensures r.Fine? ==> Done(Edges(g, i))
      ensures r.Fine? && old(Clean()) ==> Clean()
      ensures r.Recursive? ==> HasCycle(g)
      decreases unchecked, 4
    {
      r := CheckMaybe(g[i].dirDep);
      if r.Recursive? {
        return;
      }
      r := CheckMaybe(g[i].revDep);
      if r.Recursive? {
        return;
      }
      r := CheckMaybe(g[i].implied);
      if r.Recursive? {
        return;
      }
      r := CheckProperties(i);
    }

    /** sym_check_deps: reports a symbol met while it is being checked. */
    method CheckSymbol(i: nat) returns (r: Found)
      requires Valid() && i < |g|
      requires stack == [] || i in Edges(g, stack[|stack| - 1])
      modifies this
      ensures Valid() && Unwound()
      ensures r.Fine? ==> Done({i})
      ensures r.Fine? && old(Clean()) ==> Clean()
      ensures r.Recursive? ==> HasCycle(g)
      decreases unchecked, 0, 2
    {
      if i in check {
        CycleOnWalk(g, stack, i);
        return Recursive(i);
      }
      if i in checked {
        return Fine;
      }
      r := Visit(i);
    }

    method Push(i: nat)
      requires Valid() && i < |g| && i !in checked
      requires stack == [] || i in Edges(g, stack[|stack| - 1])
      modifies this
      ensures Valid() && unchecked < old(unchecked)
      ensures stack == old(stack) + [i] && check == old(check) + {i} && checked == old(checked) + {i}
      ensures checked - check == old(checked - check) && finished == old(finished) && clock == old(clock)
    {
      ExtendWalk(g, stack, i);
      assert i in unchecked;
      check, checked, unchecked := check + {i}, checked + {i}, unchecked - {i};
      stack := stack + [i];
    }

    method Pop(ghost outer: seq<nat>, i: nat)
      requires Valid() && stack == outer + [i] && i !in outer && Walk(g, outer)
      modifies this
      ensures Valid() && unchecked == old(unchecked) && checked == old(checked)
      ensures stack == outer && check == old(check) - {i} && checked - check == old(checked - check) + {i}
      ensures finished == old(finished) && clock == old(clock)
    {
      stack := stack[..|stack| - 1];
      assert stack == outer;
      check := check - {i};
    }

    /** Checks what a symbol refers to while the symbol is flagged. */
    method Visit(i: nat) returns (r: Found)
      requires Valid() && i < |g| && i !in checked
      requires stack == [] || i in Edges(g, stack[|stack| - 1])
      modifies this
      ensures Valid() && Unwound()
      ensures r.Fine? ==> Done({i})
      ensures r.Fine? && old(Clean()) ==> Clean()
      ensures r.Recursive? ==> HasCycle(g)
      decreases unchecked, 0, 1
    {
      ghost var outer := stack;
      Push(i);
      r := CheckSymbolDeps(i);
      ghost var done := checked - check;
      Pop(outer, i);
      if r.Fine? {
        if old(Clean()) {
          FinishInOrder(g, done, finished, clock, i);
        }
        finished, clock := finished[i := clock], clock + 1;
      }
    }

    /** The loop of conf_parse: the number of symbols reported is zero exactly when the graph has no cycle,
        and no symbol stays flagged as being checked. */
    method CheckAll() returns (errors: nat)
      requires Valid() && Clean() && stack == []
      modifies this
      ensures Valid() && check == {} && stack == []
      ensures errors == 0 <==> Acyclic(g)
      ensures errors == 0 <==> !HasCycle(g)
    {
      errors := 0;
      for i := 0 to |g|
        invariant Valid() && stack == []
        invariant errors == 0 ==> Clean() && forall j | 0 <= j < i :: j in checked
        invariant errors > 0 ==> HasCycle(g)
      {
        var r := CheckSymbol(i);
        if r.Recursive? {
          errors := errors + 1;
        }
      }
      if errors == 0 {
        InOrderRanks(g, checked, finished, clock);
      }
      if Acyclic(g) {
        AcyclicHasNoCycle(g);
      }
    }
  }

  lemma MentionsSoFar(props: seq<Property>, k: nat)
    requires k < |props|
    ensures PropertyMentions(props[k]) <= PropertiesMention(props)
    ensures PropertiesMention(props[..k + 1]) == PropertiesMention(props[..k]) + PropertyMentions(props[k])
  {
    hide PropertiesMention, PropertyMentions;
    PropertyInMentions(props, props[k]);
    assert props[..k + 1] == props[..k] + [props[k]];
    PropertiesMentionAppend(props[..k], props[k]);
  }

  lemma {:induction false} PropertiesMentionAppend(props: seq<Property>, p: Property)
    ensures PropertiesMention(props + [p]) == PropertiesMention(props) + PropertyMentions(p)
  {
    if props != [] {
      PropertiesMentionAppend(props[1..], p);
      assert (props + [p])[1..] == props[1..] + [p];
    }
  }
}
