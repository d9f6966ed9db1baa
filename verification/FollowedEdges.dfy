/** What the dependency check follows: symbols that occur in conditions, and nothing of a select or an imply. */
module FollowedEdges {
  import opened Exprs
  import opened ExprText
  import opened MenuConditions
  import opened SymbolGraph

  // ---------- Occurrence ----------

  /** A symbol occurs in an expression when it is a word of the printed text. */
  predicate Occurs(e: Expr, s: Symbol) {
    Word(s) in Print(e, NoneType)
  }

  lemma PrintWords(e: Expr, prev: ExprType, s: Symbol)
    ensures Word(s) in Print(e, prev) <==> Word(s) in Body(e)
  {
  }

  lemma JoinWords(e: Expr, s: Symbol)
    requires e.Join?
    ensures Word(s) in Body(e) <==> Word(s) in Body(e.left) || Word(s) in Body(e.right)
  {
    var left, right := Print(e.left, TypeOf(e)), Print(e.right, TypeOf(e));
    PrintWords(e.left, TypeOf(e), s);
    PrintWords(e.right, TypeOf(e), s);
    assert Word(s) in left + [Infix(e.op)] + right <==> Word(s) in left || Word(s) in right;
  }

  /** The search for a symbol finds exactly what is printed. */
  lemma {:induction false} ContainsExactly(e: Expr, s: Symbol)
    ensures ContainsSymbol(e, s) <==> Occurs(e, s)
  {
    PrintWords(e, NoneType, s);
    match e
    case Not(x) =>
      ContainsExactly(x, s);
      PrintWords(x, NoneType, s);
      PrintWords(x, NotType, s);
    case Join(_, l, r) =>
      ContainsExactly(l, s);
      ContainsExactly(r, s);
      PrintWords(l, NoneType, s);
      PrintWords(r, NoneType, s);
      JoinWords(e, s);
    case _ =>
  }

  ghost predicate OccursSomehow(e: Expr, j: nat) {
    exists ty :: Occurs(e, Config(j, ty))
  }

  lemma {:induction false} MentionsExactly(e: Expr, j: nat)
    ensures j in Mentions(e) <==> OccursSomehow(e, j)
  {
    match e
    case Sym(s) =>
      if j in Mentions(e) {
        assert Occurs(e, Config(j, s.ty));
      }
    case Rel(_, a, b) =>
      if j in Mention(a) {
        assert Occurs(e, Config(j, a.ty));
      } else if j in Mention(b) {
        assert Occurs(e, Config(j, b.ty));
      }
    case Not(x) =>
      MentionsExactly(x, j);
      forall ty ensures Occurs(e, Config(j, ty)) <==> Occurs(x, Config(j, ty)) {
        ContainsExactly(e, Config(j, ty));
        ContainsExactly(x, Config(j, ty));
      }
    case Join(_, l, r) =>
      MentionsExactly(l, j);
      MentionsExactly(r, j);
      forall ty
        ensures Occurs(e, Config(j, ty)) <==> Occurs(l, Config(j, ty)) || Occurs(r, Config(j, ty))
      {
        ContainsExactly(e, Config(j, ty));
        ContainsExactly(l, Config(j, ty));
        ContainsExactly(r, Config(j, ty));
      }
  }

  // ---------- Edges ----------

  predicate FollowedKind(kind: PropertyKind) {
    match kind
    case Prompt | Comment | MenuPrompt | Default | Range | Definition => true
    case Select | Imply => false
  }

  predicate FollowsIn(p: Property, e: Expr) {
    (FollowedKind(p.kind) && p.visible == Some(e)) || (p.kind.Default? && p.expr == Some(e))
  }

  /** The conditions of a symbol that are followed: its dependency, its reverse dependency, what implies it, the
      conditions of all its properties but selects and implies, and the values of its defaults. */
  ghost predicate Follows(x: SymbolInfo, e: Expr) {
    x.dirDep == Some(e) || x.revDep == Some(e) || x.implied == Some(e) || exists p :: p in x.props && FollowsIn(p, e)
  }

  lemma {:induction false} PropertiesExactly(props: seq<Property>, j: nat)
    ensures j in PropertiesMention(props) <==> exists p :: p in props && j in PropertyMentions(p)
  {
    if props != [] {
      PropertiesExactly(props[1..], j);
      assert forall p :: p in props <==> p == props[0] || p in props[1..];
    }
  }

  lemma PropertyExactly(p: Property, j: nat)
    ensures j in PropertyMentions(p) <==> exists e :: FollowsIn(p, e) && OccursSomehow(e, j)
  {
    hide OccursSomehow, Mentions;
    forall m: MaybeExpr ensures m.Some? ==> (j in MaybeMentions(m) <==> OccursSomehow(m.e, j)) {
      if m.Some? {
        MentionsExactly(m.e, j);
      }
    }
    if j in PropertyMentions(p) {
      assert FollowsIn(p, if j in MaybeMentions(p.visible) then p.visible.e else p.expr.e);
    }
    if e :| FollowsIn(p, e) && OccursSomehow(e, j) {
      MentionsExactly(e, j);
      assert p.visible == Some(e) || p.expr == Some(e);
    }
  }

  /** There is an edge from one symbol to another if and only if the other occurs in a condition that is followed. */
  lemma EdgesExactly(g: Graph, i: nat, j: nat)
    requires i < |g|
    ensures j in Edges(g, i) <==> exists e :: Follows(g[i], e) && OccursSomehow(e, j)
  {
    hide OccursSomehow, Mentions, PropertyMentions;
    var x := g[i];
    PropertiesExactly(x.props, j);
    forall m: MaybeExpr ensures m.Some? ==> (j in MaybeMentions(m) <==> OccursSomehow(m.e, j)) {
      if m.Some? {
        MentionsExactly(m.e, j);
      }
    }
    if j in PropertiesMention(x.props) {
      var p :| p in x.props && j in PropertyMentions(p);
      PropertyExactly(p, j);
      var e :| FollowsIn(p, e) && OccursSomehow(e, j);
      assert Follows(x, e);
    } else if j in Edges(g, i) {
      assert Follows(x, if j in MaybeMentions(x.dirDep) then x.dirDep.e
                        else if j in MaybeMentions(x.revDep) then x.revDep.e else x.implied.e);
    }
    if e :| Follows(x, e) && OccursSomehow(e, j) {
      if p :| p in x.props && FollowsIn(p, e) {
        PropertyExactly(p, j);
      } else {
        assert Some(e) in [x.dirDep, x.revDep, x.implied];
      }
    }
  }

  // ---------- What may be deleted ----------

  /** The properties without selects and implies and without the expressions of what is no default. */
  function Kept(props: seq<Property>): seq<Property> {
    if props == [] then []
    else
      var p, rest := props[0], Kept(props[1..]);
      if p.kind == Select || p.kind == Imply then rest
      else if p.kind == Default then [p] + rest
      else [p.(expr := Null)] + rest
  }

  function Reduced(g: Graph): (r: Graph)
    ensures |r| == |g|
  {
    seq(|g|, i requires 0 <= i < |g| => g[i].(props := Kept(g[i].props)))
  }

  lemma {:induction false} KeptMention(g: Graph, props: seq<Property>)
    ensures PropertiesMention(Kept(props)) == PropertiesMention(props)
    ensures (forall p | p in props :: MaybeKnown(g, p.visible) && MaybeKnown(g, p.expr)) ==>
              forall p | p in Kept(props) :: MaybeKnown(g, p.visible) && MaybeKnown(g, p.expr)
  {
    if props != [] {
      KeptMention(g, props[1..]);
      assert forall p :: p in props <==> p == props[0] || p in props[1..];
    }
  }

  lemma {:induction false} KnownReduced(g: Graph, e: Expr)
    ensures Known(Reduced(g), e) == Known(g, e)
  {
    match e
    case Not(x) => KnownReduced(g, x);
    case Join(_, l, r) => KnownReduced(g, l); KnownReduced(g, r);
    case _ =>
  }

  lemma ReducedEdges(g: Graph)
    ensures forall i | 0 <= i < |g| :: Edges(Reduced(g), i) == Edges(g, i)
    ensures WellFormed(g) ==> WellFormed(Reduced(g))
  {
    forall e: Expr ensures Known(Reduced(g), e) == Known(g, e) {
      KnownReduced(g, e);
    }
    forall i | 0 <= i < |g| ensures PropertiesMention(Reduced(g)[i].props) == PropertiesMention(g[i].props) {
      KeptMention(g, g[i].props);
    }
    if WellFormed(g) {
      forall i, p | 0 <= i < |g| && p in Reduced(g)[i].props
        ensures MaybeKnown(g, p.visible) && MaybeKnown(g, p.expr)
      {
        KeptMention(g, g[i].props);
      }
    }
  }

  /** Selects and implies, and the expressions of other properties than defaults, make no cycle and hide none. */
  lemma SelectsDoNotMatter(g: Graph)
    ensures Acyclic(Reduced(g)) <==> Acyclic(g)
    ensures HasCycle(Reduced(g)) <==> HasCycle(g)
  {
    var r := Reduced(g);
    ReducedEdges(g);
    hide Edges, Reduced;
    forall rank: nat -> nat ensures Ranks(r, rank) <==> Ranks(g, rank) {
      if Ranks(r, rank) {
        forall i, j | 0 <= i < |g| && j in Edges(g, i) ensures rank(j) < rank(i) {
          assert j in Edges(r, i);
        }
      }
    }
    forall p: seq<nat> ensures Cycle(r, p) <==> Cycle(g, p) {
      assert Walk(r, p) <==> Walk(g, p);
    }
  }

  /** The check reports something in the one graph if and only if it does in the other. */
  method CheckBoth(g: Graph) returns (errors: nat, reduced: nat)
    requires WellFormed(g)
    ensures errors == 0 <==> reduced == 0
  {
    ReducedEdges(g);
    SelectsDoNotMatter(g);
    var checker := new DependencyChecker(g);
    errors := checker.CheckAll();
    checker := new DependencyChecker(Reduced(g));
    reduced := checker.CheckAll();
  }
}
