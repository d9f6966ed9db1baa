/** What the solution of the value equations is, told by the values of a symbol's conditions alone. */
module ValueMeaning {
  import opened Tristates
  import opened Exprs
  import opened MenuConditions
  import opened SymbolGraph
  import opened SymbolValues
  import opened UserValues

  // ---------- The environment of a solution ----------

  /** In the environment of an assignment every symbol has the value assigned to it, and a bool or tristate symbol
      shows it as its text, m being shown as n while modules are off. */
  lemma AssignmentShown(c: Setting, v: Assignment, i: nat)
    requires i < |c.g| == |v|
    ensures var s, env := Config(i, c.g[i].ty), EnvOf(c, v);
            && env.tri(s) == v[i] && env.numeral == c.numeral
            && (s.Logic() && (c.modules || v[i] != MOD) ==> env.text(s) == ["n", "m", "y"][v[i]])
            && (s.Logic() && !c.modules && v[i] == MOD ==> env.text(s) == "n")
            && (!s.Logic() ==> env.text(s) == c.g[i].name)
  {
  }

  /** A conjunction is n if and only if an operand is, and y if and only if both are; a disjunction the other way
      round; a negation exchanges n and y and nothing else. */
  lemma ConnectiveValues(env: Env, l: Expr, r: Expr)
    ensures Eval(env, Join(And, l, r)) == NO <==> Eval(env, l) == NO || Eval(env, r) == NO
    ensures Eval(env, Join(And, l, r)) == YES <==> Eval(env, l) == YES && Eval(env, r) == YES
    ensures Eval(env, Join(Or, l, r)) == NO <==> Eval(env, l) == NO && Eval(env, r) == NO
    ensures Eval(env, Join(Or, l, r)) == YES <==> Eval(env, l) == YES || Eval(env, r) == YES
    ensures Eval(env, Not(l)) == NO <==> Eval(env, l) == YES
    ensures Eval(env, Not(l)) == YES <==> Eval(env, l) == NO
  {
  }

  // ---------- The conditions of a symbol ----------

  /** A symbol that is never m: for it m counts as y. */
  predicate TwoValued(c: Setting, x: SymbolInfo) {
    x.ty != Tri || !c.modules
  }

  /** The value t is raw, as far as the symbol can have it. */
  predicate Displays(c: Setting, x: SymbolInfo, t: Tristate, raw: Tristate) {
    if TwoValued(c, x) then t != MOD && (t == NO <==> raw == NO) else t == raw
  }

  predicate Prompts(p: Property, c: Setting, v: Assignment, t: Tristate) {
    p.hasText && ValueIn(c, v, p.visible) == t
  }

  /** No prompt has a condition of higher value than t, and one has that value unless t is n. */
  ghost predicate MostVisible(c: Setting, v: Assignment, props: seq<Property>, t: Tristate) {
    && (forall p | p in props && p.hasText :: ValueIn(c, v, p.visible) <= t)
    && (t != NO ==> exists p :: p in props && Prompts(p, c, v, t))
  }

  /** A default whose condition is not n. */
  predicate Applies(c: Setting, v: Assignment, p: Property) {
    p.kind == Default && ValueIn(c, v, p.visible) != NO
  }

  /** The first default that applies. */
  predicate FirstDefault(c: Setting, v: Assignment, props: seq<Property>, k: nat) {
    k < |props| && Applies(c, v, props[k]) && forall j | 0 <= j < k :: !Applies(c, v, props[j])
  }

  /** t is the value of the first default that applies or that of its condition, whichever is lower; n without one. */
  ghost predicate DefaultGives(c: Setting, v: Assignment, props: seq<Property>, t: Tristate) {
    || ((forall p | p in props :: !Applies(c, v, p)) && t == NO)
    || exists k: nat :: FirstDefault(c, v, props, k)
         && t == Lower(ValueIn(c, v, props[k].expr), ValueIn(c, v, props[k].visible))
  }

  function Lower(a: int, b: int): int {
    if a <= b then a else b
  }

  function Higher(a: int, b: int): int {
    if a <= b then b else a
  }

  predicate Selected(c: Setting, v: Assignment, x: SymbolInfo) {
    x.revDep.Some? && ValueIn(c, v, x.revDep) != NO
  }

  predicate IsImplied(c: Setting, v: Assignment, x: SymbolInfo) {
    x.implied.Some? && ValueIn(c, v, x.implied) != NO
  }

  /** The user has given a value and some prompt is visible. */
  ghost predicate UserInForce(c: Setting, v: Assignment, x: SymbolInfo) {
    x.user.User? && exists p :: p in x.props && p.hasText && ValueIn(c, v, p.visible) != NO
  }

  // ---------- The recursive computations ----------

  lemma {:induction false} PromptsMeaning(c: Setting, v: Assignment, props: seq<Property>, t: Tristate)
    ensures MostVisible(c, v, props, t) <==> t == PromptsVisible(c, v, props)
  {
    if props != [] {
      var p, rest := props[0], PromptsVisible(c, v, props[1..]);
      PromptsMeaning(c, v, props[1..], rest);
      var t' := PromptsVisible(c, v, props);
      assert forall q :: q in props <==> q == p || q in props[1..];
      assert MostVisible(c, v, props, t') by {
        if t' != NO {
          if t' == rest {
            var q :| q in props[1..] && Prompts(q, c, v, t');
            assert q in props && Prompts(q, c, v, t');
          } else {
            assert p in props && Prompts(p, c, v, t');
          }
        }
      }
    }
  }

  lemma {:induction false} DefaultMeaning(c: Setting, v: Assignment, props: seq<Property>, t: Tristate)
    ensures DefaultGives(c, v, props, t) <==> t == DefaultValue(c, v, props)
  {
    if props != [] {
      if Applies(c, v, props[0]) {
        assert FirstDefault(c, v, props, 0);
        assert props[0] in props;
      } else {
        DefaultMeaning(c, v, props[1..], t);
        forall k: nat ensures k > 0 ==> (FirstDefault(c, v, props, k) <==> FirstDefault(c, v, props[1..], k - 1)) {
          assert k < |props| ==> forall j | 0 < j < k :: props[j] == props[1..][j - 1];
          assert 0 < k <= |props| ==> forall j | 0 <= j < k - 1 :: props[1..][j] == props[j + 1];
        }
        assert forall q :: q in props <==> q == props[0] || q in props[1..];
        if DefaultGives(c, v, props[1..], t) && !forall p | p in props[1..] :: !Applies(c, v, p) {
          var k: nat :| FirstDefault(c, v, props[1..], k)
                     && t == Lower(ValueIn(c, v, props[1..][k].expr), ValueIn(c, v, props[1..][k].visible));
          assert FirstDefault(c, v, props, k + 1);
        }
        if DefaultGives(c, v, props, t) && !forall p | p in props :: !Applies(c, v, p) {
          var k: nat :| FirstDefault(c, v, props, k)
                     && t == Lower(ValueIn(c, v, props[k].expr), ValueIn(c, v, props[k].visible));
          assert FirstDefault(c, v, props[1..], k - 1);
        }
      }
    }
  }

  // ---------- The value ----------

  /** The visibility of a symbol is that of its most visible prompt. */
  lemma VisibilityExactly(c: Setting, v: Assignment, x: SymbolInfo, t: Tristate)
    requires MostVisible(c, v, x.props, t)
    ensures Displays(c, x, Visibility(c, v, x), t)
  {
    PromptsMeaning(c, v, x.props, t);
  }

  /** So are its dependency, y without one, and what selects or implies it, n without any. */
  lemma ConditionsExactly(c: Setting, v: Assignment, x: SymbolInfo)
    requires x.ty in {Boolean, Tri}
    ensures Displays(c, x, DependsValue(c, v, x), if x.dirDep == Null then YES else ValueIn(c, v, x.dirDep))
    ensures Displays(c, x, ReverseValue(c, v, x.ty, x.revDep), if x.revDep == Null then NO else ValueIn(c, v, x.revDep))
    ensures Displays(c, x, ReverseValue(c, v, x.ty, x.implied), if x.implied == Null then NO else ValueIn(c, v, x.implied))
  {
    hide ValueIn;
    assert x.dirDep == Null ==> ValueIn(c, v, x.dirDep) == YES by {
      NoCondition(c, v);
    }
  }

  lemma NoCondition(c: Setting, v: Assignment)
    ensures ValueIn(c, v, Null) == YES
  {
  }

  lemma InForceIsVisible(c: Setting, v: Assignment, x: SymbolInfo, t: Tristate)
    requires MostVisible(c, v, x.props, t)
    ensures UserInForce(c, v, x) <==> x.user.User? && t != NO
  {
    if t != NO {
      var p :| p in x.props && Prompts(p, c, v, t);
      assert p.hasText && ValueIn(c, v, p.visible) != NO;
    }
  }

  /** The value in full: the user's value, at most that of the most visible prompt; or, where there is no such
      value in force, the default, which an implication raises, but then to no more than the dependency; and in
      either case at least the value of the reverse dependency. */
  lemma ValueExactly(c: Setting, i: nat, prompt: Tristate, dflt: Tristate)
    requires Sound(c) && i < |c.g| && c.g[i].ty in {Boolean, Tri}
    requires MostVisible(c, Solution(c), c.g[i].props, prompt)
    requires DefaultGives(c, Solution(c), c.g[i].props, dflt)
    ensures var v, x := Solution(c), c.g[i];
            var own := if UserInForce(c, v, x) then Lower(x.user.t, prompt)
                       else if IsImplied(c, v, x) then
                         Lower(Higher(dflt, ValueIn(c, v, x.implied)), ValueIn(c, v, x.dirDep))
                       else dflt;
            Displays(c, x, v[i], if Selected(c, v, x) then Higher(own, ValueIn(c, v, x.revDep)) else own)
  {
    var v, x := Solution(c), c.g[i];
    assert Satisfies(c, v, i);
    InForceIsVisible(c, v, x, prompt);
    PromptsMeaning(c, v, x.props, prompt);
    DefaultMeaning(c, v, x.props, dflt);
    FormulaExactly(c, v, x);
    hide *;
  }

  lemma FormulaExactly(c: Setting, v: Assignment, x: SymbolInfo)
    requires x.ty in {Boolean, Tri}
    ensures var prompt, dflt := PromptsVisible(c, v, x.props), DefaultValue(c, v, x.props);
            var own := if x.user.User? && prompt != NO then Lower(x.user.t, prompt)
                       else if IsImplied(c, v, x) then
                         Lower(Higher(dflt, ValueIn(c, v, x.implied)), ValueIn(c, v, x.dirDep))
                       else dflt;
            Displays(c, x, Formula(c, v, x), if Selected(c, v, x) then Higher(own, ValueIn(c, v, x.revDep)) else own)
  {
    hide PromptsVisible, DefaultValue, ValueIn;
  }

  /** Symbols of other types are n as far as conditions are concerned. */
  lemma OtherTypesAreNo(c: Setting, i: nat)
    requires Sound(c) && i < |c.g| && c.g[i].ty !in {Boolean, Tri}
    ensures Solution(c)[i] == NO
  {
    assert Satisfies(c, Solution(c), i);
  }

  lemma PromptAndDefault(c: Setting, i: nat) returns (prompt: Tristate, dflt: Tristate)
    requires Sound(c) && i < |c.g|
    ensures MostVisible(c, Solution(c), c.g[i].props, prompt) && DefaultGives(c, Solution(c), c.g[i].props, dflt)
  {
    prompt, dflt := PromptsVisible(c, Solution(c), c.g[i].props), DefaultValue(c, Solution(c), c.g[i].props);
    PromptsMeaning(c, Solution(c), c.g[i].props, prompt);
    DefaultMeaning(c, Solution(c), c.g[i].props, dflt);
  }

  /** A symbol is never below what selects it, whether it is visible or not and whatever the user says. */
  lemma SelectedAtLeast(c: Setting, i: nat)
    requires Sound(c) && i < |c.g| && c.g[i].ty in {Boolean, Tri} && c.g[i].revDep.Some?
    ensures Solution(c)[i] >= ValueIn(c, Solution(c), c.g[i].revDep)
  {
    var prompt, dflt := PromptAndDefault(c, i);
    ValueExactly(c, i, prompt, dflt);
  }

  /** Without a user's value in force, selection and implication, a symbol has its first default that applies. */
  lemma DefaultTaken(c: Setting, i: nat, dflt: Tristate)
    requires Sound(c) && i < |c.g| && c.g[i].ty in {Boolean, Tri}
    requires var v, x := Solution(c), c.g[i]; !UserInForce(c, v, x) && !Selected(c, v, x) && !IsImplied(c, v, x)
    ensures DefaultGives(c, Solution(c), c.g[i].props, dflt) ==> Displays(c, c.g[i], Solution(c)[i], dflt)
  {
    var prompt, d := PromptAndDefault(c, i);
    DefaultMeaning(c, Solution(c), c.g[i].props, dflt);
    DefaultMeaning(c, Solution(c), c.g[i].props, d);
    ValueExactly(c, i, prompt, d);
  }

  /** An implication raises a symbol, but not above what it depends on: not at all where that is n. */
  lemma ImpliedUpToDependency(c: Setting, i: nat)
    requires Sound(c) && i < |c.g| && c.g[i].ty in {Boolean, Tri}
    requires var v, x := Solution(c), c.g[i]; !UserInForce(c, v, x) && !Selected(c, v, x) && IsImplied(c, v, x)
    ensures var v, x := Solution(c), c.g[i];
            && (TwoValued(c, x) ==> (v[i] != NO <==> ValueIn(c, v, x.dirDep) != NO))
            && (!TwoValued(c, x) ==> v[i] <= ValueIn(c, v, x.dirDep))
            && v[i] >= Lower(ValueIn(c, v, x.implied), ValueIn(c, v, x.dirDep))
  {
    var prompt, dflt := PromptAndDefault(c, i);
    ValueExactly(c, i, prompt, dflt);
  }

  /** A symbol is written to the configuration file if and only if a prompt of it is visible, it is selected or
      implied, or its default is not n; whatever is not n is written. */
  lemma WrittenExactly(c: Setting, i: nat)
    requires Sound(c) && i < |c.g| && c.g[i].ty in {Boolean, Tri}
    ensures var v, x := Solution(c), c.g[i];
            && (v[i] != NO ==> Written(c, v, x))
            && (Written(c, v, x) <==>
                  || (exists p :: p in x.props && p.hasText && ValueIn(c, v, p.visible) != NO)
                  || Selected(c, v, x) || IsImplied(c, v, x) || !DefaultGives(c, v, x.props, NO))
  {
    var v, x := Solution(c), c.g[i];
    var prompt, dflt := PromptAndDefault(c, i);
    VisibilityExactly(c, v, x, prompt);
    if prompt != NO {
      var p :| p in x.props && Prompts(p, c, v, prompt);
      assert p.hasText && ValueIn(c, v, p.visible) != NO;
    }
    DefaultMeaning(c, v, x.props, NO);
    DefaultMeaning(c, v, x.props, dflt);
    ValueExactly(c, i, prompt, dflt);
  }

  // ---------- Values from outside ----------

  /** A value is in range if and only if the symbol is visible beyond what selects it and the value, once given, is
      the one the symbol has next; only values out of range are refused, and of these all but the current one. */
  lemma RangeExactly(c: Setting, i: nat, t: Tristate)
    requires Sound(c) && i < |c.g| && c.g[i].ty in {Boolean, Tri}
    ensures var v, x := Solution(c), c.g[i];
            && Sound(WithUser(c, i, t))
            && (WithinRange(c, v, x, t) <==>
                  && ReverseValue(c, v, x.ty, x.revDep) < Visibility(c, v, x)
                  && Solution(WithUser(c, i, t))[i] == t)
            && (SetTristate(c, v, i, t) == Refused <==> t != v[i] && !WithinRange(c, v, x, t))
  {
    WithUserSound(c, i, t);
    if Visibility(c, Solution(c), c.g[i]) != NO {
      UserValueHonoured(c, i, t);
    }
  }
}
