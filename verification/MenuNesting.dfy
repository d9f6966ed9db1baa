/** Where restructuring puts each entry: one pass over the menu from top to bottom, with the entries that may still
    take others on a stack, gives the ancestors that every entry ends up with. */
module MenuNesting {
  import opened MenuTree

  /** An entry with the entries above it, innermost first. */
  datatype Line = Line(id: nat, above: seq<nat>)

  /** The entries of a menu in preorder, each with what stands above it. */
  function Lines(above: seq<nat>, f: Forest): (s: seq<Line>)
    ensures |s| == Count(f)
    decreases f
  {
    match f
    case Nil => []
    case Entry(id, list, next) => [Line(id, above)] + Lines([id] + above, list) + Lines(above, next)
  }

  lemma {:induction false} Deeper(above: seq<nat>, f: Forest)
    ensures forall l | l in Lines(above, f) :: |l.above| >= |above|
    decreases f
  {
    if f.Entry? {
      Deeper([f.id] + above, f.list);
      Deeper(above, f.next);
    }
  }

  lemma FirstShallow(above: seq<nat>, f: Forest)
    ensures f.Entry? ==> Lines(above, f)[0] == Line(f.id, above)
  {
  }

  /** Two ways to cut a sequence into deep lines and lines that begin with a shallow one are the same. */
  lemma SameCut(depth: nat, p: seq<Line>, q: seq<Line>, r: seq<Line>, s: seq<Line>)
    requires p + q == r + s
    requires (forall l | l in p :: |l.above| >= depth) && (forall l | l in r :: |l.above| >= depth)
    requires (q == [] || |q[0].above| < depth) && (s == [] || |s[0].above| < depth)
    ensures p == r && q == s
  {
    assert p == (p + q)[..|p|] && r == (r + s)[..|r|] && q == (p + q)[|p|..] && s == (r + s)[|r|..];
  }

  /** The first line, and the lines of the row below the entry and of the rest of its row, told apart by depth. */
  lemma FirstLine(above: seq<nat>, f: Forest)
    requires f.Entry?
    ensures var all, below, rest := Lines(above, f), Lines([f.id] + above, f.list), Lines(above, f.next);
            && all[0] == Line(f.id, above)
            && all[1..] == below + rest
            && (forall l | l in below :: |l.above| > |above|)
            && (rest == [] || |rest[0].above| == |above|)
  {
    hide Lines;
    LinesStep(above, f);
    Deeper([f.id] + above, f.list);
    FirstShallow(above, f.next);
    Behind(Line(f.id, above), Lines([f.id] + above, f.list), Lines(above, f.next));
  }

  lemma LinesStep(above: seq<nat>, f: Forest)
    requires f.Entry?
    ensures Lines(above, f) == [Line(f.id, above)] + Lines([f.id] + above, f.list) + Lines(above, f.next)
  {
  }

  lemma Behind(l: Line, p: seq<Line>, q: seq<Line>)
    ensures ([l] + p + q)[0] == l && ([l] + p + q)[1..] == p + q
  {
  }

  /** The lines determine the menu. */
  lemma {:induction false} LinesDetermine(above: seq<nat>, f: Forest, g: Forest)
    requires Lines(above, f) == Lines(above, g)
    ensures f == g
    decreases f
  {
    hide Lines;
    if f != Nil && g != Nil {
      FirstLine(above, f);
      FirstLine(above, g);
      var inner := [f.id] + above;
      SameCut(|inner|, Lines(inner, f.list), Lines(above, f.next), Lines(inner, g.list), Lines(above, g.next));
      LinesDetermine(inner, f.list, g.list);
      LinesDetermine(above, f.next, g.next);
    }
  }

  // ---------- The pass ----------

  /** The open entries that stay open when an entry follows: all from the innermost that it joins. */
  function StillOpen(rules: Rules, open: seq<nat>, id: nat): seq<nat> {
    if open == [] || rules.joins(open[0], id) then open else StillOpen(rules, open[1..], id)
  }

  function Prompted(rules: Rules, s: seq<nat>): seq<nat> {
    if s == [] then [] else (if rules.prompt(s[0]) then [s[0]] else []) + Prompted(rules, s[1..])
  }

  /** What stands above the entries below an entry: the entry itself only if it has a prompt. */
  function Under(rules: Rules, id: nat, above: seq<nat>): seq<nat> {
    (if rules.prompt(id) then [id] else []) + above
  }

  /** The pass over a row with some entries before it open, and with `above` over the whole row.  An entry goes
      below the innermost open entry that it joins, closing those it does not; a symbol with nothing below it is open
      for what follows.  The row below an entry is a pass of its own. */
  function Pass(rules: Rules, open: seq<nat>, above: seq<nat>, f: Forest): seq<Line>
    decreases f
  {
    match f
    case Nil => []
    case Entry(id, list, next) =>
      var o := StillOpen(rules, open, id);
      var up := Prompted(rules, o) + above;
      [Line(id, up)] + Pass(rules, [], Under(rules, id, up), list)
      + Pass(rules, if list == Nil && rules.sym(id) then [id] + o else o, above, next)
  }

  // ---------- Flattening, by lines ----------

  /** The lines without the entries that have no prompt in what stands above. */
  function Sifted(rules: Rules, above: seq<nat>, f: Forest): seq<Line>
    decreases f
  {
    match f
    case Nil => []
    case Entry(id, list, next) =>
      [Line(id, above)] + Sifted(rules, Under(rules, id, above), list) + Sifted(rules, above, next)
  }

  lemma {:induction false} SiftedAppend(rules: Rules, above: seq<nat>, f: Forest, g: Forest)
    ensures Sifted(rules, above, Append(f, g)) == Sifted(rules, above, f) + Sifted(rules, above, g)
  {
    if f.Entry? {
      SiftedAppend(rules, above, f.next, g);
    }
  }

  lemma {:induction false} TidySifted(rules: Rules, above: seq<nat>, f: Forest)
    requires Tidy(rules, f)
    ensures Sifted(rules, above, f) == Lines(above, f)
    decreases f
  {
    if f.Entry? {
      if f.list != Nil {
        TidySifted(rules, [f.id] + above, f.list);
      }
      TidySifted(rules, above, f.next);
    }
  }

  lemma {:induction false} FlattenLines(rules: Rules, above: seq<nat>, f: Forest)
    requires TidyBelow(rules, f)
    ensures Lines(above, Flatten(rules, f)) == Sifted(rules, above, f)
    decreases Count(f)
  {
    if f.Entry? {
      if f.list != Nil && !rules.prompt(f.id) {
        AppendTidyBelow(rules, f.list, f.next);
        FlattenLines(rules, above, Append(f.list, f.next));
        assert Under(rules, f.id, above) == above;
        SiftedAppend(rules, above, f.list, f.next);
      } else {
        FlattenLines(rules, above, f.next);
        if f.list != Nil {
          TidySifted(rules, [f.id] + above, f.list);
        }
      }
    }
  }

  /** A flattened row, sifted or not. */
  lemma FlattenSifted(rules: Rules, above: seq<nat>, f: Forest)
    requires TidyBelow(rules, f)
    ensures Sifted(rules, above, Flatten(rules, f)) == Sifted(rules, above, f)
  {
    FlattenLines(rules, above, f);
    FlattenTidy(rules, f);
    TidySifted(rules, above, Flatten(rules, f));
  }

  // ---------- Restructuring is the pass ----------

  lemma PromptedUnder(rules: Rules, id: nat, open: seq<nat>, above: seq<nat>)
    ensures Prompted(rules, [id] + open) + above == Under(rules, id, Prompted(rules, open) + above)
  {
    assert ([id] + open)[1..] == open;
  }

  /** The pass over a row whose first entry goes below the innermost open entry, or below none. */
  lemma {:induction false} FinalizeLines(rules: Rules, open: seq<nat>, above: seq<nat>, f: Forest)
    requires f.Entry? && (open == [] || rules.joins(open[0], f.id))
    ensures var e, up := Finalize(rules, f), Prompted(rules, open) + above;
            (Pass(rules, open, above, f)
             == [Line(f.id, up)] + Sifted(rules, Under(rules, f.id, up), e.list) + Pass(rules, open, above, e.next))
    decreases Count(f), 0
  {
    var up := Prompted(rules, open) + above;
    var below := Under(rules, f.id, up);
    if f.list != Nil {
      hide Flatten, FinalizeAll, Absorb, Sifted, Prompted, Under, Tidy, TidyBelow;
      FinalizeAllLines(rules, below, f.list);
      FinalizeAllTidy(rules, f.list);
      FlattenSifted(rules, below, FinalizeAll(rules, f.list));
    } else if rules.sym(f.id) {
      hide Flatten, FinalizeAll, Absorb, Sifted, Prompted, Under, Tidy, TidyBelow;
      var (taken, rest) := Absorb(rules, f.id, f.next);
      AbsorbLines(rules, f.id, open, above, f.next);
      AbsorbTidy(rules, f.id, f.next);
      FlattenSifted(rules, below, taken);
      PromptedUnder(rules, f.id, open, above);
    }
  }

  lemma {:induction false} FinalizeAllLines(rules: Rules, above: seq<nat>, f: Forest)
    ensures Sifted(rules, above, FinalizeAll(rules, f)) == Pass(rules, [], above, f)
    decreases Count(f), 1
  {
    if f.Entry? {
      FinalizeLines(rules, [], above, f);
      FinalizeAllLines(rules, above, Finalize(rules, f).next);
      assert Prompted(rules, []) + above == above;
    }
  }

  /** What p takes stands below it, and the pass goes on behind it without p. */
  lemma {:induction false} AbsorbLines(rules: Rules, p: nat, open: seq<nat>, above: seq<nat>, f: Forest)
    ensures var (taken, rest) := Absorb(rules, p, f);
            (Pass(rules, [p] + open, above, f)
             == Sifted(rules, Prompted(rules, [p] + open) + above, taken) + Pass(rules, open, above, rest))
    decreases Count(f), 1
  {
    AbsorbStep(rules, p, f);
    if f.Entry? && rules.joins(p, f.id) {
      hide *;
      var e, up := Finalize(rules, f), Prompted(rules, [p] + open) + above;
      FinalizeLines(rules, [p] + open, above, f);
      AbsorbLines(rules, p, open, above, e.next);
      SiftedTaken(rules, up, e, Absorb(rules, p, e.next).0);
    } else if f.Entry? {
      assert ([p] + open)[1..] == open;
      assert StillOpen(rules, [p] + open, f.id) == StillOpen(rules, open, f.id);
    }
  }

  lemma AbsorbStep(rules: Rules, p: nat, f: Forest)
    ensures if f == Nil || !rules.joins(p, f.id) then Absorb(rules, p, f) == (Nil, f)
            else
              var e := Finalize(rules, f);
              var (taken, rest) := Absorb(rules, p, e.next);
              Absorb(rules, p, f) == (Entry(e.id, e.list, taken), rest)
  {
  }

  lemma SiftedTaken(rules: Rules, above: seq<nat>, e: Forest, taken: Forest)
    requires e.Entry?
    ensures Sifted(rules, above, Entry(e.id, e.list, taken))
         == [Line(e.id, above)] + Sifted(rules, Under(rules, e.id, above), e.list) + Sifted(rules, above, taken)
  {
  }

  /** Below an entry of the menu every entry ends up where the pass puts it. */
  lemma MenuIsPassed(rules: Rules, above: seq<nat>, f: Forest)
    requires f.Entry? && f.list != Nil
    ensures Lines([f.id] + above, Finalize(rules, f).list) == Pass(rules, [], [f.id] + above, f.list)
    ensures Finalize(rules, f).id == f.id && Finalize(rules, f).next == f.next
  {
    FinalizeAllTidy(rules, f.list);
    FlattenLines(rules, [f.id] + above, FinalizeAll(rules, f.list));
    FinalizeAllLines(rules, [f.id] + above, f.list);
  }

  /** And nothing else has those lines: the pass determines the menu. */
  lemma PassDetermines(rules: Rules, above: seq<nat>, f: Forest, g: Forest)
    requires f.Entry? && f.list != Nil
    ensures Lines([f.id] + above, g) == Pass(rules, [], [f.id] + above, f.list) <==> g == Finalize(rules, f).list
  {
    MenuIsPassed(rules, above, f);
    if Lines([f.id] + above, g) == Pass(rules, [], [f.id] + above, f.list) {
      LinesDetermine([f.id] + above, g, Finalize(rules, f).list);
    }
  }

  /** The parent links of a row name what stands innermost above. */
  lemma {:induction false} RowParents(m: Links, f: Forest, first: int, par: nat, end: int, above: seq<nat>)
    requires Row(m, f, first, par, end)
    ensures forall l | l in Lines([par] + above, f) ::
              l.id < |m.parent| && l.above != [] && m.parent[l.id] == l.above[0]
    decreases f
  {
    if f.Entry? {
      RowParents(m, f.list, m.list[f.id], f.id, -1, [par] + above);
      RowParents(m, f.next, m.next[f.id], par, end, above);
    }
  }

  /** So after restructuring on links every parent link below an entry is the innermost one the pass gives. */
  lemma ParentsPassed(m: Links, rules: Rules, f: Forest, par: int)
    requires f.Entry? && f.list != Nil && Row(m, Finalize(rules, f), f.id, par, -1)
    ensures forall l | l in Pass(rules, [], [f.id], f.list) ::
              l.id < |m.parent| && l.above != [] && m.parent[l.id] == l.above[0]
  {
    MenuIsPassed(rules, [], f);
    assert [f.id] + [] == [f.id];
    RowParents(m, Finalize(rules, f).list, m.list[f.id], f.id, -1, []);
  }

  // ---------- A symbol with nothing below it ----------

  function RowOf(f: Forest): seq<nat> {
    match f
    case Nil => []
    case Entry(id, _, next) => [id] + RowOf(next)
  }

  /** An entry of a row joins p, or an entry without a prompt stands before it, below which it may have been. */
  ghost predicate TakenBy(rules: Rules, p: nat, row: seq<nat>) {
    forall k | 0 <= k < |row| :: rules.joins(p, row[k]) || exists j | 0 <= j < k :: !rules.prompt(row[j])
  }

  lemma {:induction false} FlattenTaken(rules: Rules, p: nat, f: Forest)
    requires forall k | k in RowOf(f) :: rules.joins(p, k)
    ensures TakenBy(rules, p, RowOf(Flatten(rules, f)))
    ensures f.Entry? ==> Flatten(rules, f).Entry? && Flatten(rules, f).id == f.id
    decreases Count(f)
  {
    if f.Entry? {
      assert f.id in RowOf(f);
      var g := Flatten(rules, f);
      if f.list != Nil && !rules.prompt(f.id) {
        assert RowOf(g)[0] == f.id;
      } else {
        FlattenTaken(rules, p, f.next);
        var row := RowOf(Flatten(rules, f.next));
        forall k | 0 < k < |RowOf(g)|
          ensures rules.joins(p, RowOf(g)[k]) || exists j | 0 <= j < k :: !rules.prompt(RowOf(g)[j])
        {
          assert RowOf(g)[k] == row[k - 1];
          if !rules.joins(p, row[k - 1]) {
            var j :| 0 <= j < k - 1 && !rules.prompt(row[j]);
            assert RowOf(g)[j + 1] == row[j];
          }
        }
      }
    }
  }

  lemma {:induction false} AbsorbTakes(rules: Rules, p: nat, f: Forest)
    ensures var (taken, rest) := Absorb(rules, p, f);
            && (forall k | k in RowOf(taken) :: rules.joins(p, k))
            && (rest.Entry? ==> !rules.joins(p, rest.id))
            && (f.Entry? && rules.joins(p, f.id) ==> taken.Entry? && taken.id == f.id)
            && (f.Entry? && !rules.joins(p, f.id) ==> taken == Nil && rest == f)
    decreases Count(f), 1
  {
    if f.Entry? && rules.joins(p, f.id) {
      AbsorbTakes(rules, p, Finalize(rules, f).next);
    }
  }

  /** A symbol with nothing below it takes the entry that follows if and only if that joins it, goes on until one
      does not, and takes nothing else. */
  lemma SymbolTakes(rules: Rules, f: Forest)
    requires f.Entry? && f.list == Nil && rules.sym(f.id)
    ensures var r := Finalize(rules, f);
            && (r.next.Entry? ==> !rules.joins(f.id, r.next.id))
            && (f.next.Entry? && rules.joins(f.id, f.next.id) ==> r.list.Entry? && r.list.id == f.next.id)
            && (f.next.Entry? && !rules.joins(f.id, f.next.id) ==> r == f)
            && TakenBy(rules, f.id, RowOf(r.list))
  {
    AbsorbTakes(rules, f.id, f.next);
    FlattenTaken(rules, f.id, Absorb(rules, f.id, f.next).0);
  }

  /** Entries without a symbol take nothing. */
  lemma OthersTakeNothing(rules: Rules, f: Forest)
    requires f.Entry? && (f.list != Nil || !rules.sym(f.id))
    ensures Finalize(rules, f).next == f.next && (f.list == Nil ==> Finalize(rules, f) == f)
  {
  }
}
