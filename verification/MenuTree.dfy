/** The restructuring of the menu tree: automatic submenus, flattening of entries without a prompt, and the
    walk over the result that needs no stack.  Links between entries are numbers, -1 for none. */
module MenuTree {
  /** A row of sibling entries, as the links see it: an entry, the row below it, and the rest of its own row. */
  datatype Forest = Nil | Entry(id: nat, list: Forest, next: Forest)

  /** What restructuring depends on: which entries have a symbol, which have a prompt text, and which entry
      belongs into the submenu of which. */
  datatype Rules = Rules(sym: nat -> bool, prompt: nat -> bool, joins: (nat, nat) -> bool)

  function Preorder(f: Forest): seq<nat> {
    match f
    case Nil => []
    case Entry(id, list, next) => [id] + Preorder(list) + Preorder(next)
  }

  function Count(f: Forest): nat {
    match f
    case Nil => 0
    case Entry(_, list, next) => 1 + Count(list) + Count(next)
  }

  function Append(f: Forest, g: Forest): (r: Forest)
    ensures Count(r) == Count(f) + Count(g)
  {
    match f
    case Nil => g
    case Entry(id, list, next) => Entry(id, list, Append(next, g))
  }

  lemma {:induction false} AppendPreorder(f: Forest, g: Forest)
    ensures Preorder(Append(f, g)) == Preorder(f) + Preorder(g)
  {
    if f.Entry? {
      AppendPreorder(f.next, g);
    }
  }

  lemma {:induction false} AppendAssociative(f: Forest, g: Forest, h: Forest)
    ensures Append(Append(f, g), h) == Append(f, Append(g, h))
  {
    if f.Entry? {
      AppendAssociative(f.next, g, h);
    }
  }

  // ---------- Restructuring ----------

  /** Entries below one without a prompt follow it in its own row instead. */
  function Flatten(rules: Rules, f: Forest): (r: Forest)
    ensures Count(r) == Count(f)
    decreases Count(f)
  {
    match f
    case Nil => Nil
    case Entry(id, list, next) =>
      if list != Nil && !rules.prompt(id) then Entry(id, Nil, Flatten(rules, Append(list, next)))
      else Entry(id, list, Flatten(rules, next))
  }

  /** An entry finalised, together with the row it stands in: it may take entries that follow it. */
  function Finalize(rules: Rules, f: Forest): (r: Forest)
    requires f.Entry?
    ensures r.Entry? && r.id == f.id && Count(r) == Count(f)
    decreases Count(f), 0
  {
    if f.list != Nil then Entry(f.id, Flatten(rules, FinalizeAll(rules, f.list)), f.next)
    else if rules.sym(f.id) then
      var (taken, rest) := Absorb(rules, f.id, f.next);
      Entry(f.id, Flatten(rules, taken), rest)
    else f
  }

  function FinalizeAll(rules: Rules, f: Forest): (r: Forest)
    ensures Count(r) == Count(f)
    decreases Count(f), 1
  {
    if f == Nil then Nil
    else
      var e := Finalize(rules, f);
      Entry(e.id, e.list, FinalizeAll(rules, e.next))
  }

  /** The leading entries that belong below p, each finalised before the next is looked at, and the others. */
  function Absorb(rules: Rules, p: nat, f: Forest): (r: (Forest, Forest))
    ensures Count(r.0) + Count(r.1) == Count(f)
    decreases Count(f), 1
  {
    if f == Nil || !rules.joins(p, f.id) then (Nil, f)
    else
      var e := Finalize(rules, f);
      var (taken, rest) := Absorb(rules, p, e.next);
      (Entry(e.id, e.list, taken), rest)
  }

  lemma {:induction false} FlattenPreorder(rules: Rules, f: Forest)
    ensures Preorder(Flatten(rules, f)) == Preorder(f)
    decreases Count(f)
  {
    if f.Entry? {
      if f.list != Nil && !rules.prompt(f.id) {
        FlattenPreorder(rules, Append(f.list, f.next));
        AppendPreorder(f.list, f.next);
      } else {
        FlattenPreorder(rules, f.next);
      }
    }
  }

  /** Finalising conserves the menu: the entries in preorder are the same, none lost, doubled or moved past
      another, whatever the rules. */
  lemma {:induction false} FinalizePreorder(rules: Rules, f: Forest)
    requires f.Entry?
    ensures Preorder(Finalize(rules, f)) == Preorder(f)
    decreases Count(f), 0
  {
    if f.list != Nil {
      FinalizeAllPreorder(rules, f.list);
      FlattenPreorder(rules, FinalizeAll(rules, f.list));
    } else if rules.sym(f.id) {
      AbsorbPreorder(rules, f.id, f.next);
      FlattenPreorder(rules, Absorb(rules, f.id, f.next).0);
    }
  }

  lemma {:induction false} FinalizeAllPreorder(rules: Rules, f: Forest)
    ensures Preorder(FinalizeAll(rules, f)) == Preorder(f)
    decreases Count(f), 1
  {
    if f.Entry? {
      FinalizePreorder(rules, f);
      FinalizeAllPreorder(rules, Finalize(rules, f).next);
    }
  }

  lemma {:induction false} AbsorbPreorder(rules: Rules, p: nat, f: Forest)
    ensures var (taken, rest) := Absorb(rules, p, f); Preorder(taken) + Preorder(rest) == Preorder(f)
    decreases Count(f), 1
  {
    if f.Entry? && rules.joins(p, f.id) {
      FinalizePreorder(rules, f);
      AbsorbPreorder(rules, p, Finalize(rules, f).next);
    }
  }

  /** Every entry with a row below it has a prompt. */
  predicate Tidy(rules: Rules, f: Forest) {
    f == Nil || ((f.list != Nil ==> rules.prompt(f.id)) && Tidy(rules, f.list) && Tidy(rules, f.next))
  }

  /** Every row below an entry of this row is tidy. */
  predicate TidyBelow(rules: Rules, f: Forest) {
    f == Nil || (Tidy(rules, f.list) && TidyBelow(rules, f.next))
  }

  lemma {:induction false} AppendTidyBelow(rules: Rules, f: Forest, g: Forest)
    ensures TidyBelow(rules, Append(f, g)) <==> TidyBelow(rules, f) && TidyBelow(rules, g)
    ensures Tidy(rules, f) ==> TidyBelow(rules, f)
  {
    if f.Entry? {
      AppendTidyBelow(rules, f.next, g);
    }
  }

  lemma {:induction false} FlattenTidy(rules: Rules, f: Forest)
    requires TidyBelow(rules, f)
    ensures Tidy(rules, Flatten(rules, f))
    decreases Count(f)
  {
    if f.Entry? {
      if f.list != Nil && !rules.prompt(f.id) {
        AppendTidyBelow(rules, f.list, f.next);
        FlattenTidy(rules, Append(f.list, f.next));
      } else {
        FlattenTidy(rules, f.next);
      }
    }
  }

  /** Below a finalised entry, only entries with a prompt have entries below them. */
  lemma {:induction false} FinalizeTidy(rules: Rules, f: Forest)
    requires f.Entry?
    ensures Tidy(rules, Finalize(rules, f).list)
    decreases Count(f), 0
  {
    if f.list != Nil {
      FinalizeAllTidy(rules, f.list);
      FlattenTidy(rules, FinalizeAll(rules, f.list));
    } else if rules.sym(f.id) {
      AbsorbTidy(rules, f.id, f.next);
      FlattenTidy(rules, Absorb(rules, f.id, f.next).0);
    }
  }

  lemma {:induction false} FinalizeAllTidy(rules: Rules, f: Forest)
    ensures TidyBelow(rules, FinalizeAll(rules, f))
    decreases Count(f), 1
  {
    if f.Entry? {
      FinalizeTidy(rules, f);
      FinalizeAllTidy(rules, Finalize(rules, f).next);
    }
  }

  lemma {:induction false} AbsorbTidy(rules: Rules, p: nat, f: Forest)
    ensures TidyBelow(rules, Absorb(rules, p, f).0)
    decreases Count(f), 1
  {
    if f.Entry? && rules.joins(p, f.id) {
      FinalizeTidy(rules, f);
      AbsorbTidy(rules, p, Finalize(rules, f).next);
    }
  }

  // ---------- Links ----------

  /** The link fields of all entries. */
  datatype Links = Links(next: seq<int>, list: seq<int>, parent: seq<int>) {
    predicate Sized(n: nat) {
      |next| == n && |list| == n && |parent| == n
    }
  }

  function Ids(f: Forest): set<nat> {
    match f
    case Nil => {}
    case Entry(id, list, next) => {id} + Ids(list) + Ids(next)
  }

  /** No entry occurs twice. */
  predicate Distinct(f: Forest) {
    match f
    case Nil => true
    case Entry(id, list, next) =>
      && id !in Ids(list) && id !in Ids(next) && Ids(list) !! Ids(next)
      && Distinct(list) && Distinct(next)
  }

  /** The links from `first` on, up to `end`, form the row f below `par`. */
  predicate Row(m: Links, f: Forest, first: int, par: int, end: int) {
    match f
    case Nil => first == end
    case Entry(id, list, next) =>
      && first == id < |m.next| && m.Sized(|m.next|)
      && m.parent[id] == par
      && Row(m, list, m.list[id], id, -1)
      && Row(m, next, m.next[id], par, end)
  }

  /** The entries in s have the same links. */
  predicate SameLinks(m: Links, n: Links, s: set<nat>) {
    && |m.next| == |n.next| && m.Sized(|m.next|) && n.Sized(|n.next|)
    && forall k | k in s && k < |m.next| ::
         m.next[k] == n.next[k] && m.list[k] == n.list[k] && m.parent[k] == n.parent[k]
  }

  lemma {:induction false} RowFrame(m: Links, n: Links, f: Forest, first: int, par: int, end: int)
    requires Row(m, f, first, par, end) && SameLinks(m, n, Ids(f))
    ensures Row(n, f, first, par, end)
  {
    if f.Entry? {
      RowFrame(m, n, f.list, m.list[f.id], f.id, -1);
      RowFrame(m, n, f.next, m.next[f.id], par, end);
    }
  }

  lemma {:induction false} RowAppend(m: Links, f: Forest, g: Forest, first: int, par: int, mid: int, end: int)
    requires Row(m, f, first, par, mid) && Row(m, g, mid, par, end)
    ensures Row(m, Append(f, g), first, par, end)
  {
    if f.Entry? {
      RowAppend(m, f.next, g, m.next[f.id], par, mid, end);
    }
  }

  lemma {:induction false} AppendIds(f: Forest, g: Forest)
    ensures Ids(Append(f, g)) == Ids(f) + Ids(g)
    ensures Distinct(Append(f, g)) <==> Distinct(f) && Distinct(g) && Ids(f) !! Ids(g)
  {
    if f.Entry? {
      AppendIds(f.next, g);
    }
  }

  lemma {:induction false} IdsPreorder(f: Forest)
    ensures forall k :: k in Ids(f) <==> k in Preorder(f)
  {
    if f.Entry? {
      IdsPreorder(f.list);
      IdsPreorder(f.next);
    }
  }

  predicate NoDuplicates(s: seq<nat>) {
    forall i, j | 0 <= i < j < |s| :: s[i] != s[j]
  }

  lemma NoDuplicatesAppend(s: seq<nat>, t: seq<nat>)
    ensures NoDuplicates(s + t) <==> NoDuplicates(s) && NoDuplicates(t) && forall k :: k in s ==> k !in t
  {
    var u := s + t;
    if NoDuplicates(u) {
      assert forall i | 0 <= i < |s| :: s[i] == u[i];
      assert forall i | 0 <= i < |t| :: t[i] == u[|s| + i];
      forall k | k in s ensures k !in t {
        var i :| 0 <= i < |s| && s[i] == k;
        assert u[i] == k;
      }
    }
    if NoDuplicates(s) && NoDuplicates(t) && forall k :: k in s ==> k !in t {
      forall i, j | 0 <= i < j < |u| ensures u[i] != u[j] {
        if i < |s| <= j {
          assert s[i] in s && t[j - |s|] in t;
        }
      }
    }
  }

  lemma {:induction false} DistinctPreorder(f: Forest)
    ensures Distinct(f) <==> NoDuplicates(Preorder(f))
  {
    if f.Entry? {
      DistinctPreorder(f.list);
      DistinctPreorder(f.next);
      IdsPreorder(f.list);
      IdsPreorder(f.next);
      NoDuplicatesAppend([f.id] + Preorder(f.list), Preorder(f.next));
      NoDuplicatesAppend([f.id], Preorder(f.list));
    }
  }

  /** Two rows with the same preorder have the same entries, once each. */
  lemma SamePreorder(f: Forest, g: Forest)
    requires Preorder(f) == Preorder(g)
    ensures Ids(f) == Ids(g) && Distinct(f) == Distinct(g)
  {
    IdsPreorder(f);
    IdsPreorder(g);
    DistinctPreorder(f);
    DistinctPreorder(g);
  }

  /** Nothing outside s changed. */
  predicate OnlyChanged(m: Links, n: Links, s: set<nat>) {
    && |m.next| == |n.next| && m.Sized(|m.next|) && n.Sized(|n.next|)
    && forall k | 0 <= k < |m.next| && k !in s ::
         m.next[k] == n.next[k] && m.list[k] == n.list[k] && m.parent[k] == n.parent[k]
  }

  lemma RowUntouched(m: Links, n: Links, f: Forest, first: int, par: int, end: int, s: set<nat>)
    requires Row(m, f, first, par, end) && OnlyChanged(m, n, s) && Ids(f) !! s
    ensures Row(n, f, first, par, end)
  {
    RowFrame(m, n, f, first, par, end);
  }

  function Last(f: Forest): nat
    requires f.Entry?
  {
    if f.next == Nil then f.id else Last(f.next)
  }

  /** The entries of the row itself. */
  function Tops(f: Forest): set<nat> {
    if f == Nil then {} else {f.id} + Tops(f.next)
  }

  lemma {:induction false} LastInRow(m: Links, f: Forest, first: int, par: int, end: int)
    requires f.Entry? && Row(m, f, first, par, end)
    ensures Last(f) in Ids(f) && Last(f) < |m.next| && m.next[Last(f)] == end
  {
    if f.next != Nil {
      LastInRow(m, f.next, m.next[f.id], par, end);
    }
  }

  lemma {:induction false} TopsInIds(f: Forest)
    ensures Tops(f) <= Ids(f)
  {
    if f.Entry? {
      TopsInIds(f.next);
    }
  }

  /** A row can be made to end elsewhere by changing its last link. */
  lemma {:induction false} Redirect(m: Links, n: Links, f: Forest, first: int, par: int, mid: int, end: int)
    requires f.Entry? && Row(m, f, first, par, mid) && Distinct(f) && Last(f) < |m.next|
    requires n == m.(next := m.next[Last(f) := end])
    ensures Row(n, f, first, par, end)
  {
    if f.next == Nil {
      RowFrame(m, n, f.list, m.list[f.id], f.id, -1);
    } else {
      LastInRow(m, f.next, m.next[f.id], par, mid);
      RowFrame(m, n, f.list, m.list[f.id], f.id, -1);
      Redirect(m, n, f.next, m.next[f.id], par, mid, end);
    }
  }

  /** An entry with what is below it, without the rest of its row. */
  function Single(f: Forest): Forest
    requires f.Entry?
  {
    Entry(f.id, f.list, Nil)
  }

  /** The first entry still to do joins those done. */
  lemma MoveOn(m: Links, rules: Rules, done: Forest, e: Forest, first: int, p: int, cur: int)
    requires e.Entry? && Row(m, done, first, p, cur) && Row(m, e, cur, p, -1)
    requires Distinct(e) && Ids(done) !! Ids(e)
    ensures var more := Append(done, Single(e));
            && Row(m, more, first, p, m.next[e.id]) && Row(m, e.next, m.next[e.id], p, -1)
            && Ids(more) !! Ids(e.next) && Distinct(e.next)
            && Append(done, Append(Single(e), Flatten(rules, e.next))) == Append(more, Flatten(rules, e.next))
  {
    assert Row(m, Single(e), cur, p, m.next[cur]);
    RowAppend(m, done, Single(e), first, p, cur, m.next[cur]);
    AppendIds(done, Single(e));
    AppendAssociative(done, Single(e), Flatten(rules, e.next));
  }

  lemma AppendSingle(g: Forest, e: Forest)
    requires e.Entry?
    ensures Append(g, e) == Append(Append(g, Single(e)), e.next)
  {
    AppendAssociative(g, Single(e), e.next);
  }

  lemma {:induction false} AppendLast(g: Forest, e: Forest)
    requires e.Entry? && e.next == Nil
    ensures Append(g, e).Entry? && Last(Append(g, e)) == e.id
  {
    if g.Entry? {
      AppendLast(g.next, e);
    }
  }

  // ---------- The restructuring on links ----------

  class Menu {
    const rules: Rules
    var next: seq<int>
    var list: seq<int>
    var parent: seq<int>

    constructor (rules: Rules, m: Links)
      ensures this.rules == rules && At() == m
    {
      this.rules := rules;
      next, list, parent := m.next, m.list, m.parent;
    }

    function At(): Links
      reads this
    {
      Links(next, list, parent)
    }

    /** menu_finalize: the row of the entry becomes the finalised row, and no other entry is touched. */
    method FinalizeEntry(i: nat, ghost f: Forest, ghost par: int)
      requires f.Entry? && Row(At(), f, i, par, -1) && Distinct(f)
      modifies this
      ensures Row(At(), Finalize(rules, f), i, par, -1)
      ensures OnlyChanged(old(At()), At(), Ids(f))
      decreases Count(f), 0
    {
      if list[i] != -1 {
        FinalizeBelow(i, f, par);
      } else if rules.sym(i) {
        AbsorbFollowing(i, f, par);
        ghost var (taken, rest) := Absorb(rules, i, f.next);
        FlattenBelow(i, taken, rest, f, par);
      }
    }

    /** An entry that has a row below it. */
    method FinalizeBelow(i: nat, ghost f: Forest, ghost par: int)
      requires f.Entry? && f.list.Entry? && Row(At(), f, i, par, -1) && Distinct(f)
      modifies this
      ensures Row(At(), Entry(i, Flatten(rules, FinalizeAll(rules, f.list)), f.next), i, par, -1)
      ensures OnlyChanged(old(At()), At(), Ids(f))
      decreases Count(f.list), 2
    {
      ghost var m := At();
      FinalizeRow(i, f.list);
      ghost var l := FinalizeAll(rules, f.list);
      FinalizeAllPreorder(rules, f.list);
      SamePreorder(l, f.list);
      RowUntouched(m, At(), f.next, next[i], par, -1, Ids(f.list));
      m := At();
      FlattenRow(i, l);
      RowUntouched(m, At(), f.next, next[i], par, -1, Ids(l));
    }

    /** An entry that has taken the row below it from the entries that followed. */
    method FlattenBelow(i: nat, ghost taken: Forest, ghost rest: Forest, ghost f: Forest, ghost par: int)
      requires i < |next| && At().Sized(|next|) && parent[i] == par
      requires f.Entry? && f.id == i && f.list == Nil && Distinct(f)
      requires (taken, rest) == Absorb(rules, i, f.next)
      requires Row(At(), taken, list[i], i, -1) && Row(At(), rest, next[i], par, -1)
      modifies this
      ensures Row(At(), Entry(i, Flatten(rules, taken), rest), i, par, -1)
      ensures OnlyChanged(old(At()), At(), Ids(f))
    {
      ghost var m := At();
      AbsorbPreorder(rules, i, f.next);
      AppendPreorder(taken, rest);
      AppendIds(taken, rest);
      SamePreorder(Append(taken, rest), f.next);
      FlattenRow(i, taken);
      RowUntouched(m, At(), rest, next[i], par, -1, Ids(taken));
    }

    /** The loop over the entries below: each is finalised in turn, and may take entries that follow it. */
    method FinalizeRow(p: nat, ghost f: Forest)
      requires p < |list| && Row(At(), f, list[p], p, -1) && At().Sized(|list|)
      requires Distinct(f) && p !in Ids(f)
      modifies this
      ensures OnlyChanged(old(At()), At(), Ids(f))
      ensures Row(At(), FinalizeAll(rules, f), list[p], p, -1)
      decreases Count(f), 1
    {
      var first, cur := list[p], list[p];
      ghost var done, todo := Nil, f;
      while cur != -1
        invariant OnlyChanged(old(At()), At(), Ids(f))
        invariant Row(At(), done, first, p, cur) && Row(At(), todo, cur, p, -1)
        invariant Distinct(todo) && Ids(done) !! Ids(todo) && Ids(todo) <= Ids(f)
        invariant Count(todo) <= Count(f)
        invariant FinalizeAll(rules, f) == Append(done, FinalizeAll(rules, todo))
        decreases Count(todo)
      {
        ghost var m := At();
        ghost var e := Finalize(rules, todo);
        FinalizePreorder(rules, todo);
        SamePreorder(e, todo);
        FinalizeEntry(cur, todo, p);
        RowUntouched(m, At(), done, first, p, cur, Ids(todo));
        assert Row(At(), Single(e), cur, p, next[cur]);
        RowAppend(At(), done, Single(e), first, p, cur, next[cur]);
        AppendIds(done, Single(e));
        AppendAssociative(done, Single(e), FinalizeAll(rules, e.next));
        done, todo := Append(done, Single(e)), e.next;
        cur := next[cur];
      }
      AppendNil(done);
    }

    /** Takes the entries that follow and belong below; the row of the entry then goes on behind them. */
    method AbsorbFollowing(i: nat, ghost f: Forest, ghost par: int)
      requires f.Entry? && f.list == Nil && Row(At(), f, i, par, -1) && Distinct(f)
      modifies this
      ensures At().Sized(|old(next)|) && parent[i] == par
      ensures Row(At(), Absorb(rules, i, f.next).0, list[i], i, -1)
      ensures Row(At(), Absorb(rules, i, f.next).1, next[i], par, -1)
      ensures OnlyChanged(old(At()), At(), Ids(f))
      decreases Count(f.next), 3
    {
      var last, cur := TakeAll(i, f.next, par);
      ghost var (taken, rest) := Absorb(rules, i, f.next);
      if last != -1 {
        LastInRow(At(), taken, next[i], i, cur);
        Cut(i, last, taken, rest, cur, par);
      }
    }

    /** The loop over the entries that follow: where it stops, and the last entry taken, if any. */
    method TakeAll(i: nat, ghost f: Forest, ghost par: int) returns (last: int, cur: int)
      requires i < |next| && At().Sized(|next|) && Row(At(), f, next[i], par, -1)
      requires Distinct(f) && i !in Ids(f)
      modifies this
      ensures OnlyChanged(old(At()), At(), Ids(f))
      ensures var (taken, rest) := Absorb(rules, i, f);
              && Row(At(), taken, next[i], i, cur) && Row(At(), rest, cur, par, -1)
              && Distinct(taken) && Ids(taken) !! Ids(rest) && Ids(taken) <= Ids(f) && Ids(rest) <= Ids(f)
              && last == if taken == Nil then -1 else Last(taken)
      decreases Count(f), 2
    {
      last, cur := -1, next[i];
      ghost var taken, rest := Nil, f;
      while cur != -1 && rules.joins(i, cur)
        invariant OnlyChanged(old(At()), At(), Ids(f))
        invariant Row(At(), taken, next[i], i, cur) && Row(At(), rest, cur, par, -1)
        invariant Distinct(taken) && Distinct(rest) && Ids(taken) !! Ids(rest)
        invariant Ids(taken) <= Ids(f) && Ids(rest) <= Ids(f)
        invariant last == if taken == Nil then -1 else Last(taken)
        invariant Count(rest) <= Count(f)
        invariant Absorb(rules, i, f) == (Append(taken, Absorb(rules, i, rest).0), Absorb(rules, i, rest).1)
        decreases Count(rest)
      {
        ghost var e := Finalize(rules, rest);
        TakeOne(i, cur, taken, rest, par);
        AppendLast(taken, Single(e));
        AbsorbStep(rules, i, taken, rest);
        taken, rest := Append(taken, Single(e)), e.next;
        last := cur;
        cur := next[cur];
      }
      AppendNil(taken);
    }

    /** Finalises the next entry and makes it a child of entry i. */
    method TakeOne(i: nat, cur: nat, ghost taken: Forest, ghost rest: Forest, ghost par: int)
      requires i < |next| && Row(At(), taken, next[i], i, cur)
      requires rest.Entry? && Row(At(), rest, cur, par, -1)
      requires Distinct(taken) && Distinct(rest) && Ids(taken) !! Ids(rest) && i !in Ids(rest)
      modifies this
      ensures OnlyChanged(old(At()), At(), Ids(rest))
      ensures var e := Finalize(rules, rest);
              && Row(At(), Append(taken, Single(e)), next[i], i, next[cur])
              && Row(At(), e.next, next[cur], par, -1)
              && Distinct(Append(taken, Single(e))) && Distinct(e.next)
              && Ids(Append(taken, Single(e))) !! Ids(e.next)
              && Ids(Append(taken, Single(e))) == Ids(taken) + Ids(Single(e))
              && Ids(e.next) <= Ids(rest) && Ids(Single(e)) <= Ids(rest)
      decreases Count(rest), 1
    {
      ghost var m := At();
      ghost var e := Finalize(rules, rest);
      FinalizePreorder(rules, rest);
      SamePreorder(e, rest);
      FinalizeEntry(cur, rest, par);
      RowUntouched(m, At(), taken, next[i], i, cur, Ids(rest));
      m := At();
      Move(cur, e, par, i);
      RowUntouched(m, At(), taken, next[i], i, cur, {cur});
      RowAppend(At(), taken, Single(e), next[i], i, cur, next[cur]);
      AppendIds(taken, Single(e));
    }

    /** Makes an entry a child of another parent. */
    method Move(cur: nat, ghost e: Forest, ghost par: int, i: int)
      requires e.Entry? && Row(At(), e, cur, par, -1) && Distinct(e)
      modifies this
      ensures OnlyChanged(old(At()), At(), {cur}) && next == old(next) && list == old(list)
      ensures Row(At(), Single(e), cur, i, next[cur]) && Row(At(), e.next, next[cur], par, -1)
    {
      ghost var m := At();
      parent := parent[cur := i];
      RowUntouched(m, At(), e.list, list[cur], cur, -1, {cur});
      RowUntouched(m, At(), e.next, next[cur], par, -1, {cur});
    }

    /** Cuts the taken entries out of the row of entry i and hangs them below it. */
    method Cut(i: nat, last: nat, ghost taken: Forest, ghost rest: Forest, ghost cur: int, ghost par: int)
      requires i < |next| && At().Sized(|next|) && parent[i] == par
      requires taken.Entry? && last == Last(taken)
      requires Row(At(), taken, next[i], i, cur) && Row(At(), rest, cur, par, -1)
      requires Distinct(taken) && Ids(taken) !! Ids(rest) && i !in Ids(taken) && i !in Ids(rest)
      modifies this
      ensures At().Sized(|old(next)|) && parent == old(parent)
      ensures Row(At(), taken, list[i], i, -1) && Row(At(), rest, next[i], par, -1)
      ensures OnlyChanged(old(At()), At(), {i, last})
    {
      ghost var m := At();
      ghost var first := next[i];
      LastInRow(m, taken, first, i, cur);
      list := list[i := next[i]];
      next := next[i := next[last]];
      RowUntouched(m, At(), taken, first, i, cur, {i});
      Redirect(At(), At().(next := next[last := -1]), taken, first, i, cur, -1);
      next := next[last := -1];
      RowUntouched(m, At(), rest, cur, par, -1, {i, last});
    }

    /** The flattening loop over the row below p. */
    method FlattenRow(p: nat, ghost f: Forest)
      requires p < |list| && Row(At(), f, list[p], p, -1) && At().Sized(|list|)
      requires Distinct(f) && p !in Ids(f)
      modifies this
      ensures OnlyChanged(old(At()), At(), Ids(f))
      ensures Row(At(), Flatten(rules, f), list[p], p, -1)
    {
      var first, cur := list[p], list[p];
      ghost var done, todo := Nil, f;
      while cur != -1
        invariant OnlyChanged(old(At()), At(), Ids(f))
        invariant Row(At(), done, first, p, cur) && Row(At(), todo, cur, p, -1)
        invariant Distinct(todo) && Ids(done) !! Ids(todo) && Ids(todo) <= Ids(f)
        invariant Flatten(rules, f) == Append(done, Flatten(rules, todo))
        decreases Count(todo)
      {
        ghost var m := At();
        ghost var e := todo;
        if list[cur] != -1 && !rules.prompt(cur) {
          Splice(cur, todo, p);
          RowUntouched(m, At(), done, first, p, cur, Ids(todo));
          AppendIds(todo.list, todo.next);
          e := Entry(todo.id, Nil, Append(todo.list, todo.next));
        }
        MoveOn(At(), rules, done, e, first, p, cur);
        done, todo := Append(done, Single(e)), e.next;
        cur := next[cur];
      }
      AppendNil(done);
    }

    /** Moves the row below an entry behind it in its own row. */
    method Splice(cur: nat, ghost f: Forest, p: nat)
      requires f.Entry? && f.list.Entry? && Row(At(), f, cur, p, -1) && Distinct(f)
      modifies this
      ensures Row(At(), Entry(f.id, Nil, Append(f.list, f.next)), cur, p, -1)
      ensures OnlyChanged(old(At()), At(), Ids(f))
    {
      ghost var m := At();
      var first := list[cur];
      var last := Adopt(first, f.list, cur, p);
      LastInRow(At(), f.list, first, p, -1);
      RowUntouched(m, At(), f.next, next[cur], p, -1, Ids(f.list));
      ghost var behind := next[cur];
      ghost var adopted := At();
      Redirect(adopted, adopted.(next := next[last := behind]), f.list, first, p, -1, behind);
      next := next[last := next[cur]];
      RowUntouched(adopted, At(), f.next, behind, p, -1, {last});
      ghost var joined := At();
      next := next[cur := list[cur]];
      list := list[cur := -1];
      RowUntouched(joined, At(), f.list, first, p, behind, {cur});
      RowUntouched(joined, At(), f.next, behind, p, -1, {cur});
      RowAppend(At(), f.list, f.next, first, p, behind, -1);
    }

    /** Gives every entry of a row another parent, and finds the last one. */
    method Adopt(first: nat, ghost f: Forest, ghost par: int, p: int) returns (last: nat)
      requires f.Entry? && Row(At(), f, first, par, -1) && Distinct(f)
      modifies this
      ensures next == old(next) && list == old(list)
      ensures Row(At(), f, first, p, -1) && last == Last(f)
      ensures OnlyChanged(old(At()), At(), Ids(f))
      decreases Count(f)
    {
      last := first;
      ghost var m := At();
      ghost var done, todo := Nil, f;
      while true
        invariant next == old(next) && list == old(list)
        invariant OnlyChanged(m, At(), Ids(f))
        invariant todo.Entry? && Row(At(), done, first, p, last) && Row(At(), todo, last, par, -1)
        invariant Distinct(todo) && Ids(done) !! Ids(todo) && Ids(todo) <= Ids(f)
        invariant f == Append(done, todo) && Last(f) == Last(todo)
        decreases Count(todo)
      {
        ghost var n := At();
        Move(last, todo, par, p);
        RowUntouched(n, At(), done, first, p, last, {last});
        RowAppend(At(), done, Single(todo), first, p, last, next[last]);
        AppendIds(done, Single(todo));
        AppendSingle(done, todo);
        done, todo := Append(done, Single(todo)), todo.next;
        if next[last] == -1 {
          AppendNil(done);
          return;
        }
        last := next[last];
      }
    }
  }

  lemma AbsorbStep(rules: Rules, p: nat, taken: Forest, f: Forest)
    requires f.Entry? && rules.joins(p, f.id)
    ensures var e := Finalize(rules, f);
            && Absorb(rules, p, f).1 == Absorb(rules, p, e.next).1
            && Append(taken, Absorb(rules, p, f).0) == Append(Append(taken, Single(e)), Absorb(rules, p, e.next).0)
  {
    var e := Finalize(rules, f);
    AppendAssociative(taken, Single(e), Absorb(rules, p, e.next).0);
  }

  lemma {:induction false} AppendNil(f: Forest)
    ensures Append(f, Nil) == f
  {
    if f.Entry? {
      AppendNil(f.next);
    }
  }

  // ---------- The walk ----------

  /** Where a walk stands below an entry: the entry, and the rest of its row. */
  datatype Level = Level(id: nat, next: Forest)

  /** What is left to visit after the current row: the rows of the ancestors, innermost first. */
  function Pending(levels: seq<Level>): seq<nat> {
    if levels == [] then [] else Preorder(levels[0].next) + Pending(levels[1..])
  }

  function ParentOf(levels: seq<Level>): int {
    if levels == [] then -1 else levels[0].id
  }

  /** The ancestors' links: each names its own parent, and its row goes on as recorded; the outermost has no
      parent and stands alone. */
  predicate Ancestry(m: Links, levels: seq<Level>) {
    levels != [] ==>
      && m.Sized(|m.next|) && levels[0].id < |m.next|
      && m.parent[levels[0].id] == ParentOf(levels[1..])
      && Row(m, levels[0].next, m.next[levels[0].id], ParentOf(levels[1..]), -1)
      && (levels[1..] == [] ==> levels[0].next == Nil)
      && Ancestry(m, levels[1..])
  }

  function PendingCount(levels: seq<Level>): nat {
    if levels == [] then 0 else Count(levels[0].next) + PendingCount(levels[1..])
  }

  /** Where a row starts. */
  function First(f: Forest): int {
    if f == Nil then -1 else f.id
  }

  /** The row that goes on after an exhausted one, and the ancestors that are then left. */
  function Resume(levels: seq<Level>): (Forest, seq<Level>) {
    if levels == [] then (Nil, [])
    else if levels[0].next != Nil then (levels[0].next, levels[1..])
    else Resume(levels[1..])
  }

  /** A row still to visit below its ancestors. */
  predicate Upcoming(m: Links, f: Forest, levels: seq<Level>) {
    Ancestry(m, levels) && Row(m, f, First(f), ParentOf(levels), -1) && (levels == [] ==> f == Nil)
  }

  lemma {:induction false} ResumeLinks(m: Links, levels: seq<Level>)
    requires Ancestry(m, levels)
    ensures Upcoming(m, Resume(levels).0, Resume(levels).1)
  {
    if levels != [] && levels[0].next == Nil {
      ResumeLinks(m, levels[1..]);
    }
  }

  lemma {:induction false} ResumeOrder(levels: seq<Level>)
    ensures var (f, rest) := Resume(levels);
            && Preorder(f) + Pending(rest) == Pending(levels)
            && Count(f) + PendingCount(rest) == PendingCount(levels)
            && (f == Nil ==> rest == [])
  {
    if levels != [] && levels[0].next == Nil {
      ResumeOrder(levels[1..]);
    }
  }

  /** From an entry whose row is exhausted, up to the first ancestor whose row goes on, and on to its next entry;
      -1 when there is none. */
  method Climb(m: Links, menu: nat, ghost levels: seq<Level>) returns (r: int)
    requires m.Sized(|m.next|) && menu < |m.next| && m.parent[menu] == ParentOf(levels) && Ancestry(m, levels)
    ensures r == First(Resume(levels).0)
  {
    r := m.parent[menu];
    ghost var rest := levels;
    while r != -1
      invariant Ancestry(m, rest) && r == ParentOf(rest)
      invariant Resume(rest) == Resume(levels)
      decreases |rest|
    {
      if m.next[r] != -1 {
        return m.next[r];
      }
      assert rest[0].next == Nil;
      rest := rest[1..];
      r := m.parent[r];
    }
  }

  /** Going down from an entry: its siblings become the row that an ancestor still has to visit. */
  lemma Descend(m: Links, cur: Forest, levels: seq<Level>)
    requires cur.Entry? && Ancestry(m, levels) && Row(m, cur, cur.id, ParentOf(levels), -1) && levels != []
    ensures var deeper := [Level(cur.id, cur.next)] + levels;
            Ancestry(m, deeper) && Row(m, cur.list, m.list[cur.id], ParentOf(deeper), -1)
  {
    var deeper := [Level(cur.id, cur.next)] + levels;
    assert deeper[1..] == levels;
  }

  lemma DescendOrder(cur: Forest, levels: seq<Level>)
    requires cur.Entry?
    ensures var deeper := [Level(cur.id, cur.next)] + levels;
            && Preorder(cur) + Pending(levels) == [cur.id] + (Preorder(cur.list) + Pending(deeper))
            && Count(cur.list) + PendingCount(deeper) < Count(cur) + PendingCount(levels)
  {
    var deeper := [Level(cur.id, cur.next)] + levels;
    assert deeper[1..] == levels;
  }

  lemma Outermost(m: Links, root: nat)
    requires m.Sized(|m.next|) && root < |m.next| && m.next[root] == -1 && m.parent[root] == -1
    ensures Ancestry(m, [Level(root, Nil)]) && Pending([Level(root, Nil)]) == []
  {
    assert [Level(root, Nil)][1..] == [];
  }

  /** What follows an entry in the walk: the row below it, else the rest of its row, else that of an ancestor. */
  function After(cur: Forest, levels: seq<Level>): (Forest, seq<Level>)
    requires cur.Entry?
  {
    if cur.list != Nil then (cur.list, [Level(cur.id, cur.next)] + levels)
    else if cur.next != Nil then (cur.next, levels)
    else Resume(levels)
  }

  lemma AfterLinks(m: Links, cur: Forest, levels: seq<Level>)
    requires cur.Entry? && Upcoming(m, cur, levels)
    ensures Upcoming(m, After(cur, levels).0, After(cur, levels).1)
  {
    hide Ancestry;
    if cur.list != Nil {
      Descend(m, cur, levels);
      assert Row(m, cur.list, First(cur.list), cur.id, -1);
    } else if cur.next != Nil {
      assert Row(m, cur.next, m.next[cur.id], ParentOf(levels), -1);
    } else {
      ResumeLinks(m, levels);
    }
  }

  lemma LeafOrder(cur: Forest)
    requires cur.Entry? && cur.list == Nil
    ensures Preorder(cur) == [cur.id] + Preorder(cur.next) && Count(cur) == 1 + Count(cur.next)
    ensures cur.next == Nil ==> Preorder(cur) == [cur.id] && Count(cur) == 1
    ensures Preorder(Nil) == [] && Count(Nil) == 0 && Pending([]) == []
  {
  }

  lemma Shifted(id: nat, s: seq<nat>, t: seq<nat>)
    ensures ([id] + s) + t == [id] + (s + t)
  {
  }

  lemma AfterOrder(cur: Forest, levels: seq<Level>)
    requires cur.Entry?
    ensures var (f, rest) := After(cur, levels);
            && Preorder(cur) + Pending(levels) == [cur.id] + (Preorder(f) + Pending(rest))
            && Count(f) + PendingCount(rest) < Count(cur) + PendingCount(levels)
            && (f == Nil ==> Pending(rest) == [])
  {
    if cur.list == Nil {
      LeafOrder(cur);
    }
    hide Preorder, Pending, PendingCount, Count, Resume;
    if cur.list != Nil {
      DescendOrder(cur, levels);
    } else if cur.next != Nil {
      Shifted(cur.id, Preorder(cur.next), Pending(levels));
    } else {
      ResumeOrder(levels);
    }
  }

  /** One turn of the walk: into the submenu, else along the row, else up to the first ancestor whose row goes on. */
  method Forward(m: Links, menu: nat, ghost cur: Forest, ghost levels: seq<Level>) returns (r: int)
    requires cur.Entry? && cur.id == menu && levels != []
    requires Ancestry(m, levels) && Row(m, cur, menu, ParentOf(levels), -1)
    ensures r == First(After(cur, levels).0)
  {
    hide Ancestry, Resume;
    if m.list[menu] != -1 {
      r := m.list[menu];
    } else if m.next[menu] != -1 {
      r := m.next[menu];
    } else {
      r := Climb(m, menu, levels);
    }
  }

  /** The entries that are still to come, and how much work that is. */
  function Todo(cur: Forest, levels: seq<Level>): seq<nat> {
    Preorder(cur) + Pending(levels)
  }

  function Work(cur: Forest, levels: seq<Level>): nat {
    Count(cur) + PendingCount(levels)
  }

  lemma WalkTurn(m: Links, cur: Forest, levels: seq<Level>)
    requires cur.Entry? && Upcoming(m, cur, levels)
    ensures Ancestry(m, levels) && Row(m, cur, cur.id, ParentOf(levels), -1) && levels != []
    ensures var (g, rest) := After(cur, levels);
            && Upcoming(m, g, rest) && Work(g, rest) < Work(cur, levels)
            && Todo(cur, levels) == [cur.id] + Todo(g, rest) && (g == Nil ==> Todo(g, rest) == [])
  {
    hide Ancestry, Pending, PendingCount, After, Row;
    AfterLinks(m, cur, levels);
    AfterOrder(cur, levels);
  }

  lemma WalkStarts(m: Links, root: nat, f: Forest)
    requires m.Sized(|m.next|) && root < |m.next| && m.next[root] == -1 && m.parent[root] == -1
    requires Row(m, f, m.list[root], root, -1)
    ensures Upcoming(m, f, [Level(root, Nil)]) && m.list[root] == First(f)
    ensures [] + Todo(f, [Level(root, Nil)]) == Preorder(f) && (f == Nil ==> Preorder(f) == [])
  {
    assert f == Nil ==> Preorder(f) == [];
    Outermost(m, root);
    hide Ancestry, Pending, Preorder;
    assert Preorder(f) + [] == Preorder(f);
  }

  lemma VisitedOne(visited: seq<nat>, id: nat, todo: seq<nat>)
    ensures visited + ([id] + todo) == visited + [id] + todo
    ensures todo == [] ==> visited + [id] + todo == visited + [id]
  {
  }

  /** The walk of conf_write over the tree below the root: it ends, and visits every entry exactly once, in
      preorder. */
  method WalkMenu(m: Links, root: nat, ghost f: Forest) returns (visited: seq<nat>)
    requires m.Sized(|m.next|) && root < |m.next| && m.next[root] == -1 && m.parent[root] == -1
    requires Row(m, f, m.list[root], root, -1)
    ensures visited == Preorder(f)
  {
    WalkStarts(m, root, f);
    hide Ancestry, Row, Upcoming, After, Todo, Work, Preorder;
    visited := [];
    var menu := m.list[root];
    ghost var cur := f;
    ghost var levels := [Level(root, Nil)];
    while menu != -1
      invariant Upcoming(m, cur, levels) && menu == First(cur)
      invariant visited + Todo(cur, levels) == Preorder(f)
      invariant menu == -1 ==> visited == Preorder(f)
      decreases Work(cur, levels)
    {
      WalkTurn(m, cur, levels);
      ghost var before := visited;
      visited := visited + [menu];
      menu := Forward(m, menu, cur, levels);
      ghost var g, rest := After(cur, levels).0, After(cur, levels).1;
      VisitedOne(before, cur.id, Todo(g, rest));
      cur, levels := g, rest;
    }
  }

  /** Finalising the root and then walking visits exactly the entries of the original menu, in their original
      order. */
  method FinalizeAndWalk(menu: Menu, root: nat, ghost f: Forest) returns (visited: seq<nat>)
    requires f.Entry? && f.next == Nil && Row(menu.At(), f, root, -1, -1) && Distinct(f) && !menu.rules.sym(root)
    modifies menu
    ensures visited == Preorder(f.list)
  {
    menu.FinalizeEntry(root, f, -1);
    ghost var g := Finalize(menu.rules, f);
    FinalizePreorder(menu.rules, f);
    assert Preorder(g) == [root] + Preorder(g.list) && Preorder(f) == [root] + Preorder(f.list);
    visited := WalkMenu(menu.At(), root, g.list);
    assert Preorder(g)[1..] == Preorder(g.list);
    assert Preorder(f)[1..] == Preorder(f.list);
  }
}
