/** The six comparisons, told by the order of the values compared. */
module Orderings {
  import opened Tristates
  import opened Exprs

  /** All six comparisons of two symbols follow from whether the first is below the second and whether they agree. */
  predicate Ordered(env: Env, a: Symbol, b: Symbol, below: bool, same: bool) {
    && Eval(env, Rel(Less, a, b)) == TriOf(below)
    && Eval(env, Rel(LessEqual, a, b)) == TriOf(below || same)
    && Eval(env, Rel(Equal, a, b)) == TriOf(same)
    && Eval(env, Rel(Unequal, a, b)) == TriOf(!same)
    && Eval(env, Rel(GreaterEqual, a, b)) == TriOf(!below)
    && Eval(env, Rel(Greater, a, b)) == TriOf(!below && !same)
  }

  /** The bytes in which two texts first differ, or the end of the first, decide. */
  ghost predicate TextBelow(s: string, t: string) {
    s < t || exists k | 0 <= k < |s| && k < |t| :: s[..k] == t[..k] && s[k] < t[k]
  }

  lemma {:induction false} StringCompareOrder(s: string, t: string)
    ensures StringCompare(s, t) < 0 <==> TextBelow(s, t)
    ensures StringCompare(s, t) == 0 <==> s == t
  {
    StringCompareEqual(s, t);
    if s != [] && t != [] {
      assert s[..0] == t[..0];
      if s[0] == t[0] {
        StringCompareOrder(s[1..], t[1..]);
        assert s == [s[0]] + s[1..] && t == [t[0]] + t[1..];
        if s[1..] < t[1..] {
          assert s < t;
        }
        forall k | 0 < k < |s| && k < |t|
          ensures s[..k] == t[..k] <==> s[1..][..k - 1] == t[1..][..k - 1]
          ensures s[k] == s[1..][k - 1] && t[k] == t[1..][k - 1]
        {
          assert s[..k] == [s[0]] + s[1..][..k - 1] && t[..k] == [t[0]] + t[1..][..k - 1];
        }
        if s < t {
          assert s[1..] < t[1..];
        }
      }
    }
  }

  /** Symbols of which one has a text that is no number, or which are both strings, are ordered by their texts. */
  lemma TextsOrdered(env: Env, a: Symbol, b: Symbol)
    requires (a.Type() == Text && b.Type() == Text) || Read(env, a) == NotANumber || Read(env, b) == NotANumber
    ensures Ordered(env, a, b, TextBelow(env.text(a), env.text(b)), env.text(a) == env.text(b))
  {
    StringCompareOrder(env.text(a), env.text(b));
  }

  /** Other symbols are ordered as numbers: signed, or in the unsigned numbers of 64 bits where one is unsigned. */
  lemma NumbersOrdered(env: Env, a: Symbol, b: Symbol)
    requires a.Type() != Text || b.Type() != Text
    requires Read(env, a) != NotANumber && Read(env, b) != NotANumber
    ensures var x, y := Read(env, a).v, Read(env, b).v;
            var p, q := x % 0x1_0000_0000_0000_0000, y % 0x1_0000_0000_0000_0000;
            if Read(env, a).Signed? && Read(env, b).Signed? then Ordered(env, a, b, x < y, x == y)
            else Ordered(env, a, b, p < q, p == q)
  {
  }

  /** Bool and tristate symbols are ordered n, m, y. */
  lemma TristatesOrdered(env: Env, a: Symbol, b: Symbol)
    requires ValidEnv(env) && a.Logic() && b.Logic()
    ensures Ordered(env, a, b, env.tri(a) < env.tri(b), env.tri(a) == env.tri(b))
  {
    assert Read(env, a) == Signed(env.tri(a)) && Read(env, b) == Signed(env.tri(b)) by {
      assert forall t: Tristate :: TriCode(TriText(t)) == t;
    }
    NumbersOrdered(env, a, b);
  }
}
