/** Dependency expressions, the symbols they mention, and their value in an environment. */
module Exprs {
  import opened Tristates

  datatype SymbolType = Unknown | Boolean | Tri | Integer | Hex | Text

  /** A symbol is known by its identity.  The three constants y, m and n are objects of their own;
      any other quoted word is a constant of unknown type that is interned by its text. */
  datatype Symbol =
    | SymYes
    | SymMod
    | SymNo
    | Constant(text: string)
    | Config(id: nat, ty: SymbolType)
  {
    function Type(): SymbolType {
      if Config? then ty else Unknown
    }

    /** Bool and tristate symbols. */
    predicate Logic() {
      Type() == Boolean || Type() == Tri
    }

    predicate Const() {
      !Config?
    }
  }

  datatype Relation = Equal | Unequal | Less | LessEqual | Greater | GreaterEqual

  datatype Expr =
    | Sym(s: Symbol)
    | Not(e: Expr)
    | Join(op: Junction, left: Expr, right: Expr)
    | Rel(rel: Relation, a: Symbol, b: Symbol)

  const ExprYes := Sym(SymYes)
  const ExprNo := Sym(SymNo)

  /** The constant expression that is the unit of a connective. */
  function UnitExpr(op: Junction): Expr {
    if op == And then ExprYes else ExprNo
  }

  // ---------- Environments ----------

  /** What the C library's number parsing makes of a text. */
  datatype Reading = NotANumber | Signed(v: int) | Unsigned(v: int)

  /** A state of all symbols: their tristate values and their texts.  `numeral` is the library's number
      parser, applied to the type of the symbol whose text it is. */
  datatype Env = Env(tri: Symbol -> Tristate, text: Symbol -> string, numeral: (SymbolType, string) -> Reading)

  function TriText(t: Tristate): string {
    if t == NO then "n" else if t == MOD then "m" else "y"
  }

  ghost predicate ValidEnv(env: Env) {
    && env.tri(SymYes) == YES && env.text(SymYes) == "y"
    && env.tri(SymMod) == MOD && env.text(SymMod) == "m"
    && env.tri(SymNo) == NO && env.text(SymNo) == "n"
    && (forall t: Tristate :: env.numeral(Unknown, TriText(t)) == NotANumber)
    && (forall w :: !env.numeral(Unknown, w).Unsigned?)
    && (forall w :: env.text(Constant(w)) == w)
    && (forall s: Symbol :: s.Logic() ==> env.text(s) == TriText(env.tri(s)))
    && (forall s: Symbol :: s.Type() == Boolean ==> env.tri(s) != MOD)
  }

  /** The sign of a byte-wise string comparison. */
  function StringCompare(s: string, t: string): int {
    if s == [] && t == [] then 0
    else if s == [] then -1
    else if t == [] then 1
    else if s[0] < t[0] then -1
    else if s[0] > t[0] then 1
    else StringCompare(s[1..], t[1..])
  }

  lemma {:induction false} StringCompareEqual(s: string, t: string)
    ensures StringCompare(s, t) == 0 <==> s == t
  {
    if s != [] && t != [] && s[0] == t[0] {
      StringCompareEqual(s[1..], t[1..]);
      assert s == [s[0]] + s[1..] && t == [t[0]] + t[1..];
    }
  }

  function TriCode(w: string): int {
    if w == "n" then 0 else if w == "m" then 1 else if w == "y" then 2 else -1
  }

  function Read(env: Env, s: Symbol): Reading {
    if s.Logic() then Signed(TriCode(env.text(s))) else env.numeral(s.Type(), env.text(s))
  }

  function AsUnsigned(v: int): int {
    v % 0x1_0000_0000_0000_0000
  }

  function Sign(v: int): int {
    if v < 0 then -1 else if v > 0 then 1 else 0
  }

  /** Three-way comparison of two symbols' values: by number when both texts are numbers, else by text. */
  function Compare(env: Env, a: Symbol, b: Symbol): int {
    var s, t := env.text(a), env.text(b);
    if a.Type() == Text && b.Type() == Text then StringCompare(s, t)
    else
      var x, y := Read(env, a), Read(env, b);
      if x == NotANumber || y == NotANumber then StringCompare(s, t)
      else if x.Unsigned? || y.Unsigned? then Sign(AsUnsigned(x.v) - AsUnsigned(y.v))
      else Sign(x.v - y.v)
  }

  predicate Holds(rel: Relation, c: int) {
    match rel
    case Equal => c == 0
    case Unequal => c != 0
    case Less => c < 0
    case LessEqual => c <= 0
    case Greater => c > 0
    case GreaterEqual => c >= 0
  }

  /** The value of an expression in an environment. */
  function Eval(env: Env, e: Expr): Tristate {
    match e
    case Sym(s) => env.tri(s)
    case Not(x) => TriNot(Eval(env, x))
    case Join(op, l, r) => Combine(op, Eval(env, l), Eval(env, r))
    case Rel(rel, a, b) => TriOf(Holds(rel, Compare(env, a, b)))
  }

  /** Same value in every environment. */
  ghost predicate Equiv(x: Expr, y: Expr) {
    forall env | ValidEnv(env) :: Eval(env, x) == Eval(env, y)
  }

  // ---------- Comparisons of bool and tristate symbols with y, m and n ----------

  /** Comparing a bool or tristate symbol with y, m or n for equality is comparing their values. */
  lemma LogicCompare(env: Env, a: Symbol, c: Symbol)
    requires ValidEnv(env) && a.Logic() && c in {SymYes, SymMod, SymNo}
    ensures Compare(env, a, c) == 0 <==> env.tri(a) == env.tri(c)
  {
    assert env.text(c) == TriText(env.tri(c));
    assert Read(env, c) == NotANumber;
    StringCompareEqual(env.text(a), env.text(c));
  }

  /** What a constant stands for when a bool or tristate symbol is compared with it. */
  datatype Denotation = Nothing | Denotes(t: Tristate)

  /** The constants y, m and n denote their values.  Any other constant is read as a number where it is one, and
      0, 1 and 2 are what the texts n, m and y are read as; where it is none the texts are compared. */
  function Denoted(env: Env, c: Symbol): Denotation {
    match c
    case SymYes => Denotes(YES)
    case SymMod => Denotes(MOD)
    case SymNo => Denotes(NO)
    case Config(_, _) => Nothing
    case Constant(w) =>
      match env.numeral(Unknown, w) {
        case Signed(v) => if 0 <= v <= 2 then Denotes(v) else Nothing
        case Unsigned(_) => Nothing
        case NotANumber => if TriCode(w) >= 0 then Denotes(TriCode(w)) else Nothing
      }
  }

  /** A bool or tristate symbol equals a constant if and only if it has the value that the constant denotes. */
  lemma DenotedEquals(env: Env, a: Symbol, c: Symbol)
    requires ValidEnv(env) && a.Logic() && c.Const()
    ensures Compare(env, a, c) == 0 <==> Denoted(env, c) == Denotes(env.tri(a))
  {
    StringCompareEqual(env.text(a), env.text(c));
    assert TriCode(TriText(env.tri(a))) == env.tri(a);
    if !c.Constant? {
      LogicCompare(env, a, c);
    }
  }

  // ---------- Sample environments ----------

  /** Every tristate symbol has the given value, every bool symbol is y unless that value is n, and no text
      is a number. */
  function SampleEnv(t: Tristate): Env {
    var tri := (s: Symbol) =>
      if s == SymYes then YES
      else if s == SymMod then MOD
      else if s.Type() == Tri then t
      else if s.Type() == Boolean && t != NO then YES
      else NO;
    Env(tri,
        (s: Symbol) => if s.Constant? then s.text else TriText(tri(s)),
        (ty, w) => NotANumber)
  }

  lemma SampleEnvValid(t: Tristate)
    ensures ValidEnv(SampleEnv(t))
  {
  }
}
