/** The three-valued lattice of configuration values: n < m < y, with minimum as conjunction,
    maximum as disjunction and reflection about m as negation. */
module Tristates {
  type Tristate = t: int | 0 <= t <= 2

  const NO: Tristate := 0
  const MOD: Tristate := 1
  const YES: Tristate := 2

  /** The two connectives that join operands of an expression. */
  datatype Junction = And | Or {
    /** The operand that changes nothing. */
    function Unit(): Tristate {
      if this == And then YES else NO
    }

    function Dual(): Junction {
      if this == And then Or else And
    }
  }

  function TriAnd(a: Tristate, b: Tristate): Tristate {
    if a < b then a else b
  }

  function TriOr(a: Tristate, b: Tristate): Tristate {
    if a > b then a else b
  }

  function TriNot(a: Tristate): Tristate {
    2 - a
  }

  function Combine(op: Junction, a: Tristate, b: Tristate): Tristate {
    match op
    case And => TriAnd(a, b)
    case Or => TriOr(a, b)
  }

  function TriOf(b: bool): Tristate {
    if b then YES else NO
  }
}
