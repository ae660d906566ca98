/** Coin amounts, and the multiplication of an amount by a ratio. */
module Fractions {
  import opened Wrappers
  import opened Arithmetic

  const AMOUNT_LIMIT: nat := 0x1_0000_0000_0000_0000_0000_0000_0000_0000

  type Amount = n: nat | n < AMOUNT_LIMIT

  function Narrow(x: nat): Option<Amount> {
    if x < AMOUNT_LIMIT then Some(x) else None
  }

  function CheckedMul(x: Amount, y: Amount): Option<Amount> {
    Narrow(x * y)
  }

  function CheckedAdd(x: Amount, y: Amount): Option<Amount> {
    Narrow(x + y)
  }

  function FloorMulDiv(x: nat, parts: nat, total: nat): nat
    requires total > 0
  {
    FloorDiv(x * parts, total)
  }

  /** The part of `x` given by a ratio, rounded down. The shortcut for equal parts changes nothing. */
  function Of(x: nat, parts: nat, total: nat): (r: nat)
    requires total > 0
    ensures r == FloorMulDiv(x, parts, total)
  {
    if parts == total then MulExact(x, total); x else FloorMulDiv(x, parts, total)
  }

  /** Widens, multiplies, divides with a floor, and narrows back. It panics, here it yields nothing, when
      the result does not fit. */
  function SafeMul(x: Amount, parts: Amount, total: Amount): (r: Option<Amount>)
    requires total > 0
    ensures r == Narrow(FloorMulDiv(x, parts, total))
  {
    Narrow(Of(x, parts, total))
  }

  /** `a / b` and `c / d` are the same ratio. */
  ghost predicate SameRatio(a: nat, b: nat, c: nat, d: nat) {
    a * d == c * b
  }

  lemma SameRatioTrans(a: nat, b: nat, c: nat, d: nat, e: nat, f: nat)
    requires SameRatio(a, b, c, d) && SameRatio(c, d, e, f) && d > 0
    ensures SameRatio(a, b, e, f)
  {}

  lemma RatioAtMostTrans(a: nat, b: nat, c: nat, d: nat, e: nat, f: nat)
    requires a * d <= c * b && c * f <= e * d && d > 0
    ensures a * f <= e * b
  {}

  /** `a / b` is below `c / d`. */
  ghost predicate Below(a: nat, b: nat, c: nat, d: nat) {
    a * d < c * b
  }

  lemma SameRatioBelow(a: nat, b: nat, c: nat, d: nat, e: nat, f: nat)
    requires SameRatio(a, b, c, d) && Below(c, d, e, f) && b > 0 && d > 0
    ensures Below(a, b, e, f)
  {}

  lemma BelowSameRatio(a: nat, b: nat, c: nat, d: nat, e: nat, f: nat)
    requires Below(a, b, c, d) && SameRatio(c, d, e, f) && d > 0 && f > 0
    ensures Below(a, b, e, f)
  {}
}
