/** Facts about products and floored quotients of natural numbers. */
module Arithmetic {

  lemma Assoc(a: int, b: int, c: int)
    ensures (a * b) * c == a * (b * c) == (a * c) * b
  {}

  lemma Distribute(a: int, b: int, c: int)
    ensures a * (b + c) == a * b + a * c == (b + c) * a
    ensures a * (b - c) == a * b - a * c
  {}

  lemma MulMono(a: nat, b: nat, c: nat)
    requires a <= b
    ensures a * c <= b * c
  {}

  lemma MulStrict(a: nat, b: nat, c: nat)
    requires a < b && c > 0
    ensures a * c < b * c
  {}

  lemma MulCancel(a: nat, b: nat, c: nat)
    requires a * c <= b * c && c > 0
    ensures a <= b
  {}

  lemma MulCancelStrict(a: nat, b: nat, c: nat)
    requires a * c < b * c
    ensures a < b
  {}

  lemma MulCancelEqual(a: nat, b: nat, c: nat)
    requires a * c == b * c && c > 0
    ensures a == b
  {}

  lemma QuotientNonNegative(x: nat, y: nat)
    requires y > 0
    ensures x / y >= 0
  {}

  /** The floored quotient, itself a natural number. */
  function FloorDiv(x: nat, y: nat): nat
    requires y > 0
  {
    QuotientNonNegative(x, y);
    x / y
  }

  /** The floored quotient `q` is the largest number whose product with `y` does not exceed `x`. */
  lemma FloorBounds(x: nat, y: nat) returns (q: nat)
    requires y > 0
    ensures q == x / y && q * y <= x < (q + 1) * y
  {
    q := x / y;
    assert x == q * y + x % y;
  }

  lemma FloorIs(x: nat, y: nat, q: nat)
    requires y > 0 && q * y <= x < (q + 1) * y
    ensures x / y == q
  {
    var f := FloorBounds(x, y);
    MulCancelStrict(q, f + 1, y);
    MulCancelStrict(f, q + 1, y);
  }

  lemma FloorAtLeast(x: nat, y: nat, q: nat)
    requires y > 0 && q * y <= x
    ensures q <= x / y
  {
    var f := FloorBounds(x, y);
    MulCancelStrict(q, f + 1, y);
  }

  lemma FloorBelow(x: nat, y: nat, q: nat)
    requires y > 0 && x < q * y
    ensures x / y < q
  {}

  lemma FloorReaches(x: nat, y: nat, q: nat)
    requires y > 0
    ensures q <= x / y <==> q * y <= x
  {
    if q * y <= x {
      FloorAtLeast(x, y, q);
    } else {
      FloorBelow(x, y, q);
    }
  }

  lemma FloorMono(x: nat, x': nat, y: nat)
    requires y > 0 && x <= x'
    ensures x / y <= x' / y
  {
    var f := FloorBounds(x, y);
    FloorAtLeast(x', y, f);
  }

  lemma MulExact(q: nat, y: nat)
    requires y > 0
    ensures (q * y) / y == q
  {
    assert (q + 1) * y == q * y + y;
    FloorIs(q * y, y, q);
  }
}
