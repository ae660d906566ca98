/** The greatest common divisor, coprime numbers, and Euclid's lemma. */
module Divisors {
  import opened Arithmetic

  ghost predicate Divides(d: nat, n: nat) {
    exists k: nat :: n == d * k
  }

  function Gcd(a: nat, b: nat): (g: nat)
    decreases b
  {
    if b == 0 then a else Gcd(b, a % b)
  }

  predicate Coprime(a: nat, b: nat) {
    Gcd(a, b) == 1
  }

  lemma Multiple(d: nat, k: nat)
    ensures Divides(d, d * k)
  {}

  lemma Quotient(d: nat, n: nat) returns (k: nat)
    requires Divides(d, n)
    ensures n == d * k
  {
    k :| n == d * k;
  }

  lemma DividesSum(d: nat, x: nat, y: nat, k: nat)
    requires Divides(d, x) && Divides(d, y)
    ensures Divides(d, x * k + y)
  {
    hide Divides;
    var i := Quotient(d, x);
    var j := Quotient(d, y);
    Assoc(d, i, k);
    Distribute(d, i * k, j);
    Multiple(d, i * k + j);
  }

  lemma NonNegativeFactor(a: nat, m: int, c: nat)
    requires c == a * m
    ensures Divides(a, c)
  {
    if m >= 0 {
      Multiple(a, m);
    } else {
      assert a * m <= 0;
      Multiple(a, 0);
    }
  }

  lemma DividesDifference(d: nat, x: nat, y: nat, k: nat)
    requires Divides(d, x) && Divides(d, x * k + y)
    ensures Divides(d, y)
  {
    hide Divides;
    var i := Quotient(d, x);
    var j := Quotient(d, x * k + y);
    Assoc(d, i, k);
    Distribute(d, j, i * k);
    NonNegativeFactor(d, j - i * k, y);
  }

  lemma DivMod(a: nat, b: nat)
    requires b > 0
    ensures b * (a / b) + a % b == a
  {}

  lemma {:induction false} GcdDivides(a: nat, b: nat)
    ensures Divides(Gcd(a, b), a) && Divides(Gcd(a, b), b)
    ensures a > 0 || b > 0 ==> Gcd(a, b) > 0
    decreases b
  {
    hide Divides;
    if b == 0 {
      Multiple(a, 1);
      Multiple(a, 0);
    } else {
      GcdDivides(b, a % b);
      DividesSum(Gcd(a, b), b, a % b, a / b);
      DivMod(a, b);
    }
  }

  lemma {:induction false} GcdGreatest(a: nat, b: nat, d: nat)
    requires Divides(d, a) && Divides(d, b)
    ensures Divides(d, Gcd(a, b))
    decreases b
  {
    hide Divides;
    if b != 0 {
      DivMod(a, b);
      DividesDifference(d, b, a % b, a / b);
      GcdGreatest(b, a % b, d);
    }
  }

  /** Bezout's identity. */
  lemma {:induction false} Bezout(a: nat, b: nat) returns (x: int, y: int)
    ensures a * x + b * y == Gcd(a, b)
    decreases b
  {
    if b == 0 {
      x, y := 1, 0;
    } else {
      var u, v := Bezout(b, a % b);
      var q, r := a / b, a % b;
      x, y := v, u - q * v;
      DivMod(a, b);
      calc {
        a * x + b * y;
        (b * q + r) * v + b * (u - q * v);
        { Distribute(v, b * q, r); Distribute(b, u, q * v); }
        (b * q) * v + r * v + b * u - b * (q * v);
        { Assoc(b, q, v); }
        b * u + r * v;
      }
    }
  }

  /** Euclid's lemma. */
  lemma EuclidLemma(a: nat, b: nat, c: nat)
    requires Coprime(a, b) && Divides(a, b * c)
    ensures Divides(a, c)
  {
    hide Divides, Gcd;
    var x, y := Bezout(a, b);
    var k := Quotient(a, b * c);
    calc {
      c;
      1 * c;
      (a * x + b * y) * c;
      { Distribute(c, a * x, b * y); }
      (a * x) * c + (b * y) * c;
      { Assoc(a, x, c); Assoc(b, y, c); }
      a * (x * c) + (b * c) * y;
      { Assoc(a, k, y); }
      a * (x * c) + a * (k * y);
      { Distribute(a, x * c, k * y); }
      a * (x * c + k * y);
    }
    NonNegativeFactor(a, x * c + k * y, c);
  }

  lemma DividesAtMost(a: nat, b: nat)
    requires Divides(a, b) && b > 0
    ensures 0 < a <= b
  {}

  lemma DividesAntisym(a: nat, b: nat)
    requires Divides(a, b) && Divides(b, a)
    ensures a == b
  {
    if a > 0 {
      DividesAtMost(b, a);
      DividesAtMost(a, b);
    } else {
      var k := Quotient(a, b);
    }
  }

  lemma {:induction false} GcdSymmetric(a: nat, b: nat)
    ensures Gcd(a, b) == Gcd(b, a)
  {
    GcdDivides(a, b);
    GcdDivides(b, a);
    GcdGreatest(a, b, Gcd(b, a));
    GcdGreatest(b, a, Gcd(a, b));
    DividesAntisym(Gcd(a, b), Gcd(b, a));
  }

  /** Equal ratios of coprime numbers are equal term by term. */
  lemma CoprimeRatioUnique(a: nat, b: nat, c: nat, d: nat)
    requires a > 0 && b > 0 && c > 0 && d > 0
    requires Coprime(a, b) && Coprime(c, d) && a * d == b * c
    ensures a == c && b == d
  {
    Multiple(a, d);
    EuclidLemma(a, b, c);
    Multiple(c, b);
    assert c * b == d * a;
    EuclidLemma(c, d, a);
    DividesAntisym(a, c);
    assert b * a == d * a;
    MulCancelEqual(b, d, a);
  }

  lemma MultipleOf(g: nat, h: nat, i: nat)
    requires Divides(h, i)
    ensures Divides(g * h, g * i)
  {
    var m := Quotient(h, i);
    Assoc(g, h, m);
    Multiple(g * h, m);
  }

  /** Dividing by the greatest common divisor leaves coprime numbers in the same ratio. */
  lemma ReducedCoprime(a: nat, b: nat) returns (i: nat, j: nat)
    requires a > 0 && b > 0
    ensures var g := Gcd(a, b); g > 0 && i == a / g && j == b / g && a == g * i && b == g * j
    ensures i > 0 && j > 0 && Coprime(i, j)
  {
    hide Divides, Gcd;
    var g := Gcd(a, b);
    GcdDivides(a, b);
    i := Quotient(g, a);
    j := Quotient(g, b);
    MulExact(i, g);
    MulExact(j, g);
    var h := Gcd(i, j);
    GcdDivides(i, j);
    MultipleOf(g, h, i);
    MultipleOf(g, h, j);
    GcdGreatest(a, b, g * h);
    DividesAtMost(g * h, g);
    assert h * g <= 1 * g;
    MulCancel(h, 1, g);
  }

  /** A common divisor divides the greatest one. */
  lemma CommonDivisor(a: nat, b: nat, g: nat) returns (k: nat)
    requires a > 0 && b > 0 && Divides(g, a) && Divides(g, b)
    ensures k > 0 && Gcd(a, b) == g * k
  {
    hide Divides, Gcd;
    GcdDivides(a, b);
    GcdGreatest(a, b, g);
    k := Quotient(g, Gcd(a, b));
  }

  /** Numbers no common divisor of which exceeds 1 are coprime. */
  lemma CoprimeIfNoCommon(a: nat, b: nat)
    requires a > 0 && b > 0 && forall d :: Divides(d, a) && Divides(d, b) ==> d <= 1
    ensures Coprime(a, b)
  {
    GcdDivides(a, b);
  }

  lemma CommonOfCoprime(a: nat, b: nat, d: nat)
    requires Coprime(a, b) && Divides(d, a) && Divides(d, b)
    ensures d <= 1
  {
    GcdGreatest(a, b, d);
    DividesAtMost(d, 1);
  }

  lemma DividesTrans(d: nat, a: nat, b: nat)
    requires Divides(d, a) && Divides(a, b)
    ensures Divides(d, b)
  {
    hide Divides;
    var i := Quotient(d, a);
    var j := Quotient(a, b);
    Assoc(d, i, j);
    Multiple(d, i * j);
  }

  /** What divides coprime numbers is coprime. */
  lemma CoprimeParts(a: nat, b: nat, x: nat, y: nat)
    requires x > 0 && y > 0 && Coprime(a, b) && Divides(x, a) && Divides(y, b)
    ensures Coprime(x, y)
  {
    hide Divides, Gcd;
    forall d | Divides(d, x) && Divides(d, y) ensures d <= 1 {
      DividesTrans(d, x, a);
      DividesTrans(d, y, b);
      CommonOfCoprime(a, b, d);
    }
    CoprimeIfNoCommon(x, y);
  }

  lemma CoprimePartOf(d: nat, x: nat, z: nat)
    requires d > 0 && x > 0 && Divides(d, z) && Coprime(x, z)
    ensures Coprime(d, x)
  {
    hide Divides, Gcd;
    forall e | Divides(e, d) && Divides(e, x) ensures e <= 1 {
      DividesTrans(e, d, z);
      CommonOfCoprime(x, z, e);
    }
    CoprimeIfNoCommon(d, x);
  }

  /** A product of two numbers coprime to `z` is coprime to it. */
  lemma CoprimeProduct(x: nat, y: nat, z: nat)
    requires x > 0 && y > 0 && z > 0 && Coprime(x, z) && Coprime(y, z)
    ensures x * y > 0 && Coprime(x * y, z)
  {
    hide Divides, Gcd;
    MulStrict(0, x, y);
    forall d | Divides(d, x * y) && Divides(d, z) ensures d <= 1 {
      DividesAtMost(d, z);
      CoprimePartOf(d, x, z);
      EuclidLemma(d, x, y);
      CommonOfCoprime(y, z, d);
    }
    CoprimeIfNoCommon(x * y, z);
  }

  lemma CoprimeToOne(k: nat)
    requires k > 0
    ensures Coprime(1, k) && Coprime(k, 1)
  {
    GcdDivides(1, k);
    GcdDivides(k, 1);
    DividesAtMost(Gcd(1, k), 1);
    DividesAtMost(Gcd(k, 1), 1);
  }

  lemma OddCoprime(k: nat)
    requires k % 2 == 1
    ensures Coprime(2, k) && Coprime(k, 2)
  {
    hide Gcd;
    GcdDivides(k, 2);
    DividesAtMost(Gcd(k, 2), 2);
    if Gcd(k, 2) == 2 {
      var m := Quotient(2, k);
      assert false;
    }
    GcdSymmetric(k, 2);
  }
}
