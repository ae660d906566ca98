/** Prices: ratios of 128-bit amounts kept in a canonical form. */
module Price {
  import opened Wrappers
  import opened Arithmetic
  import opened Divisors
  import opened Fractions
  import opened Bits

  /** How much of the quote currency, `amountQuote`, is given for `amount`. */
  datatype Price = Price(amount: Amount, amountQuote: Amount)

  ghost predicate Canonical(p: Price) {
    p.amount > 0 && p.amountQuote > 0 && Coprime(p.amount, p.amountQuote)
  }

  function IntoCoprimeWith(a: Amount, b: Amount): (r: (Amount, Amount))
    requires a > 0 && b > 0
    ensures r.0 > 0 && r.1 > 0 && Coprime(r.0, r.1)
    ensures a == Gcd(a, b) * r.0 && b == Gcd(a, b) * r.1
  {
    var g := Gcd(a, b);
    assert g > 0 && 0 < a / g <= a && 0 < b / g <= b && Coprime(a / g, b / g) &&
      a == g * (a / g) && b == g * (b / g) by {
      var i, j := ReducedCoprime(a, b);
      MulMono(1, g, i);
      MulMono(1, g, j);
    }
    (a / g, b / g)
  }

  function New(amount: Amount, amountQuote: Amount): (p: Price)
    requires amount > 0 && amountQuote > 0
    ensures Canonical(p) && SameRatio(p.amountQuote, p.amount, amountQuote, amount)
  {
    var (a, q) := IntoCoprimeWith(amount, amountQuote);
    assert SameRatio(q, a, amountQuote, amount) by {
      var g := Gcd(amount, amountQuote);
      assert q * (g * a) == (g * q) * a;
    }
    Price(a, q)
  }

  /** Prices are equal field by field exactly when they are the same ratio. */
  lemma EqualIffSameRatio(p: Price, q: Price)
    requires Canonical(p) && Canonical(q)
    ensures p == q <==> SameRatio(p.amountQuote, p.amount, q.amountQuote, q.amount)
  {
    if SameRatio(p.amountQuote, p.amount, q.amountQuote, q.amount) {
      CoprimeRatioUnique(p.amount, p.amountQuote, q.amount, q.amountQuote);
    }
  }

  /** Whatever amounts a price is built from, only their ratio matters. */
  lemma NewEqualIff(a: Amount, q: Amount, a': Amount, q': Amount)
    requires a > 0 && q > 0 && a' > 0 && q' > 0
    ensures New(a, q) == New(a', q') <==> SameRatio(q, a, q', a')
  {
    var p, p' := New(a, q), New(a', q');
    EqualIffSameRatio(p, p');
    if SameRatio(q, a, q', a') {
      SameRatioTrans(p.amountQuote, p.amount, q, a, q', a');
      SameRatioTrans(p.amountQuote, p.amount, q', a', p'.amountQuote, p'.amount);
    }
    if p == p' {
      SameRatioTrans(q, a, p.amountQuote, p.amount, q', a');
    }
  }

  // ----- Order -----

  datatype Ordering = Less | Equal | Greater

  function Compare(x: nat, y: nat): Ordering {
    if x < y then Less else if x == y then Equal else Greater
  }

  function Cmp(p: Price, q: Price): Ordering {
    Compare(p.amountQuote * q.amount, p.amount * q.amountQuote)
  }

  function Inv(p: Price): Price {
    Price(p.amountQuote, p.amount)
  }

  function Flipped(o: Ordering): Ordering {
    match o
    case Less => Greater
    case Equal => Equal
    case Greater => Less
  }

  ghost predicate AtMost(p: Price, q: Price) {
    Cmp(p, q) != Greater
  }

  lemma AtMostTrans(p: Price, q: Price, r: Price)
    requires Canonical(p) && Canonical(q) && Canonical(r)
    requires AtMost(p, q) && AtMost(q, r)
    ensures AtMost(p, r)
  {
    assert p.amount * q.amountQuote == q.amountQuote * p.amount && q.amount * r.amountQuote == r.amountQuote * q.amount;
    assert p.amount * r.amountQuote == r.amountQuote * p.amount;
    RatioAtMostTrans(p.amountQuote, p.amount, q.amountQuote, q.amount, r.amountQuote, r.amount);
  }

  /** The comparison is a total order consistent with the equality of prices; the inverse is an involution
      on prices that reverses it. */
  lemma CmpTotalOrder(p: Price, q: Price)
    requires Canonical(p) && Canonical(q)
    ensures Cmp(p, q) == Equal <==> p == q
    ensures Cmp(q, p) == Flipped(Cmp(p, q))
    ensures AtMost(p, q) && AtMost(q, p) ==> p == q
    ensures forall r :: Canonical(r) && AtMost(p, q) && AtMost(q, r) ==> AtMost(p, r)
    ensures Canonical(Inv(p)) && Inv(Inv(p)) == p && Cmp(Inv(p), Inv(q)) == Flipped(Cmp(p, q))
  {
    EqualIffSameRatio(p, q);
    assert p.amountQuote * q.amount == q.amount * p.amountQuote && p.amount * q.amountQuote == q.amountQuote * p.amount;
    GcdSymmetric(p.amount, p.amountQuote);
    forall r | Canonical(r) && AtMost(p, q) && AtMost(q, r) ensures AtMost(p, r) {
      AtMostTrans(p, q, r);
    }
  }

  // ----- Conversion -----

  /** The amount in the quote currency, if it does not overflow. */
  function Total(of: Amount, price: Price): Option<Amount>
    requires price.amount > 0
  {
    SafeMul(price.amountQuote, of, price.amount)
  }

  lemma TotalFloor(of: Amount, price: Price)
    requires price.amount > 0
    ensures Total(of, price) == Narrow(FloorMulDiv(of, price.amountQuote, price.amount))
  {
    assert price.amountQuote * of == of * price.amountQuote;
  }

  lemma FloorMulDivMono(x: nat, x': nat, a: nat, q: nat, a': nat, q': nat)
    requires a > 0 && a' > 0 && x <= x' && q * a' <= q' * a
    ensures FloorMulDiv(x, q, a) <= FloorMulDiv(x', q', a')
  {
    var f := FloorBounds(x * q, a);
    // f / x <= q / a <= q' / a'
    assert f * a <= q * x;
    RatioAtMostTrans(f, x, q, a, q', a');
    MulMono(x, x', q');
    FloorAtLeast(x' * q', a', f);
  }

  /** A larger amount at a larger price, in the order of the prices, totals to no less. */
  lemma TotalMonotone(of: Amount, of': Amount, p: Price, p': Price)
    requires Canonical(p) && Canonical(p') && of <= of' && AtMost(p, p')
    ensures Total(of', p').Some? ==> Total(of, p).Some? && Total(of, p).value <= Total(of', p').value
  {
    TotalFloor(of, p);
    TotalFloor(of', p');
    hide Total, FloorMulDiv;
    assert p.amount * p'.amountQuote == p'.amountQuote * p.amount;
    FloorMulDivMono(of, of', p.amount, p.amountQuote, p'.amount, p'.amountQuote);
  }

  function CeilDiv(x: nat, y: nat): nat
    requires y > 0
  {
    FloorDiv(x + y - 1, y)
  }

  lemma NotFarBelow(x: nat, q: nat, ya: nat, a: nat, z: nat, c: nat)
    requires q > 0 && x * q < ya + a && ya < (z + 1) * q && a + q - 1 < (c + 1) * q
    ensures x <= z + c
  {
    Distribute(q, z, 1);
    Distribute(q, c, 1);
    Distribute(q, z, c + 1);
    // x * q < ya + a < z * q + q + a <= (z + c + 1) * q
    MulCancelStrict(x, z + (c + 1), q);
  }

  lemma ThereAndBack(x: nat, a: nat, q: nat)
    requires a > 0 && q > 0
    ensures var z := FloorMulDiv(FloorMulDiv(x, q, a), a, q); z <= x <= z + CeilDiv(a, q)
  {
    var y := FloorBounds(x * q, a);
    var z := FloorBounds(y * a, q);
    var c := FloorBounds(a + q - 1, q);
    MulCancel(z, x, q);
    NotFarBelow(x, q, y * a, a, z, c) by {
      Distribute(a, y, 1);
    }
  }

  /** Converting there and back never gains, and loses no more than the amount one unit of the quote
      currency stands for, rounded up. */
  lemma TotalThereAndBack(x: Amount, p: Price)
    requires Canonical(p) && Total(x, p).Some?
    ensures var back := Total(Total(x, p).value, Inv(p));
      back.Some? && back.value <= x <= back.value + CeilDiv(p.amount, p.amountQuote)
  {
    TotalFloor(x, p);
    TotalFloor(Total(x, p).value, Inv(p));
    ThereAndBack(x, p.amount, p.amountQuote);
  }

  // ----- Multiplication -----

  datatype Terms = Terms(amount: nat, quote: nat)

  /** The exact product of a price and the ratio `parts / total`, cancelled crosswise. */
  ghost function ExactProduct(p: Price, parts: Amount, total: Amount): Terms
    requires Canonical(p) && parts > 0 && total > 0
  {
    var (a, n) := IntoCoprimeWith(p.amount, parts);
    var (q, d) := IntoCoprimeWith(p.amountQuote, total);
    Terms((a as nat) * d, (q as nat) * n)
  }

  lemma CrossCancelled(a: nat, n: nat, q: nat, d: nat, g: nat, h: nat)
    requires a > 0 && n > 0 && q > 0 && d > 0
    ensures a * d > 0 && q * n > 0
    ensures SameRatio(q * n, a * d, (h * q) * (g * n), (g * a) * (h * d))
  {}

  function ExtraBits(doubleAmount: nat, doubleQuote: nat): nat {
    var a, q := BitsAboveMax(doubleAmount), BitsAboveMax(doubleQuote);
    if a < q then q else a
  }

  lemma ExactProductRatio(p: Price, parts: Amount, total: Amount)
    requires Canonical(p) && parts > 0 && total > 0
    ensures var e := ExactProduct(p, parts, total);
      && e.amount > 0 && e.quote > 0 && ExtraBits(e.amount, e.quote) <= AMOUNT_BITS
      && SameRatio(e.quote, e.amount, p.amountQuote * parts, p.amount * total)
  {
    var (a, n) := IntoCoprimeWith(p.amount, parts);
    var (q, d) := IntoCoprimeWith(p.amountQuote, total);
    var ad := ProductOfAmounts(a, d);
    var qn := ProductOfAmounts(q, n);
    CrossCancelled(a, n, q, d, Gcd(p.amount, parts), Gcd(p.amountQuote, total));
  }

  lemma FloorFacts(x: nat, y: nat)
    requires y > 0
    ensures x / y == 0 <==> x < y
  {}

  /** Trims the low bits. It panics, here it yields nothing, when no other bits are left. */
  function TrimDown(x: nat, bits: nat): (r: Option<Amount>)
    requires BitsAboveMax(x) <= bits
    ensures r.Some? ==> r.value == Shifted(x, bits) > 0
    ensures r.None? <==> x < Pow2(bits)
  {
    TrimmedFits(x, bits);
    FloorFacts(x, Pow2(bits));
    var trimmed: Amount := Shifted(x, bits);
    if trimmed > 0 then Some(trimmed) else None
  }

  /** The product of a price and a ratio, with the low bits trimmed when it overflows. */
  function LossyMul(p: Price, parts: Amount, total: Amount): Option<Price>
    requires Canonical(p) && parts > 0 && total > 0
  {
    var (a, n) := IntoCoprimeWith(p.amount, parts);
    var (q, d) := IntoCoprimeWith(p.amountQuote, total);
    var doubleAmount := (a as nat) * d;
    var doubleQuote := (q as nat) * n;
    var extra := ExtraBits(doubleAmount, doubleQuote);
    var amount := TrimDown(doubleAmount, extra);
    var quote := TrimDown(doubleQuote, extra);
    if amount.Some? && quote.Some? then Some(New(amount.value, quote.value)) else None
  }

  /** `e.quote / e.amount` trimmed to `t.quote / t.amount`: either nothing is lost, or each is below the
      other but for one unit, and at least one of the terms still takes all the bits of an amount. */
  ghost predicate TrimmedTo(e: Terms, t: Terms) {
    || t == e
    || (Below(t.quote, t.amount + 1, e.quote, e.amount) && Below(e.quote, e.amount, t.quote + 1, t.amount) &&
        (AMOUNT_LIMIT / 2 <= t.amount || AMOUNT_LIMIT / 2 <= t.quote))
  }

  lemma TrimOne(x: nat, y: nat, w: nat)
    requires w > 0 && x > 0 && y > 0
    ensures (x / w) * y < x * (y / w + 1)
  {
    var f := FloorBounds(x, w);
    var h := FloorBounds(y, w);
    // f * w <= x and y < (h + 1) * w
    MulMono(f * w, x, h + 1);
    Assoc(f, w, h + 1);
    if f > 0 {
      MulStrict(y, (h + 1) * w, f);
      assert f * y < f * ((h + 1) * w);
      assert (f * w) * (h + 1) == f * ((h + 1) * w);
    } else {
      MulStrict(0, x, h + 1);
    }
  }

  ghost function Trimmed(e: Terms, extra: nat): Terms {
    Terms(Shifted(e.amount, extra), Shifted(e.quote, extra))
  }

  lemma TrimmedBounds(e: Terms)
    requires e.amount > 0 && e.quote > 0
    ensures var t := Trimmed(e, ExtraBits(e.amount, e.quote));
      && TrimmedTo(e, t) && t.amount < AMOUNT_LIMIT && t.quote < AMOUNT_LIMIT
      && (ExtraBits(e.amount, e.quote) == 0 ==> t == e)
  {
    var extra := ExtraBits(e.amount, e.quote);
    var t := Trimmed(e, extra);
    TrimmedFits(e.amount, extra);
    TrimmedFits(e.quote, extra);
    if extra > 0 {
      TrimOne(e.quote, e.amount, Pow2(extra));
      TrimOne(e.amount, e.quote, Pow2(extra));
      assert t.amount * e.quote == e.quote * t.amount && e.amount * (t.quote + 1) == (t.quote + 1) * e.amount;
    }
  }

  /** The product with a ratio is exact when nothing is trimmed, and bounded from both sides otherwise. It
      fails only if the smaller term would be trimmed away, never because a term does not fit. */
  lemma LossyMulTrimmed(p: Price, parts: Amount, total: Amount) returns (e: Terms, t: Terms)
    requires Canonical(p) && parts > 0 && total > 0
    ensures e == ExactProduct(p, parts, total) && t == Trimmed(e, ExtraBits(e.amount, e.quote))
    ensures SameRatio(e.quote, e.amount, p.amountQuote * parts, p.amount * total) && e.amount > 0 && e.quote > 0
    ensures var r, extra := LossyMul(p, parts, total), ExtraBits(e.amount, e.quote);
      && extra <= AMOUNT_BITS
      && (r.None? <==> e.amount < Pow2(extra) || e.quote < Pow2(extra))
      && (r.Some? && extra == 0 ==> t == e)
      && (r.Some? ==>
           && 0 < t.amount < AMOUNT_LIMIT && 0 < t.quote < AMOUNT_LIMIT
           && r.value == New(t.amount, t.quote) && TrimmedTo(e, t))
  {
    e := ExactProduct(p, parts, total);
    ExactProductRatio(p, parts, total);
    t := Trimmed(e, ExtraBits(e.amount, e.quote));
    TrimmedBounds(e);
  }

  /** With the greatest common divisor cancelled what is left is no more than with any other. */
  lemma CancelledMost(x: nat, y: nat, i: nat, j: nat, g: nat, a: nat, n: nat)
    requires x > 0 && y > 0 && x == Gcd(x, y) * i && y == Gcd(x, y) * j && x == g * a && y == g * n
    ensures i <= a && j <= n
  {
    hide Divides, Gcd;
    Multiple(g, a);
    Multiple(g, n);
    var k := CommonDivisor(x, y, g);
    Assoc(g, k, i);
    Assoc(g, k, j);
    MulMono(1, k, i);
    MulMono(1, k, j);
    assert g > 0;
    assert a * g == (k * i) * g && n * g == (k * j) * g;
    MulCancelEqual(a, k * i, g);
    MulCancelEqual(n, k * j, g);
  }

  lemma NothingTrimmed(e: Terms)
    requires 0 < e.amount < AMOUNT_LIMIT && 0 < e.quote < AMOUNT_LIMIT
    ensures ExtraBits(e.amount, e.quote) == 0 && Trimmed(e, 0) == e && Pow2(0) == 1
  {
    FloorIs(e.amount, AMOUNT_LIMIT, 0);
    FloorIs(e.quote, AMOUNT_LIMIT, 0);
    FloorIs(e.amount, 1, e.amount);
    FloorIs(e.quote, 1, e.quote);
  }

  lemma UntrimmedProduct(p: Price, parts: Amount, total: Amount)
    requires Canonical(p) && parts > 0 && total > 0
    requires ExactProduct(p, parts, total).amount < AMOUNT_LIMIT && ExactProduct(p, parts, total).quote < AMOUNT_LIMIT
    ensures var r := LossyMul(p, parts, total);
      && r.Some? && Canonical(r.value)
      && SameRatio(r.value.amountQuote, r.value.amount, p.amountQuote * parts, p.amount * total)
  {
    var e, t := LossyMulTrimmed(p, parts, total);
    NothingTrimmed(e);
    hide LossyMul, ExactProduct, ExtraBits, Trimmed;
    var r := LossyMul(p, parts, total).value;
    SameRatioTrans(r.amountQuote, r.amount, e.quote, e.amount, p.amountQuote * parts, p.amount * total);
  }

  lemma ProductMono(x: nat, x': nat, y: nat, y': nat)
    requires x <= x' && y <= y'
    ensures x * y <= x' * y'
  {
    MulMono(x, x', y);
    MulMono(y, y', x');
  }

  /** The terms before trimming are the least there are with common divisors cancelled crosswise. */
  lemma ExactProductLeast(p: Price, parts: Amount, total: Amount, g: nat, a: nat, n: nat, h: nat, q: nat, d: nat)
    requires Canonical(p) && parts > 0 && total > 0
    requires p.amount == g * a && parts == g * n && p.amountQuote == h * q && total == h * d
    ensures var e := ExactProduct(p, parts, total); e.amount <= a * d && e.quote <= q * n
  {
    var (a', n') := IntoCoprimeWith(p.amount, parts);
    var (q', d') := IntoCoprimeWith(p.amountQuote, total);
    CancelledMost(p.amount, parts, a', n', g, a, n);
    CancelledMost(p.amountQuote, total, q', d', h, q, d);
    ProductMono(a', a, d', d);
    ProductMono(q', q, n', n);
  }

  /** The product with a ratio is exact whenever it would be with any common divisor `g` of the amount and the
      parts, and any `h` of the quote amount and the total, cancelled before multiplying. */
  lemma LossyMulExact(p: Price, parts: Amount, total: Amount, g: nat, a: nat, n: nat, h: nat, q: nat, d: nat)
    requires Canonical(p) && parts > 0 && total > 0
    requires p.amount == g * a && parts == g * n && p.amountQuote == h * q && total == h * d
    requires a * d < AMOUNT_LIMIT && q * n < AMOUNT_LIMIT
    ensures var r := LossyMul(p, parts, total);
      && r.Some? && Canonical(r.value)
      && SameRatio(r.value.amountQuote, r.value.amount, p.amountQuote * parts, p.amount * total)
  {
    ExactProductLeast(p, parts, total, g, a, n, h, q, d);
    UntrimmedProduct(p, parts, total);
  }

  lemma ReducedPairCoprime(a: nat, q: nat, n: nat, d: nat)
    requires a > 0 && q > 0 && n > 0 && d > 0
    requires Coprime(a, q) && Coprime(a, n) && Coprime(d, q) && Coprime(d, n)
    ensures Coprime(a * d, q * n)
  {
    hide Divides, Gcd;
    CoprimeProduct(a, d, q);
    CoprimeProduct(a, d, n);
    GcdSymmetric(a * d, q);
    GcdSymmetric(a * d, n);
    CoprimeProduct(q, n, a * d);
    GcdSymmetric(q * n, a * d);
  }

  /** The terms cancelled crosswise are coprime if the ratio is in its lowest terms. */
  lemma ExactProductCoprime(p: Price, parts: Amount, total: Amount)
    requires Canonical(p) && parts > 0 && total > 0 && Coprime(parts, total)
    ensures Coprime(ExactProduct(p, parts, total).amount, ExactProduct(p, parts, total).quote)
  {
    hide Divides, Gcd;
    var (a, n) := IntoCoprimeWith(p.amount, parts);
    var (q, d) := IntoCoprimeWith(p.amountQuote, total);
    var g, h := Gcd(p.amount, parts), Gcd(p.amountQuote, total);
    Multiple(a, g);
    Multiple(n, g);
    Multiple(q, h);
    Multiple(d, h);
    CoprimeParts(p.amount, p.amountQuote, a, q);
    CoprimeParts(parts, total, n, d);
    GcdSymmetric(n, d);
    GcdSymmetric(q, d);
    ReducedPairCoprime(a, q, n, d);
  }

  /** The product with a ratio in its lowest terms is exact whenever there is a price that is the exact one. */
  lemma LossyMulRepresentable(p: Price, parts: Amount, total: Amount, r: Price)
    requires Canonical(p) && parts > 0 && total > 0 && Coprime(parts, total)
    requires Canonical(r) && SameRatio(r.amountQuote, r.amount, p.amountQuote * parts, p.amount * total)
    ensures LossyMul(p, parts, total) == Some(r)
  {
    hide Gcd, LossyMul, ExactProduct;
    var e := ExactProduct(p, parts, total);
    ExactProductRatio(p, parts, total);
    ExactProductCoprime(p, parts, total);
    MulStrict(0, p.amount, total);
    SameRatioTrans(e.quote, e.amount, p.amountQuote * parts, p.amount * total, r.amountQuote, r.amount);
    CoprimeRatioUnique(e.amount, e.quote, r.amount, r.amountQuote);
    UntrimmedProduct(p, parts, total);
    var m := LossyMul(p, parts, total).value;
    SameRatioTrans(m.amountQuote, m.amount, p.amountQuote * parts, p.amount * total, r.amountQuote, r.amount);
    EqualIffSameRatio(m, r);
  }

  function Mul(p: Price, q: Price): Option<Price>
    requires Canonical(p) && Canonical(q)
  {
    LossyMul(New(p.amount, q.amountQuote), p.amountQuote, q.amount)
  }

  lemma ScaledRatio(a: nat, b: nat, c: nat, d: nat, m: nat, n: nat)
    requires SameRatio(a, b, c, d)
    ensures SameRatio(a * m, b * n, c * m, d * n)
  {}

  lemma MulTerms(p: Price, q: Price) returns (e: Terms)
    requires Canonical(p) && Canonical(q)
    ensures e == ExactProduct(New(p.amount, q.amountQuote), p.amountQuote, q.amount)
    ensures e.amount > 0 && e.quote > 0 && p.amount * q.amount > 0
    ensures SameRatio(e.quote, e.amount, p.amountQuote * q.amountQuote, p.amount * q.amount)
  {
    hide ExactProduct;
    var n := New(p.amount, q.amountQuote);
    e := ExactProduct(n, p.amountQuote, q.amount);
    ExactProductRatio(n, p.amountQuote, q.amount);
    ScaledRatio(n.amountQuote, n.amount, q.amountQuote, p.amount, p.amountQuote, q.amount);
    MulStrict(0, n.amount, q.amount);
    MulStrict(0, p.amount, q.amount);
    var pq, pa := p.amountQuote * q.amountQuote, p.amount * q.amount;
    assert q.amountQuote * p.amountQuote == pq;
    SameRatioTrans(e.quote, e.amount, n.amountQuote * p.amountQuote, n.amount * q.amount, pq, pa);
  }

  lemma TrimmedBelow(e: Terms, t: Terms, quote: nat, amount: nat)
    requires TrimmedTo(e, t) && t != e && e.amount > 0 && e.quote > 0 && amount > 0
    requires SameRatio(e.quote, e.amount, quote, amount)
    ensures Below(t.quote, t.amount + 1, quote, amount) && Below(quote, amount, t.quote + 1, t.amount)
  {
    BelowSameRatio(t.quote, t.amount + 1, e.quote, e.amount, quote, amount);
    SameRatioBelow(quote, amount, e.quote, e.amount, t.quote + 1, t.amount);
  }

  /** The product of two prices is their exact product when nothing is trimmed, and otherwise the exact
      product lies above it with one unit more of the amount, and below it with one unit more of the quote. */
  lemma MulBounds(p: Price, q: Price) returns (e: Terms, t: Terms)
    requires Canonical(p) && Canonical(q)
    ensures e == ExactProduct(New(p.amount, q.amountQuote), p.amountQuote, q.amount)
    ensures t == Trimmed(e, ExtraBits(e.amount, e.quote))
    ensures SameRatio(e.quote, e.amount, p.amountQuote * q.amountQuote, p.amount * q.amount)
    ensures e.amount > 0 && e.quote > 0
    ensures var r, extra := Mul(p, q), ExtraBits(e.amount, e.quote);
      && (r.None? <==> e.amount < Pow2(extra) || e.quote < Pow2(extra))
      && (r.Some? ==>
           && 0 < t.amount < AMOUNT_LIMIT && 0 < t.quote < AMOUNT_LIMIT
           && r.value == New(t.amount, t.quote))
      && (r.Some? && extra == 0 ==>
           SameRatio(t.quote, t.amount, p.amountQuote * q.amountQuote, p.amount * q.amount))
      && (r.Some? && extra > 0 ==>
           && Below(t.quote, t.amount + 1, p.amountQuote * q.amountQuote, p.amount * q.amount)
           && Below(p.amountQuote * q.amountQuote, p.amount * q.amount, t.quote + 1, t.amount)
           && (AMOUNT_LIMIT / 2 <= t.amount || AMOUNT_LIMIT / 2 <= t.quote))
  {
    e := MulTerms(p, q);
    var e', t' := LossyMulTrimmed(New(p.amount, q.amountQuote), p.amountQuote, q.amount);
    t := t';
    hide New, LossyMul, ExactProduct, SameRatio, Below, Trimmed, ExtraBits;
    if Mul(p, q).Some? && t != e {
      TrimmedBelow(e, t, p.amountQuote * q.amountQuote, p.amount * q.amount);
    }
  }

  /** The product of two prices is exact whenever it would be with any common divisor of the amount of the
      first and the quote amount of the second cancelled. What the other two amounts have in common is not. */
  lemma MulUntrimmed(p: Price, q: Price, g: nat, a: nat, d: nat)
    requires Canonical(p) && Canonical(q) && p.amount == g * a && q.amountQuote == g * d
    requires a * q.amount < AMOUNT_LIMIT && d * p.amountQuote < AMOUNT_LIMIT
    ensures var r := Mul(p, q);
      && r.Some? && Canonical(r.value)
      && SameRatio(r.value.amountQuote, r.value.amount, p.amountQuote * q.amountQuote, p.amount * q.amount)
  {
    var n := New(p.amount, q.amountQuote);
    CancelledMost(p.amount, q.amountQuote, n.amount, n.amountQuote, g, a, d);
    MulMono(n.amount, a, q.amount);
    MulMono(n.amountQuote, d, p.amountQuote);
    LossyMulExact(n, p.amountQuote, q.amount, 1, n.amount, p.amountQuote, 1, n.amountQuote, q.amount);
    var e := MulTerms(p, q);
    var r := Mul(p, q).value;
    hide Mul, New, ExactProduct;
    ScaledRatio(n.amountQuote, n.amount, q.amountQuote, p.amount, p.amountQuote, q.amount);
    MulStrict(0, n.amount, q.amount);
    assert q.amountQuote * p.amountQuote == p.amountQuote * q.amountQuote;
    SameRatioTrans(r.amountQuote, r.amount, n.amountQuote * p.amountQuote, n.amount * q.amount,
      p.amountQuote * q.amountQuote, p.amount * q.amount);
  }

  const LARGEST: Amount := AMOUNT_LIMIT - 1

  lemma LargestTrimmed()
    ensures var e := Terms(LARGEST, 2 * LARGEST);
      && ExtraBits(e.amount, e.quote) == 1 && Pow2(1) == 2
      && Trimmed(e, 1) == Terms(e.amount / 2, LARGEST) && !SameRatio(LARGEST, e.amount / 2, 2, 1)
  {
    assert LARGEST / AMOUNT_LIMIT == 0 && (2 * LARGEST) / AMOUNT_LIMIT == 1;
    assert BitLength(0) == 0 && BitLength(1) == 1 && Pow2(0) == 1 && Pow2(1) == 2;
  }

  /** There are two prices whose product is a price, yet not the one multiplying them yields. */
  lemma MulNotExact() returns (p: Price, q: Price, r: Price)
    ensures Canonical(p) && Canonical(q) && Canonical(r) && Mul(p, q).Some?
    ensures SameRatio(r.amountQuote, r.amount, p.amountQuote * q.amountQuote, p.amount * q.amount)
    ensures Mul(p, q).value != r
  {
    CoprimeToOne(LARGEST);
    CoprimeToOne(2);
    OddCoprime(LARGEST);
    LargestTrimmed();
    p, q, r := Price(1, LARGEST), Price(LARGEST, 2), Price(1, 2);
    hide Gcd, ExtraBits, Trimmed, Mul, Pow2;
    var e, t := MulBounds(p, q);
    assert New(1, 2) == r && e == Terms(LARGEST, 2 * LARGEST);
  }

  // ----- Addition -----

  /** The terms of the sum over the least common multiple of the amounts. */
  ghost function SumTerms(p: Price, q: Price): Terms
    requires Canonical(p) && Canonical(q)
  {
    var (a1, c1) := IntoCoprimeWith(p.amount, q.amount);
    Terms((a1 * c1) * Gcd(p.amount, q.amount), p.amountQuote * c1 + q.amountQuote * a1)
  }

  ghost function ExactSum(p: Price, q: Price): Terms {
    Terms(p.amount * q.amount, p.amountQuote * q.amount + q.amountQuote * p.amount)
  }

  lemma CommonDenominator(g: nat, a: nat, c: nat, b: nat, d: nat)
    ensures SameRatio(b * c + d * a, (a * c) * g, b * (g * c) + d * (g * a), (g * a) * (g * c))
  {
    var sum, den := b * c + d * a, (a * c) * g;
    calc {
      b * (g * c) + d * (g * a);
      { Assoc(g, c, b); Assoc(g, a, d); }
      g * (b * c) + g * (d * a);
      { Distribute(g, b * c, d * a); }
      g * sum;
    }
    calc {
      (g * a) * (g * c);
      { Assoc(g, a, g * c); Assoc(g, c, a); }
      g * ((a * c) * g);
    }
    Assoc(g, den, sum);
    Assoc(g, sum, den);
  }

  lemma CheckedAddTerms(p: Price, q: Price)
    requires Canonical(p) && Canonical(q)
    ensures var s, e := SumTerms(p, q), ExactSum(p, q);
      s.amount > 0 && s.quote > 0 && SameRatio(s.quote, s.amount, e.quote, e.amount)
    ensures var (a1, c1) := IntoCoprimeWith(p.amount, q.amount);
      && FloorDiv(p.amount, a1) == Gcd(p.amount, q.amount)
      && p.amountQuote * c1 > 0 && q.amountQuote * a1 > 0 && 0 < a1 * c1 <= SumTerms(p, q).amount
  {
    var (a1, c1) := IntoCoprimeWith(p.amount, q.amount);
    var g := Gcd(p.amount, q.amount);
    MulExact(g, a1);
    MulStrict(0, a1, c1);
    MulMono(1, g, a1 * c1);
    MulStrict(0, p.amountQuote, c1);
    MulStrict(0, q.amountQuote, a1);
    CommonDenominator(g, a1, c1, p.amountQuote, q.amountQuote);
  }

  /** The sum of two prices, if no intermediate amount overflows. */
  function CheckedAdd(p: Price, q: Price): Option<Price>
    requires Canonical(p) && Canonical(q)
  {
    var (a1, c1) := IntoCoprimeWith(p.amount, q.amount);
    CheckedAddTerms(p, q);
    var gcd := FloorDiv(p.amount, a1);
    var mayBC1, mayDA1 := CheckedMul(p.amountQuote, c1), CheckedMul(q.amountQuote, a1);
    var mayQuote := if mayBC1.Some? && mayDA1.Some? then Fractions.CheckedAdd(mayBC1.value, mayDA1.value) else None;
    var mayA1C1 := CheckedMul(a1, c1);
    var mayAmount := if mayA1C1.Some? then CheckedMul(mayA1C1.value, gcd) else None;
    if mayQuote.Some? && mayAmount.Some? then Some(New(mayAmount.value, mayQuote.value)) else None
  }

  /** Neither term of the sum over the least common multiple of the amounts overflows. */
  ghost predicate SumFits(p: Price, q: Price)
    requires Canonical(p) && Canonical(q)
  {
    SumTerms(p, q).amount < AMOUNT_LIMIT && SumTerms(p, q).quote < AMOUNT_LIMIT
  }

  /** The checked sum is the exact sum of the ratios, in canonical form. It fails exactly when a term of the
      sum over the least common multiple of the amounts overflows. */
  lemma CheckedAddExact(p: Price, q: Price)
    requires Canonical(p) && Canonical(q)
    ensures CheckedAdd(p, q).Some? <==> SumFits(p, q)
    ensures CheckedAdd(p, q).Some? ==>
      var r, e := CheckedAdd(p, q).value, ExactSum(p, q);
      Canonical(r) && SameRatio(r.amountQuote, r.amount, e.quote, e.amount)
  {
    CheckedAddTerms(p, q);
    if CheckedAdd(p, q).Some? {
      var r, s, e := CheckedAdd(p, q).value, SumTerms(p, q), ExactSum(p, q);
      SameRatioTrans(r.amountQuote, r.amount, s.quote, s.amount, e.quote, e.amount);
    }
  }

  /** Every common multiple of `g * a` and `g * c` is one of `g * a * c`. */
  lemma LeastMultiple(g: nat, a: nat, c: nat, i: nat, j: nat) returns (k: nat)
    requires g > 0 && a > 0 && c > 0 && i > 0 && Coprime(a, c) && (g * a) * i == (g * c) * j
    ensures k > 0 && i == c * k && j == a * k
  {
    hide Divides, Gcd;
    Assoc(g, a, i);
    Assoc(g, c, j);
    MulCancelEqual(a * i, c * j, g);
    Multiple(c, j);
    GcdSymmetric(a, c);
    EuclidLemma(c, a, i);
    k := Quotient(c, i);
    Assoc(c, k, a);
    MulCancelEqual(a * k, j, c);
  }

  /** A sum over a common multiple of the amounts is over a multiple of the least one. */
  lemma OverLeastMultiple(p: Price, q: Price, i: nat, j: nat)
    requires Canonical(p) && Canonical(q) && i > 0 && j > 0 && p.amount * i == q.amount * j
    ensures SumTerms(p, q).amount <= p.amount * i
    ensures SumTerms(p, q).quote <= p.amountQuote * i + q.amountQuote * j
  {
    hide Divides, Gcd;
    var (a, c) := IntoCoprimeWith(p.amount, q.amount);
    var g := Gcd(p.amount, q.amount);
    var k := LeastMultiple(g, a, c, i, j);
    MulMono(1, k, a);
    MulMono(1, k, c);
    assert (a * c) * g == c * (g * a) by {
      Assoc(a, c, g);
    }
    MulMono(c, i, p.amount);
    MulMono(c, i, p.amountQuote);
    MulMono(a, j, q.amountQuote);
  }

  /** The terms of a sum over the common multiple `p.amount * i` of the amounts fit. */
  ghost predicate FitsOver(p: Price, q: Price, i: nat, j: nat) {
    && i > 0 && j > 0 && p.amount * i == q.amount * j < AMOUNT_LIMIT
    && p.amountQuote * i + q.amountQuote * j < AMOUNT_LIMIT
  }

  lemma SumOverLeast(p: Price, q: Price)
    requires Canonical(p) && Canonical(q) && SumFits(p, q)
    ensures exists i: nat, j: nat :: FitsOver(p, q, i, j)
  {
    hide Gcd;
    var (a, c) := IntoCoprimeWith(p.amount, q.amount);
    var g := Gcd(p.amount, q.amount);
    Assoc(g, a, c);
    Assoc(g, c, a);
    assert p.amount * c == (a * c) * g == q.amount * a;
    assert FitsOver(p, q, c, a);
  }

  /** The checked sum succeeds exactly if over some common multiple of the amounts neither term overflows. */
  lemma CheckedAddIff(p: Price, q: Price)
    requires Canonical(p) && Canonical(q)
    ensures CheckedAdd(p, q).Some? <==> exists i: nat, j: nat :: FitsOver(p, q, i, j)
  {
    hide CheckedAdd;
    CheckedAddExact(p, q);
    if SumFits(p, q) {
      SumOverLeast(p, q);
    }
    if i: nat, j: nat :| FitsOver(p, q, i, j) {
      OverLeastMultiple(p, q, i, j);
    }
  }

  const FACTOR: Amount := 1_000_000_000_000_000_000

  /** `Overflow` is a panic of the program. `ZeroQuote` is a price with a zero quote amount, which breaks the
      invariant of prices: a panic too, but only where debug assertions are on. */
  datatype Sum = Sum(price: Price) | Overflow | ZeroQuote

  /** Each of the prices is rounded down to 18 decimal places before they are added. */
  function LossyAdd(p: Price, q: Price): Sum
    requires Canonical(p) && Canonical(q)
  {
    var x, y := Total(FACTOR, p), Total(FACTOR, q);
    if x.None? || y.None? then Overflow
    else
      var total := Fractions.CheckedAdd(x.value, y.value);
      if total.None? then Overflow
      else if total.value == 0 then ZeroQuote
      else Sum.Sum(New(FACTOR, total.value))
  }

  function Add(p: Price, q: Price): Sum
    requires Canonical(p) && Canonical(q)
  {
    var exact := CheckedAdd(p, q);
    if exact.Some? then Sum.Sum(exact.value) else LossyAdd(p, q)
  }

  lemma LossyTerm(f: nat, p: nat, a: nat, c: nat, x: nat)
    requires c > 0 && x * a <= f * p < (x + 1) * a
    ensures x * (a * c) <= (p * c) * f < (x + 1) * (a * c)
  {}

  lemma LossyTerms(f: nat, p: nat, a: nat, q: nat, c: nat, x: nat, y: nat)
    requires a > 0 && c > 0
    requires x * a <= f * p < (x + 1) * a && y * c <= f * q < (y + 1) * c
    ensures (x + y) * (a * c) <= (p * c + q * a) * f < (x + y + 2) * (a * c)
  {
    LossyTerm(f, p, a, c, x);
    LossyTerm(f, q, c, a, y);
    var ac, pc, qa := a * c, p * c, q * a;
    assert c * a == ac;
    Distribute(f, pc, qa);
    Distribute(ac, x, y);
    Distribute(ac, x + 1, y + 1);
  }

  /** The sum of the prices in units of the 18-th decimal place, each rounded down. */
  ghost function DecimalSum(p: Price, q: Price): nat
    requires p.amount > 0 && q.amount > 0
  {
    FloorMulDiv(FACTOR, p.amountQuote, p.amount) + FloorMulDiv(FACTOR, q.amountQuote, q.amount)
  }

  /** Which of the three ways a sum ends. */
  lemma AddOutcome(p: Price, q: Price)
    requires Canonical(p) && Canonical(q)
    ensures Add(p, q).Sum? <==> SumFits(p, q) || 0 < DecimalSum(p, q) < AMOUNT_LIMIT
    ensures Add(p, q).Overflow? <==> !SumFits(p, q) && DecimalSum(p, q) >= AMOUNT_LIMIT
    ensures Add(p, q).ZeroQuote? <==>
      !SumFits(p, q) && FACTOR * p.amountQuote < p.amount && FACTOR * q.amountQuote < q.amount
    ensures Add(p, q).Sum? && !SumFits(p, q) ==> Add(p, q).price == New(FACTOR, DecimalSum(p, q))
  {
    CheckedAddExact(p, q);
    TotalFloor(FACTOR, p);
    TotalFloor(FACTOR, q);
    FloorFacts(FACTOR * p.amountQuote, p.amount);
    FloorFacts(FACTOR * q.amountQuote, q.amount);
  }

  /** There are two prices the sum of which has a zero quote amount. */
  lemma AddZeroQuote() returns (p: Price, q: Price)
    ensures Canonical(p) && Canonical(q) && Add(p, q).ZeroQuote?
  {
    var a: Amount := AMOUNT_LIMIT / 2;
    p, q := Price(a, 1), Price(a - 1, 1);
    assert Gcd(a, 1) == Gcd(1, 0) == 1 && Gcd(a - 1, 1) == Gcd(1, 0);
    assert Gcd(a, a - 1) == Gcd(a - 1, 1);
    AddOutcome(p, q);
  }

  lemma WithinOfExact(rq: nat, ra: nat, n: nat, x: nat, f: nat)
    requires SameRatio(rq, ra, n, x) && ra > 0 && x > 0
    ensures rq * x <= n * ra && Below(n, x, rq * f + 2 * ra, ra * f)
  {}

  lemma WithinOfRounded(s: nat, f: nat, rq: nat, ra: nat, n: nat, x: nat)
    requires SameRatio(rq, ra, s, f) && f > 0 && ra > 0
    requires s * x <= n * f < (s + 2) * x
    ensures rq * x <= n * ra && Below(n, x, rq * f + 2 * ra, ra * f)
  {}

  /** Whenever there is a sum, it is never above the exact one and less than two units of the 18-th decimal
      place below it. */
  lemma AddBounds(p: Price, q: Price)
    requires Canonical(p) && Canonical(q) && (SumFits(p, q) || 0 < DecimalSum(p, q) < AMOUNT_LIMIT)
    ensures Add(p, q).Sum?
    ensures var r, e := Add(p, q).price, ExactSum(p, q);
      && Canonical(r)
      && r.amountQuote * e.amount <= e.quote * r.amount
      && Below(e.quote, e.amount, r.amountQuote * 1_000_000_000_000_000_000 + 2 * r.amount,
           r.amount * 1_000_000_000_000_000_000)
  {
    AddOutcome(p, q);
    CheckedAddExact(p, q);
    var r, e := Add(p, q).price, ExactSum(p, q);
    MulStrict(0, p.amount, q.amount);
    if CheckedAdd(p, q).Some? {
      WithinOfExact(r.amountQuote, r.amount, e.quote, e.amount, FACTOR);
    } else {
      var x := FloorBounds(FACTOR * p.amountQuote, p.amount);
      var y := FloorBounds(FACTOR * q.amountQuote, q.amount);
      LossyTerms(FACTOR, p.amountQuote, p.amount, q.amountQuote, q.amount, x, y);
      WithinOfRounded(x + y, FACTOR, r.amountQuote, r.amount, e.quote, e.amount);
    }
  }
}
