/** Interest on a principal: how much accrues over a period, and how much of a period a payment covers. */
module Interest {
  import opened Arithmetic
  import opened Fractions
  import opened Time

  const YEAR: nat := 365 * 24 * 60 * 60 * NANOS_IN_SECOND
  const HUNDRED_PERCENT: nat := 1000  // percents are kept in permille

  type Percent = nat

  function Min(x: nat, y: nat): nat {
    if x < y then x else y
  }

  function Max(x: nat, y: nat): nat {
    if x < y then y else x
  }

  function AnnualInterest(rate: Percent, principal: nat): nat {
    Of(principal, rate, HUNDRED_PERCENT)
  }

  function Accrued(rate: Percent, principal: nat, period: Duration): nat {
    Of(AnnualInterest(rate, principal), period, YEAR)
  }

  datatype Payment = Payment(paidFor: Duration, change: nat)

  function Pay(rate: Percent, principal: nat, payment: nat, period: Duration): Payment {
    var due := Accrued(rate, principal, period);
    if due == 0 then Payment(0, payment)
    else
      var repayment := Min(due, payment);
      Payment(Of(period, repayment, due), payment - repayment)
  }

  /** The interest is rounded down twice: that for a year, and the part of it for the period. */
  lemma AccruedNested(rate: Percent, principal: nat, period: Duration) returns (annual: nat)
    ensures annual * 1000 <= principal * rate < (annual + 1) * 1000
    ensures YEAR == 31_536_000_000_000_000
    ensures Accrued(rate, principal, period) * YEAR <= annual * period < (Accrued(rate, principal, period) + 1) * YEAR
  {
    annual := FloorBounds(principal * rate, HUNDRED_PERCENT);
    var i := FloorBounds(annual * period, YEAR);
  }

  /** The interest never exceeds the exact one; the two roundings lose less than one unit, and one more for
      each year of the period. */
  lemma AccruedBounds(rate: Percent, principal: nat, period: Duration)
    ensures var i, exact := Accrued(rate, principal, period), (principal * rate) * period;
      i * (HUNDRED_PERCENT * YEAR) <= exact < (i + 1) * (HUNDRED_PERCENT * YEAR) + HUNDRED_PERCENT * period
  {
    var pr := principal * rate;
    var a := AccruedNested(rate, principal, period);
    hide Accrued;
    // the annual interest is the exact one rounded down
    MulMono(a * HUNDRED_PERCENT, pr, period);
    MulMono(pr, (a + 1) * HUNDRED_PERCENT, period);
    assert (a * HUNDRED_PERCENT) * period == HUNDRED_PERCENT * (a * period);
    assert ((a + 1) * HUNDRED_PERCENT) * period == HUNDRED_PERCENT * (a * period) + HUNDRED_PERCENT * period;
  }

  lemma InterestMono(rate: Percent, principal: nat, shorter: Duration, longer: Duration)
    requires shorter <= longer
    ensures Accrued(rate, principal, shorter) <= Accrued(rate, principal, longer)
  {
    var annual := AnnualInterest(rate, principal);
    MulMono(shorter, longer, annual);
    FloorMono(annual * shorter, annual * longer, YEAR);
  }

  lemma PrincipalMono(rate: Percent, less: nat, more: nat, period: Duration)
    requires less <= more
    ensures Accrued(rate, less, period) <= Accrued(rate, more, period)
  {
    MulMono(less, more, rate);
    FloorMono(less * rate, more * rate, HUNDRED_PERCENT);
    MulMono(AnnualInterest(rate, less), AnnualInterest(rate, more), period);
    FloorMono(AnnualInterest(rate, less) * period, AnnualInterest(rate, more) * period, YEAR);
  }

  lemma NoInterestAtOnce(rate: Percent, principal: nat)
    ensures Accrued(rate, principal, 0) == 0
  {}

  lemma RestLower(a: nat, p: nat, y: nat, rest: nat, i: nat, left: nat)
    requires i > 0 && i * y <= a * p && p * rest <= left * i
    ensures rest * y <= a * left
  {}

  lemma RestUpper(a: nat, p: nat, y: nat, rest: nat, i: nat, left: nat)
    requires rest < i && y > 0 && a * p < (i + 1) * y && left * i < p * rest + i
    ensures a * left < (rest + 1) * y + a
  {
    var ay: nat := rest * y;
    calc {
      (a * left) * i;
      { Assoc(a, left, i); }
      a * (left * i);
    <= { MulMono(left * i, p * rest + i, a); }
      (p * rest + i) * a;
      { Distribute(a, p * rest, i); Assoc(a, p, rest); }
      (a * p) * rest + a * i;
    <= { MulMono(a * p, (i + 1) * y, rest); }
      ((i + 1) * y) * rest + a * i;
      { Assoc(i + 1, y, rest); Distribute(ay, i, 1); }
      ay * i + ay + a * i;
    < { MulStrict(rest, i, y); }
      ay * i + i * y + a * i;
      { Distribute(i, ay, y); Distribute(i, ay + y, a); }
      (ay + y + a) * i;
    }
    MulCancelStrict(a * left, ay + y + a, i);
    Distribute(y, rest, 1);
  }

  /** Paying `r` out of the interest `i` accrued over `p` covers `t`; what accrues over the rest. */
  lemma RestOfPeriod(a: nat, p: nat, y: nat, r: nat, i: nat, t: nat)
    requires y > 0 && 0 < r <= i && i * y <= a * p < (i + 1) * y
    requires t <= p && t * i <= p * r < (t + 1) * i
    ensures (i - r) * y <= a * (p - t) < (i - r + 1) * y + a
  {
    Distribute(i, p, t);
    Distribute(p, i, r);
    Distribute(i, t, 1);
    assert p * (i - r) <= (p - t) * i < p * (i - r) + i;
    RestLower(a, p, y, i - r, i, p - t);
    RestUpper(a, p, y, i - r, i, p - t);
  }

  /** After paying the part `r` of the accrued interest `i` what is quoted at the same instant is no less
      than `i - r`, and exceeds it by at most one unit and what accrues in a nanosecond. Nothing is left
      once all of it has been paid. The period paid for is never longer than the period due. */
  lemma RequotedInterest(rate: Percent, principal: nat, payment: nat, period: Duration)
    ensures var i, paid := Accrued(rate, principal, period), Pay(rate, principal, payment, period);
      var r := Min(i, payment);
      && paid.change == payment - r
      && paid.paidFor <= period
      && var again := Accrued(rate, principal, period - paid.paidFor);
      && i - r <= again <= i - r + 1 + AnnualInterest(rate, principal) / YEAR
      && (r == i ==> again == 0)
  {
    var i, paid := Accrued(rate, principal, period), Pay(rate, principal, payment, period);
    var a, r := AnnualInterest(rate, principal), Min(i, payment);
    if i > 0 {
      var f := FloorBounds(a * period, YEAR);
      var t := FloorBounds(period * r, i);
      MulMono(r, i, period);
      assert t * i <= period * i;
      MulCancel(t, period, i);
      NoInterestAtOnce(rate, principal);
      if r == i {
        MulExact(period, i);
      } else if r == 0 {
        FloorIs(period * 0, i, 0);
      } else {
        RestOfPeriod(a, period, YEAR, r, i, t);
        var again := FloorBounds(a * (period - t), YEAR);
        var perNano := FloorBounds(a, YEAR);
        FloorAtLeast(a * (period - t), YEAR, i - r);
        Distribute(YEAR, i - r + 1, perNano + 1);
        MulCancelStrict(again, (i - r + 1) + (perNano + 1), YEAR);
      }
    }
  }
}
