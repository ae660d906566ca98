/** A loan given by the liquidity pool. */
module LppLoan {
  import opened Time
  import opened Interest

  datatype RepayShares = RepayShares(interest: nat, principal: nat, excess: nat)

  datatype LoanState = LoanState(principalDue: nat, annualInterestRate: Percent, interestPaid: Timestamp)

  function DuePeriod(l: LoanState, upTo: Timestamp): Duration {
    Max(upTo, l.interestPaid) - l.interestPaid
  }

  function InterestDue(l: LoanState, upTo: Timestamp): nat {
    Accrued(l.annualInterestRate, l.principalDue, DuePeriod(l, upTo))
  }

  /** The interest due is what has accrued since the time it is paid through; nothing is due before that. It
      is within the bounds of the exact interest over that time. */
  lemma InterestSincePaid(l: LoanState, upTo: Timestamp)
    ensures upTo <= l.interestPaid ==> InterestDue(l, upTo) == 0
    ensures l.interestPaid <= upTo ==>
      InterestDue(l, upTo) == Accrued(l.annualInterestRate, l.principalDue, upTo - l.interestPaid)
    ensures l.interestPaid <= upTo ==>
      var i, exact := InterestDue(l, upTo), (l.principalDue * l.annualInterestRate) * (upTo - l.interestPaid);
      i * (HUNDRED_PERCENT * YEAR) <= exact <
        (i + 1) * (HUNDRED_PERCENT * YEAR) + HUNDRED_PERCENT * (upTo - l.interestPaid)
  {
    hide Accrued;
    NoInterestAtOnce(l.annualInterestRate, l.principalDue);
    if l.interestPaid <= upTo {
      AccruedBounds(l.annualInterestRate, l.principalDue, upTo - l.interestPaid);
    }
  }

  /** Interest first, then principal, the rest is in excess. */
  function SharesOf(l: LoanState, upTo: Timestamp, repayment: nat): RepayShares {
    var interest := Min(InterestDue(l, upTo), repayment);
    var principal := Min(l.principalDue, repayment - interest);
    RepayShares(interest, principal, repayment - interest - principal)
  }

  /** What a repayment at `by` makes of the loan. */
  ghost predicate Repaid(l: LoanState, upTo: Timestamp, shares: RepayShares, l': LoanState) {
    && l'.annualInterestRate == l.annualInterestRate
    && l'.principalDue + shares.principal == l.principalDue
    && l.interestPaid <= l'.interestPaid <= Max(upTo, l.interestPaid)
    && (var rest := InterestDue(l, upTo) - shares.interest;
        && rest <= InterestDue(l', upTo) <= rest + 1 + AnnualInterest(l.annualInterestRate, l.principalDue) / YEAR
        && (rest == 0 ==> InterestDue(l', upTo) == 0))
  }

  ghost function AfterRepay(l: LoanState, upTo: Timestamp, repayment: nat): LoanState {
    LoanState(
      l.principalDue - SharesOf(l, upTo, repayment).principal,
      l.annualInterestRate,
      l.interestPaid + Pay(l.annualInterestRate, l.principalDue, repayment, DuePeriod(l, upTo)).paidFor)
  }

  /** The paid-through time only moves forward and never passes the time of the payment. The interest quoted
      again at that time is what was left unpaid, but for rounding in favour of the pool. */
  lemma RepaidAfter(l: LoanState, upTo: Timestamp, repayment: nat)
    ensures Repaid(l, upTo, SharesOf(l, upTo, repayment), AfterRepay(l, upTo, repayment))
  {
    var period, shares, l' := DuePeriod(l, upTo), SharesOf(l, upTo, repayment), AfterRepay(l, upTo, repayment);
    RequotedInterest(l.annualInterestRate, l.principalDue, repayment, period);
    assert DuePeriod(l', upTo) == period - (l'.interestPaid - l.interestPaid);
    PrincipalMono(l.annualInterestRate, l'.principalDue, l.principalDue, DuePeriod(l', upTo));
    if shares.principal > 0 {
      assert shares.interest == InterestDue(l, upTo);
    }
  }

  class Loan {
    var principalDue: nat
    const annualInterestRate: Percent
    var interestPaid: Timestamp

    constructor (principalDue: nat, annualInterestRate: Percent, interestPaid: Timestamp)
      ensures State() == LoanState(principalDue, annualInterestRate, interestPaid)
    {
      this.principalDue, this.annualInterestRate, this.interestPaid := principalDue, annualInterestRate, interestPaid;
    }

    function State(): LoanState
      reads this
    {
      LoanState(principalDue, annualInterestRate, interestPaid)
    }

    method Repay(upTo: Timestamp, repayment: nat) returns (shares: RepayShares)
      modifies this
      ensures shares == SharesOf(old(State()), upTo, repayment)
      ensures shares.interest + shares.principal + shares.excess == repayment
      ensures old(interestPaid) <= upTo ==>
        shares.interest ==
          Min(Accrued(annualInterestRate, old(principalDue), upTo - old(interestPaid)), repayment)
      ensures upTo <= old(interestPaid) ==> shares.interest == 0
      ensures shares.principal == Min(old(principalDue), repayment - shares.interest)
      ensures principalDue == old(principalDue) - shares.principal
      ensures Repaid(old(State()), upTo, shares, State())
      ensures State() == AfterRepay(old(State()), upTo, repayment)
    {
      InterestSincePaid(State(), upTo);
      RepaidAfter(State(), upTo, repayment);
      var payment := Pay(annualInterestRate, principalDue, repayment, Max(upTo, interestPaid) - interestPaid);
      RequotedInterest(annualInterestRate, principalDue, repayment, Max(upTo, interestPaid) - interestPaid);
      var interestShare := repayment - payment.change;
      var principalShare := Min(payment.change, principalDue);
      var excess := payment.change - principalShare;
      principalDue := principalDue - principalShare;
      interestPaid := interestPaid + payment.paidFor;
      shares := RepayShares(interestShare, principalShare, excess);
    }
  }
}
