/** The loan of a lease: the pool's loan and, on top of its interest, a margin. */
module LeaseLoan {
  import opened Time
  import opened Interest
  import opened LppLoan

  /** What is due, the accrued interest and margin each split into an overdue and a due part. */
  datatype State = State(principalDue: nat, overdueInterest: nat, overdueMargin: nat, dueInterest: nat,
                         dueMargin: nat)
  {
    function TotalDue(): nat {
      principalDue + overdueMargin + overdueInterest + dueMargin + dueInterest
    }
  }

  datatype Receipt = Receipt(overdueInterest: nat, overdueMargin: nat, dueInterest: nat, dueMargin: nat,
                             principal: nat, change: nat, close: bool)
  {
    function Interest(): nat { overdueInterest + dueInterest }
    function Margin(): nat { overdueMargin + dueMargin }
    function Total(): nat { overdueMargin + overdueInterest + dueMargin + dueInterest + principal + change }
  }

  /** The payment goes to the overdue interest, the overdue margin, the due interest, the due margin, and
      the principal, in this order. */
  function Waterfall(s: State, payment: nat): Receipt {
    var overdueInterest := Min(s.overdueInterest, payment);
    var overdueMargin := Min(s.overdueMargin, payment - overdueInterest);
    var dueInterest := Min(s.dueInterest, payment - overdueInterest - overdueMargin);
    var dueMargin := Min(s.dueMargin, payment - overdueInterest - overdueMargin - dueInterest);
    var interest, margin := overdueInterest + dueInterest, overdueMargin + dueMargin;
    var principal := Min(s.principalDue, payment - interest - margin);
    Receipt(overdueInterest, overdueMargin, dueInterest, dueMargin, principal, payment - interest - margin - principal,
      s.principalDue == principal)
  }

  /** No share exceeds its part, and a part is paid only once all those before it are. */
  ghost predicate InPriority(s: State, r: Receipt) {
    var overdueInterestPaid := r.overdueInterest == s.overdueInterest;
    var overdueMarginPaid := overdueInterestPaid && r.overdueMargin == s.overdueMargin;
    var dueInterestPaid := overdueMarginPaid && r.dueInterest == s.dueInterest;
    var dueMarginPaid := dueInterestPaid && r.dueMargin == s.dueMargin;
    && r.overdueInterest <= s.overdueInterest && r.overdueMargin <= s.overdueMargin
    && r.dueInterest <= s.dueInterest && r.dueMargin <= s.dueMargin && r.principal <= s.principalDue
    && (r.overdueMargin > 0 ==> overdueInterestPaid)
    && (r.dueInterest > 0 ==> overdueMarginPaid)
    && (r.dueMargin > 0 ==> dueInterestPaid)
    && (r.principal > 0 ==> dueMarginPaid)
    && (r.change > 0 ==> dueMarginPaid && r.principal == s.principalDue)
  }

  /** The priority and the sum determine the receipt. */
  lemma OneReceipt(s: State, r1: Receipt, r2: Receipt)
    requires InPriority(s, r1) && InPriority(s, r2) && r1.Total() == r2.Total()
    requires (r1.close <==> r1.principal == s.principalDue) && (r2.close <==> r2.principal == s.principalDue)
    ensures r1 == r2
  {}

  /** However the accrued interest and margin are split, the shares sum up to the payment, the pool splits
      what it is sent the way the lease did, and nothing of the margin comes back. The principal is paid
      only once all the interest and margin are; there is change only once all is. */
  lemma WaterfallAgrees(s: State, payment: nat, loan: LoanState, marginRate: Percent, marginPeriod: Duration,
      upTo: Timestamp)
    requires s.principalDue == loan.principalDue
    requires s.overdueInterest + s.dueInterest == InterestDue(loan, upTo)
    requires s.overdueMargin + s.dueMargin == Accrued(marginRate, loan.principalDue, marginPeriod)
    ensures var r := Waterfall(s, payment);
      && r.Total() == payment && InPriority(s, r)
      && SharesOf(loan, upTo, r.Interest() + r.principal) == RepayShares(r.Interest(), r.principal, 0)
      && Pay(marginRate, loan.principalDue, r.Margin(), marginPeriod).change == 0
      && (r.principal > 0 ==> r.Interest() == InterestDue(loan, upTo) && r.Margin() == s.overdueMargin + s.dueMargin)
      && (r.close <==> r.principal == s.principalDue)
      && (r.change > 0 ==> s.TotalDue() < payment)
      && (s.TotalDue() <= payment ==> (
           && r.close && r.change == payment - s.TotalDue()
           && r.Interest() == s.overdueInterest + s.dueInterest && r.Margin() == s.overdueMargin + s.dueMargin))
  {}

  /** A fixed-address sender, for the profit and for the change. */
  class Sender {
    var sent: nat

    constructor ()
      ensures sent == 0
    {
      sent := 0;
    }

    method Send(amount: nat)
      modifies this
      ensures sent == old(sent) + amount
    {
      sent := sent + amount;
    }
  }

  datatype Terms = Terms(marginInterest: Percent, duePeriod: Duration)

  datatype LeaseState = LeaseState(loan: LoanState, marginPaidBy: Timestamp)

  datatype Repayment = Repayment(at: Timestamp, amount: nat)

  /** What accrued past the due period is overdue. */
  function AccruedSplit(t: Terms, l: LeaseState, now: Timestamp): (s: State)
    requires l.marginPaidBy <= now
    ensures s.principalDue == l.loan.principalDue
    ensures s.overdueInterest + s.dueInterest == InterestDue(l.loan, now)
    ensures s.overdueMargin + s.dueMargin == Accrued(t.marginInterest, l.loan.principalDue, now - l.marginPaidBy)
  {
    var length, interest := now - l.marginPaidBy, InterestDue(l.loan, now);
    var margin := Accrued(t.marginInterest, l.loan.principalDue, length);
    if length < t.duePeriod then State(l.loan.principalDue, 0, 0, interest, margin)
    else
      var overdueInterest := InterestDue(l.loan, now - t.duePeriod);
      var overdueMargin := Accrued(t.marginInterest, l.loan.principalDue, length - t.duePeriod);
      InterestMono(t.marginInterest, l.loan.principalDue, length - t.duePeriod, length);
      InterestMono(l.loan.annualInterestRate, l.loan.principalDue, DuePeriod(l.loan, now - t.duePeriod),
        DuePeriod(l.loan, now));
      State(l.loan.principalDue, overdueInterest, overdueMargin, interest - overdueInterest, margin - overdueMargin)
  }

  /** What is overdue is exactly what had accrued a due period ago; nothing is until the margin has not been paid
      for that long. */
  lemma OverdueSincePaid(t: Terms, l: LeaseState, now: Timestamp)
    requires l.marginPaidBy <= now
    ensures var s := AccruedSplit(t, l, now);
      if l.marginPaidBy + t.duePeriod <= now then
        var ago := now - t.duePeriod;
        && s.overdueMargin == Accrued(t.marginInterest, l.loan.principalDue, ago - l.marginPaidBy)
        && s.overdueInterest == (
             if l.loan.interestPaid <= ago
             then Accrued(l.loan.annualInterestRate, l.loan.principalDue, ago - l.loan.interestPaid) else 0)
        && (var was := AccruedSplit(t, l, ago);
            && s.overdueInterest == was.overdueInterest + was.dueInterest
            && s.overdueMargin == was.overdueMargin + was.dueMargin)
      else s.overdueInterest == 0 && s.overdueMargin == 0
  {
    hide Accrued;
    if l.marginPaidBy + t.duePeriod <= now {
      InterestSincePaid(l.loan, now - t.duePeriod);
    }
  }

  /** All that has accrued is the interest and the margin since the times they are paid through. */
  lemma AccruedSincePaid(t: Terms, l: LeaseState, now: Timestamp)
    requires l.marginPaidBy <= now && l.loan.interestPaid <= now
    ensures var s, principal := AccruedSplit(t, l, now), l.loan.principalDue;
      && s.principalDue == principal
      && s.overdueInterest + s.dueInterest == Accrued(l.loan.annualInterestRate, principal, now - l.loan.interestPaid)
      && s.overdueMargin + s.dueMargin == Accrued(t.marginInterest, principal, now - l.marginPaidBy)
      && s.TotalDue() == principal + Accrued(l.loan.annualInterestRate, principal, now - l.loan.interestPaid) +
           Accrued(t.marginInterest, principal, now - l.marginPaidBy)
  {
    hide Accrued, AccruedSplit;
    InterestSincePaid(l.loan, now);
  }

  ghost function ReceiptOf(t: Terms, l: LeaseState, r: Repayment): Receipt
    requires l.marginPaidBy <= r.at
  {
    Waterfall(AccruedSplit(t, l, r.at), r.amount)
  }

  ghost function AfterPayment(t: Terms, l: LeaseState, r: Repayment): LeaseState
    requires l.marginPaidBy <= r.at
  {
    var receipt := ReceiptOf(t, l, r);
    LeaseState(
      AfterRepay(l.loan, r.at, receipt.Interest() + receipt.principal),
      l.marginPaidBy + Pay(t.marginInterest, l.loan.principalDue, receipt.Margin(), r.at - l.marginPaidBy).paidFor)
  }

  lemma NoPrincipalNoInterest(rate: Percent, period: Duration)
    ensures Accrued(rate, 0, period) == 0
  {}

  lemma PaidOff(t: Terms, l: LeaseState, now: Timestamp)
    requires l.marginPaidBy <= now && l.loan.principalDue == 0
    ensures AccruedSplit(t, l, now).TotalDue() == 0
  {
    hide Accrued;
    NoPrincipalNoInterest(t.marginInterest, now - l.marginPaidBy);
    NoPrincipalNoInterest(l.loan.annualInterestRate, DuePeriod(l.loan, now));
  }

  /** The margin quoted again after `paid` of it and some of the principal have been paid. */
  lemma MarginAgain(rate: Percent, principal: nat, principalPaid: nat, paid: nat, period: Duration)
    requires principalPaid <= principal && paid <= Accrued(rate, principal, period)
    ensures Pay(rate, principal, paid, period).paidFor <= period
    ensures var rest := Accrued(rate, principal, period) - paid;
      var again := Accrued(rate, principal - principalPaid, period - Pay(rate, principal, paid, period).paidFor);
      && again <= rest + 1 + AnnualInterest(rate, principal) / YEAR
      && (rest == 0 ==> again == 0)
      && (principalPaid == 0 ==> rest <= again)
  {
    RequotedInterest(rate, principal, paid, period);
    hide Accrued, Pay;
    PrincipalMono(rate, principal - principalPaid, principal, period - Pay(rate, principal, paid, period).paidFor);
  }

  /** One payment: the shares the lease computes are those the pool takes, and nothing of the margin comes back. */
  lemma PaymentFacts(t: Terms, l: LeaseState, r: Repayment)
    requires l.marginPaidBy <= r.at
    ensures var receipt, l' := ReceiptOf(t, l, r), AfterPayment(t, l, r);
      var period := r.at - l.marginPaidBy;
      var marginDue := Accrued(t.marginInterest, l.loan.principalDue, period);
      && receipt.Total() == r.amount && InPriority(AccruedSplit(t, l, r.at), receipt)
      && (receipt.close <==> l'.loan.principalDue == 0)
      && SharesOf(l.loan, r.at, receipt.Interest() + receipt.principal) ==
           RepayShares(receipt.Interest(), receipt.principal, 0)
      && Repaid(l.loan, r.at, RepayShares(receipt.Interest(), receipt.principal, 0), l'.loan)
      && l'.loan.principalDue + receipt.principal == l.loan.principalDue
      && Pay(t.marginInterest, l.loan.principalDue, receipt.Margin(), period).change == 0
      && receipt.Margin() <= marginDue && l.marginPaidBy <= l'.marginPaidBy <= r.at
      && (var again := Accrued(t.marginInterest, l'.loan.principalDue, r.at - l'.marginPaidBy);
          && again <= marginDue - receipt.Margin() + 1 + AnnualInterest(t.marginInterest, l.loan.principalDue) / YEAR
          && (receipt.Margin() == marginDue ==> again == 0)
          && (receipt.principal == 0 ==> marginDue - receipt.Margin() <= again))
  {
    hide Accrued, Pay, SharesOf, AfterRepay, AccruedSplit;
    var s, receipt := AccruedSplit(t, l, r.at), ReceiptOf(t, l, r);
    WaterfallAgrees(s, r.amount, l.loan, t.marginInterest, r.at - l.marginPaidBy, r.at);
    MarginAgain(t.marginInterest, l.loan.principalDue, receipt.principal, receipt.Margin(), r.at - l.marginPaidBy);
    RepaidAfter(l.loan, r.at, receipt.Interest() + receipt.principal);
  }

  class LeaseLoan {
    const lppLoan: Loan
    const duePeriod: Duration
    const marginInterest: Percent
    var marginPaidBy: Timestamp

    constructor (lppLoan: Loan, start: Timestamp, marginInterest: Percent, duePeriod: Duration)
      ensures this.lppLoan == lppLoan && this.duePeriod == duePeriod && this.marginInterest == marginInterest
      ensures marginPaidBy == start
    {
      this.lppLoan, this.marginPaidBy, this.marginInterest, this.duePeriod := lppLoan, start, marginInterest, duePeriod;
    }

    function AccruedMargin(now: Timestamp): nat
      reads this, lppLoan
      requires marginPaidBy <= now
    {
      Accrued(marginInterest, lppLoan.principalDue, now - marginPaidBy)
    }

    function StateAt(now: Timestamp): State
      reads this, lppLoan
      requires marginPaidBy <= now
    {
      AccruedSplit(Terms(marginInterest, duePeriod), Abstract(), now)
    }

    function Abstract(): LeaseState
      reads this, lppLoan
    {
      LeaseState(lppLoan.State(), marginPaidBy)
    }

    method RepayMargin(principalDue: nat, marginPaid: nat, upTo: Timestamp) returns (change: nat)
      requires marginPaidBy <= upTo
      modifies this
      ensures old(marginPaidBy) <= marginPaidBy <= upTo
      ensures marginPaidBy ==
        old(marginPaidBy) + Pay(marginInterest, principalDue, marginPaid, upTo - old(marginPaidBy)).paidFor
      ensures change == Pay(marginInterest, principalDue, marginPaid, upTo - old(marginPaidBy)).change
    {
      RequotedInterest(marginInterest, principalDue, marginPaid, upTo - marginPaidBy);
      var payment := Pay(marginInterest, principalDue, marginPaid, upTo - marginPaidBy);
      marginPaidBy := marginPaidBy + payment.paidFor;
      change := payment.change;
    }

    method Repay(payment: nat, upTo: Timestamp, profit: Sender) returns (receipt: Receipt)
      requires marginPaidBy <= upTo
      modifies this, lppLoan, profit
      ensures receipt == Waterfall(old(StateAt(upTo)), payment)
      ensures receipt.Total() == payment && InPriority(old(StateAt(upTo)), receipt)
      ensures receipt.close <==> lppLoan.principalDue == 0
      ensures profit.sent == old(profit.sent) + receipt.Margin()
      ensures old(marginPaidBy) <= marginPaidBy <= upTo
      ensures Abstract() == AfterPayment(Terms(marginInterest, duePeriod), old(Abstract()), Repayment(upTo, payment))
      ensures lppLoan.principalDue + receipt.principal == old(lppLoan.principalDue)
      ensures Repaid(old(lppLoan.State()), upTo, RepayShares(receipt.Interest(), receipt.principal, 0), lppLoan.State())
      // what is left of the interest and margin is quoted again, but for rounding in favour of the lenders
      ensures var rest := old(AccruedMargin(upTo)) - receipt.Margin();
        && AccruedMargin(upTo) <= rest + 1 + AnnualInterest(marginInterest, old(lppLoan.principalDue)) / YEAR
        && (rest == 0 ==> AccruedMargin(upTo) == 0)
        && (receipt.principal == 0 ==> rest <= AccruedMargin(upTo))
    {
      hide Accrued, Pay, Waterfall, AccruedSplit, SharesOf, AfterRepay, InPriority, Repaid, InterestDue;
      var s := StateAt(upTo);
      ghost var t, l := Terms(marginInterest, duePeriod), Abstract();
      PaymentFacts(t, l, Repayment(upTo, payment));
      receipt := Waterfall(s, payment);
      var marginChange := RepayMargin(s.principalDue, receipt.Margin(), upTo);
      assert marginChange == 0;
      profit.Send(receipt.Margin());
      var shares := lppLoan.Repay(upTo, receipt.Interest() + receipt.principal);
      assert shares.interest == receipt.Interest();
      assert shares.principal == receipt.principal;
      assert shares.excess == 0;
    }

    /** Closes the lease: the reserve covers what the payment is short of, the customer gets back what it
        exceeds the total due with. Nothing stays due. */
    method CloseFull(payment: nat, now: Timestamp, profit: Sender, reserve: Sender, customer: Sender)
      returns (receipt: Receipt)
      requires marginPaidBy <= now
      requires profit != reserve && profit != customer && reserve != customer
      modifies this, lppLoan, profit, reserve, customer
      ensures var due := old(StateAt(now)).TotalDue();
        && reserve.sent == old(reserve.sent) + (if due > payment then due - payment else 0)
        && customer.sent == old(customer.sent) + (if payment > due then payment - due else 0)
        && profit.sent == old(profit.sent) + old(AccruedMargin(now))
        && receipt.Interest() + receipt.principal + receipt.Margin() == due
      ensures receipt.close && lppLoan.principalDue == 0
      ensures marginPaidBy <= now && StateAt(now).TotalDue() == 0
    {
      hide Accrued, Waterfall, Pay, SharesOf, AfterRepay, AfterPayment, InPriority, AccruedSplit, Repaid;
      var totalDue := StateAt(now).TotalDue();
      WaterfallAgrees(StateAt(now), Max(totalDue, payment), lppLoan.State(), marginInterest, now - marginPaidBy, now);
      var enough := payment;
      if totalDue > payment {
        reserve.Send(totalDue - payment);
        enough := totalDue;
      }
      receipt := Repay(enough, now, profit);
      PaidOff(Terms(marginInterest, duePeriod), Abstract(), now);
      customer.Send(receipt.change);
    }
  }

  // ----- Runs of payments -----

  lemma PaymentStep(t: Terms, l: LeaseState, r: Repayment)
    requires l.marginPaidBy <= r.at
    ensures var receipt, l' := ReceiptOf(t, l, r), AfterPayment(t, l, r);
      && receipt.Total() == r.amount
      && l'.loan.principalDue + receipt.principal == l.loan.principalDue
      && l.marginPaidBy <= l'.marginPaidBy <= r.at
      && l.loan.interestPaid <= l'.loan.interestPaid <= Max(r.at, l.loan.interestPaid)
      && l'.loan.annualInterestRate == l.loan.annualInterestRate
      && (l.loan.principalDue == 0 ==> receipt.change == r.amount)
  {
    hide Accrued, Pay, SharesOf, AfterRepay, InPriority, Waterfall, AccruedSplit;
    var s, receipt := AccruedSplit(t, l, r.at), ReceiptOf(t, l, r);
    WaterfallAgrees(s, r.amount, l.loan, t.marginInterest, r.at - l.marginPaidBy, r.at);
    RepaidAfter(l.loan, r.at, receipt.Interest() + receipt.principal);
    RequotedInterest(t.marginInterest, l.loan.principalDue, receipt.Margin(), r.at - l.marginPaidBy);
    if l.loan.principalDue == 0 {
      NoPrincipalNoInterest(t.marginInterest, r.at - l.marginPaidBy);
      NoPrincipalNoInterest(l.loan.annualInterestRate, DuePeriod(l.loan, r.at));
    }
  }

  /** The payments come at or after the time up to which the margin is paid, in the order of time. */
  ghost predicate InTime(from: Timestamp, payments: seq<Repayment>)
    decreases |payments|
  {
    payments == [] || (from <= payments[0].at && InTime(payments[0].at, payments[1..]))
  }

  datatype Totals = Totals(interest: nat, margin: nat, principal: nat, change: nat)

  lemma InTimeEarlier(from: Timestamp, earlier: Timestamp, payments: seq<Repayment>)
    requires InTime(from, payments) && earlier <= from
    ensures InTime(earlier, payments)
  {}

  /** The loan and the totals after a run of payments. */
  ghost function Run(t: Terms, l: LeaseState, payments: seq<Repayment>): (LeaseState, Totals)
    requires InTime(l.marginPaidBy, payments)
    decreases |payments|
  {
    if payments == [] then (l, Totals(0, 0, 0, 0))
    else
      PaymentStep(t, l, payments[0]);
      InTimeEarlier(payments[0].at, AfterPayment(t, l, payments[0]).marginPaidBy, payments[1..]);
      var receipt := ReceiptOf(t, l, payments[0]);
      var (l', rest) := Run(t, AfterPayment(t, l, payments[0]), payments[1..]);
      (l', Totals(receipt.Interest() + rest.interest, receipt.Margin() + rest.margin,
        receipt.principal + rest.principal, receipt.change + rest.change))
  }

  ghost function Paid(payments: seq<Repayment>): nat {
    if payments == [] then 0 else payments[0].amount + Paid(payments[1..])
  }

  /** Over any run of payments nothing gets lost: what was paid is the interest, the margin, the principal
      and the change together, the principal paid is what the principal due went down with, and the margin
      is never paid beyond the time of the last payment. Nothing is charged on a loan paid off. */
  lemma {:induction false} RunConserves(t: Terms, l: LeaseState, payments: seq<Repayment>)
    requires InTime(l.marginPaidBy, payments)
    ensures var (l', totals) := Run(t, l, payments);
      && totals.interest + totals.margin + totals.principal + totals.change == Paid(payments)
      && l'.loan.principalDue + totals.principal == l.loan.principalDue
      && l.marginPaidBy <= l'.marginPaidBy <= (if payments == [] then l.marginPaidBy else payments[|payments| - 1].at)
      && l.loan.interestPaid <= l'.loan.interestPaid
      && l'.loan.annualInterestRate == l.loan.annualInterestRate
      && (l.loan.principalDue == 0 ==> totals == Totals(0, 0, 0, Paid(payments)))
    decreases |payments|
  {
    hide Accrued, Pay, SharesOf, AfterRepay, AccruedSplit, Waterfall, ReceiptOf, AfterPayment;
    if payments != [] {
      PaymentStep(t, l, payments[0]);
      var l1 := AfterPayment(t, l, payments[0]);
      InTimeEarlier(payments[0].at, l1.marginPaidBy, payments[1..]);
      RunConserves(t, l1, payments[1..]);
    }
  }
}
