/** The liability levels of a lease: how much may be borrowed, and how much is to be liquidated. */
module Liability {
  import opened Wrappers
  import opened Arithmetic
  import opened Fractions
  import opened Interest

  datatype Liability = Liability(initial: Percent, healthy: Percent, firstLiqWarn: Percent, secondLiqWarn: Percent,
                                 thirdLiqWarn: Percent, max: Percent)
  {
    predicate Valid() {
      && 0 < initial <= healthy < firstLiqWarn < secondLiqWarn < thirdLiqWarn < max <= HUNDRED_PERCENT
    }

    /** How much may be borrowed on a downpayment. */
    function InitBorrowAmount(downpayment: nat, mayMaxLtd: Option<Percent>): nat
      requires Valid()
    {
      var defaultBorrow := Of(downpayment, initial, HUNDRED_PERCENT - initial);
      match mayMaxLtd
      case None => defaultBorrow
      case Some(maxLtd) => Min(Of(downpayment, maxLtd, HUNDRED_PERCENT), defaultBorrow)
    }

    function AmountToLiquidate(leaseAmount: nat, totalDue: nat): nat
      requires Valid()
    {
      if totalDue < Of(leaseAmount, max, HUNDRED_PERCENT) then 0
      else if leaseAmount <= totalDue then leaseAmount
      else
        var extraLiability := totalDue - Min(totalDue, Of(leaseAmount, healthy, HUNDRED_PERCENT));
        Of(extraLiability, HUNDRED_PERCENT, HUNDRED_PERCENT - healthy)
    }
  }

  lemma RoundedBalance(lh: nat, qh: nat, floor: nat, due: nat, liq: nat, left: nat, rest: nat)
    requires qh <= lh && floor <= due && rest < 1000
    requires floor * 1000 <= lh < floor * 1000 + 1000 && left * 1000 <= lh - qh < left * 1000 + 1000
    requires liq * 1000 - qh <= (due - floor) * 1000 < liq * 1000 - qh + rest
    ensures 0 <= due - liq - left <= 1
  {}

  /** With `h` permille of `lease` rounded down to `floor`, the liquidation `liq` brings the due amount to `h`
      permille of what is left of the lease, rounded down, or one more. */
  lemma Rebalanced(h: nat, lease: nat, due: nat, floor: nat, liq: nat)
    requires 0 < h < 1000 && floor <= due < lease
    requires floor * 1000 <= lease * h < (floor + 1) * 1000
    requires liq * (1000 - h) <= (due - floor) * 1000 < (liq + 1) * (1000 - h)
    ensures liq <= due && liq < lease
    ensures 0 <= (due - liq) - FloorMulDiv(lease - liq, h, 1000) <= 1
  {
    var rest: nat := 1000 - h;
    Distribute(liq, 1000, h);
    Distribute(lease, 1000, h);
    Distribute(rest, liq, 1);
    assert liq * rest < lease * rest;
    MulCancelStrict(liq, lease, rest);
    Distribute(h, lease, liq);
    MulMono(liq, lease, h);
    var left := FloorBounds((lease - liq) * h, 1000);
    RoundedBalance(lease * h, liq * h, floor, due, liq, left, rest);
  }

  /** Below the maximum nothing is liquidated, at or above the lease amount all of it, and otherwise just
      enough for what is left due to be back at the healthy level: the liquidation never exceeds the due
      amount, and leaves it at the healthy percent of what is left, rounded down, or one unit above. */
  lemma LiquidationHeals(l: Liability, lease: nat, due: nat)
    requires l.Valid()
    ensures var liq, cap := l.AmountToLiquidate(lease, due), Of(lease, l.max, HUNDRED_PERCENT);
      && liq <= lease
      && (due < cap ==> liq == 0)
      && (cap <= due && lease <= due ==> liq == lease)
      && (cap <= due < lease ==> (
           && liq <= due
           && 0 <= (due - liq) - Of(lease - liq, l.healthy, HUNDRED_PERCENT) <= 1))
  {
    if Of(lease, l.max, HUNDRED_PERCENT) <= due < lease {
      MulMono(l.healthy, l.max, lease);
      FloorMono(lease * l.healthy, lease * l.max, 1000);
      var floor := FloorBounds(lease * l.healthy, 1000);
      var liq := FloorBounds((due - floor) * 1000, 1000 - l.healthy);
      Rebalanced(l.healthy, lease, due, floor, liq);
    }
  }

  /** The liquidation amount is the amount due, when that is not below the lease amount, only if they are
      the same: otherwise it is the lease amount. */
  lemma FullLiquidation(l: Liability, lease: nat, due: nat)
    requires l.Valid() && lease <= due
    ensures l.AmountToLiquidate(lease, due) == lease
    ensures l.AmountToLiquidate(lease, due) == due <==> lease == due
  {
    var cap := FloorBounds(lease * l.max, 1000);
    MulMono(l.max, 1000, lease);
    assert cap * 1000 <= lease * 1000;
  }

  lemma ShareOfLease(downpayment: nat, initial: Percent, b: nat)
    requires 0 < initial < HUNDRED_PERCENT
    ensures b <= FloorMulDiv(downpayment, initial, HUNDRED_PERCENT - initial) <==>
      b * HUNDRED_PERCENT <= (downpayment + b) * initial
  {
    FloorReaches(downpayment * initial, HUNDRED_PERCENT - initial, b);
    Distribute(b, HUNDRED_PERCENT, initial);
    Distribute(initial, downpayment, b);
  }

  lemma CappedAt(downpayment: nat, maxLtd: Percent, b: nat)
    ensures b <= FloorMulDiv(downpayment, maxLtd, HUNDRED_PERCENT) <==> b * HUNDRED_PERCENT <= downpayment * maxLtd
  {}

  /** The amount lent is the largest that neither exceeds the initial percent of the lease it makes up with
      the downpayment, nor the cap on it, if there is one. */
  lemma BorrowLargest(l: Liability, downpayment: nat, mayMaxLtd: Option<Percent>)
    requires l.Valid()
    ensures forall b: nat :: b <= l.InitBorrowAmount(downpayment, mayMaxLtd) <==>
      && b * HUNDRED_PERCENT <= (downpayment + b) * l.initial
      && (mayMaxLtd.Some? ==> b * HUNDRED_PERCENT <= downpayment * mayMaxLtd.value)
  {
    forall b: nat
      ensures b <= l.InitBorrowAmount(downpayment, mayMaxLtd) <==>
        && b * HUNDRED_PERCENT <= (downpayment + b) * l.initial
        && (mayMaxLtd.Some? ==> b * HUNDRED_PERCENT <= downpayment * mayMaxLtd.value)
    {
      hide FloorMulDiv;
      ShareOfLease(downpayment, l.initial, b);
      if mayMaxLtd.Some? {
        CappedAt(downpayment, mayMaxLtd.value, b);
      }
    }
  }

  /** A lease just opened never asks for a liquidation, whatever the downpayment and the cap. */
  lemma NoLiquidationAtOpening(l: Liability, downpayment: nat, mayMaxLtd: Option<Percent>)
    requires l.Valid()
    ensures var borrow := l.InitBorrowAmount(downpayment, mayMaxLtd);
      l.AmountToLiquidate(downpayment + borrow, borrow) == 0
  {
    var borrow, rest := l.InitBorrowAmount(downpayment, mayMaxLtd), 1000 - l.initial;
    var default := FloorBounds(downpayment * l.initial, rest);
    assert borrow <= default;
    MulMono(borrow, default, rest);
    Distribute(borrow, 1000, l.initial);
    var lease := downpayment + borrow;
    Distribute(l.initial, downpayment, borrow);
    // the amount borrowed is at most the initial percent of the lease, hence at most the healthy one
    assert borrow * 1000 <= lease * l.initial;
    MulMono(l.initial, l.healthy, lease);
    FloorAtLeast(lease * l.healthy, 1000, borrow);
    if lease <= borrow {
      assert downpayment == 0;
      FloorIs(0 * l.initial, rest, 0);
    }
    FloorIs(0 * 1000, 1000 - l.healthy, 0);
  }
}
