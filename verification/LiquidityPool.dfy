/** The utilization of the liquidity pool, and how much more may be deposited. */
module LiquidityPool {
  import opened Wrappers
  import opened Arithmetic
  import opened Fractions
  import opened Interest

  /** The share of the pool that is lent out, `balance` being what is not. */
  function Utilization(balance: nat, totalDue: nat): Percent {
    if balance == 0 then HUNDRED_PERCENT else Of(HUNDRED_PERCENT, totalDue, totalDue + balance)
  }

  /** What the capacity is computed from; the subtractions are those of the program. */
  function CapacityOver(balance: nat, totalDue: nat, minUtilization: Percent): int
    requires minUtilization > 0
  {
    Of(totalDue, HUNDRED_PERCENT, minUtilization) - balance - totalDue
  }

  /** All of an empty balance is lent out. */
  lemma FullyUtilized(totalDue: nat)
    ensures Utilization(0, totalDue) == HUNDRED_PERCENT
  {}

  lemma UtilizationAtLeast(balance: nat, totalDue: nat, min: nat)
    requires 0 < balance && min <= HUNDRED_PERCENT
    ensures Utilization(balance, totalDue) >= min <==> min * (totalDue + balance) <= 1000 * totalDue
  {
    FloorReaches(1000 * totalDue, totalDue + balance, min);
  }

  /** Whenever the utilization exceeds the minimum the capacity does not underflow. */
  lemma CapacityFits(balance: nat, totalDue: nat, min: Percent)
    requires 0 < min <= HUNDRED_PERCENT && Utilization(balance, totalDue) > min
    ensures CapacityOver(balance, totalDue, min) >= 0
  {
    var total := totalDue + balance;
    if balance > 0 {
      UtilizationAtLeast(balance, totalDue, min);
      FloorAtLeast(totalDue * 1000, min, total);
    } else {
      MulMono(min, 1000, totalDue);
      FloorAtLeast(totalDue * 1000, min, totalDue);
    }
  }

  /** How much may be deposited before the utilization falls below the minimum, if there is one. */
  function DepositCapacity(balance: nat, totalDue: nat, minUtilization: Percent): (r: Option<nat>)
    requires minUtilization <= HUNDRED_PERCENT
  {
    if minUtilization == 0 then None
    else if Utilization(balance, totalDue) > minUtilization then
      CapacityFits(balance, totalDue, minUtilization);
      Some(CapacityOver(balance, totalDue, minUtilization))
    else Some(0)
  }

  /** There is no limit exactly if there is no minimum; at or below the minimum nothing may be deposited. */
  lemma CapacityCases(balance: nat, totalDue: nat, min: Percent)
    requires min <= HUNDRED_PERCENT
    ensures DepositCapacity(balance, totalDue, min).None? <==> min == 0
    ensures 0 < min && Utilization(balance, totalDue) <= min ==> DepositCapacity(balance, totalDue, min) == Some(0)
    ensures 0 < min && balance > 0 && 1000 * totalDue < min * (totalDue + balance) ==>
      DepositCapacity(balance, totalDue, min) == Some(0)
  {
    if balance > 0 && 0 < min {
      UtilizationAtLeast(balance, totalDue, min);
    }
  }

  /** Whenever the utilization exceeds the minimum the capacity is tight: depositing it keeps the utilization
      at or above the minimum, depositing one unit more does not. */
  lemma CapacityTight(balance: nat, totalDue: nat, min: Percent)
    requires 0 < min <= HUNDRED_PERCENT && Utilization(balance, totalDue) > min
    ensures var capacity := DepositCapacity(balance, totalDue, min).value;
      && Utilization(balance + capacity, totalDue) >= min
      && Utilization(balance + capacity + 1, totalDue) < min
  {
    CapacityFits(balance, totalDue, min);
    var capacity := DepositCapacity(balance, totalDue, min).value;
    var total := FloorBounds(totalDue * 1000, min);
    assert total == totalDue + balance + capacity;
    if balance + capacity > 0 {
      UtilizationAtLeast(balance + capacity, totalDue, min);
    }
    UtilizationAtLeast(balance + capacity + 1, totalDue, min);
  }

  /** How much the depositors may add at most while the utilization stays at or above the minimum. */
  ghost predicate Allowed(balance: nat, totalDue: nat, min: Percent, deposit: nat) {
    Utilization(balance + deposit, totalDue) >= min
  }

  lemma AllowedDownwards(balance: nat, totalDue: nat, min: Percent, less: nat, more: nat)
    requires 0 < min <= HUNDRED_PERCENT && less <= more && Allowed(balance, totalDue, min, more)
    ensures Allowed(balance, totalDue, min, less)
  {
    if balance + less > 0 {
      UtilizationAtLeast(balance + less, totalDue, min);
      UtilizationAtLeast(balance + more, totalDue, min);
      MulMono(totalDue + balance + less, totalDue + balance + more, min);
    }
  }

  lemma AllowedUpTo(balance: nat, totalDue: nat, min: Percent, capacity: nat)
    requires 0 < min <= HUNDRED_PERCENT
    requires Allowed(balance, totalDue, min, capacity) && !Allowed(balance, totalDue, min, capacity + 1)
    ensures forall deposit: nat :: Allowed(balance, totalDue, min, deposit) <==> deposit <= capacity
  {
    forall deposit: nat ensures Allowed(balance, totalDue, min, deposit) <==> deposit <= capacity {
      if deposit <= capacity {
        AllowedDownwards(balance, totalDue, min, deposit, capacity);
      } else if Allowed(balance, totalDue, min, deposit) {
        AllowedDownwards(balance, totalDue, min, capacity + 1, deposit);
      }
    }
  }

  lemma OneMoreAtMinimum(balance: nat, totalDue: nat, min: Percent)
    requires 0 < min <= HUNDRED_PERCENT && Utilization(balance, totalDue) == min
    ensures Allowed(balance, totalDue, min, 1) <==> CapacityOver(balance, totalDue, min) > 0
    ensures CapacityOver(balance, totalDue, min) >= 0
  {
    var total: nat := totalDue + balance;
    UtilizationAtLeast(balance + 1, totalDue, min);
    FloorReaches(totalDue * 1000, min, total);
    FloorReaches(totalDue * 1000, min, total + 1);
    assert (total + 1) * min == min * (totalDue + (balance + 1));
    if balance > 0 {
      UtilizationAtLeast(balance, totalDue, min);
      assert total * min == min * (totalDue + balance);
    }
  }

  /** The capacity is exactly the largest deposit allowed if the utilization is above the minimum, or at it
      with nothing more to be deposited; and only then. */
  lemma CapacityLargestIff(balance: nat, totalDue: nat, min: Percent)
    requires 0 < min <= HUNDRED_PERCENT
    ensures var capacity, u := DepositCapacity(balance, totalDue, min).value, Utilization(balance, totalDue);
      (forall deposit: nat :: Allowed(balance, totalDue, min, deposit) <==> deposit <= capacity)
      <==>
      (u > min || (u == min && CapacityOver(balance, totalDue, min) == 0))
  {
    var capacity, u := DepositCapacity(balance, totalDue, min).value, Utilization(balance, totalDue);
    if u > min {
      CapacityTight(balance, totalDue, min);
      AllowedUpTo(balance, totalDue, min, capacity);
    } else if u == min {
      OneMoreAtMinimum(balance, totalDue, min);
      if CapacityOver(balance, totalDue, min) == 0 {
        AllowedUpTo(balance, totalDue, min, 0);
      }
    } else {
      assert !Allowed(balance, totalDue, min, 0);
    }
  }

  /** At the minimum, rounded down, there may be room left that the capacity does not tell of. */
  lemma CapacityNotTight()
    ensures Utilization(999, 1000) == 500 && DepositCapacity(999, 1000, 500) == Some(0) && Allowed(999, 1000, 500, 1)
  {}
}
