/** The migration of leases in pages. */
module Migration {
  import opened Wrappers
  import opened Addresses

  const MAX_LEASES_LIMIT: nat := 0x1_0000_0000

  type MaxLeases = n: nat | n < MAX_LEASES_LIMIT
  type Code = nat

  datatype Error = TooManyLeases | Loading(code: nat)

  datatype Customer = Customer(addr: Addr, leases: seq<Addr>)

  type MaybeCustomer = Result<Customer, Error>

  datatype Migrate = Migrate(lease: Addr, code: Code)

  datatype MigrationResult = MigrationResult(msgs: seq<Migrate>, nextCustomer: Option<Addr>)

  ghost function Messages(leases: seq<Addr>, code: Code): (msgs: seq<Migrate>)
    ensures |msgs| == |leases| && forall i :: 0 <= i < |leases| ==> msgs[i] == Migrate(leases[i], code)
  {
    if leases == [] then [] else Messages(leases[..|leases| - 1], code) + [Migrate(leases[|leases| - 1], code)]
  }

  /** The outcome for one customer: all of its leases are migrated, or none for the lack of room. */
  datatype Step = Migrated | NoRoom | Failed(error: Error)

  ghost predicate AllLoaded(customers: seq<MaybeCustomer>) {
    forall i :: 0 <= i < |customers| ==> customers[i].Success?
  }

  /** The leases of the customers, in order. */
  ghost function LeasesOf(customers: seq<MaybeCustomer>): seq<Addr>
    requires AllLoaded(customers)
  {
    if customers == [] then []
    else LeasesOf(customers[..|customers| - 1]) + customers[|customers| - 1].value.leases
  }

  /** The first `k` customers are loaded, and all their leases together fit. */
  ghost predicate Fits(customers: seq<MaybeCustomer>, k: nat, maxLeases: MaxLeases) {
    k <= |customers| && AllLoaded(customers[..k]) && |LeasesOf(customers[..k])| <= maxLeases
  }

  lemma LeasesOfStep(customers: seq<MaybeCustomer>, k: nat)
    requires k < |customers| && AllLoaded(customers[..k + 1])
    ensures AllLoaded(customers[..k])
    ensures LeasesOf(customers[..k + 1]) == LeasesOf(customers[..k]) + customers[k].value.leases
  {
    assert customers[..k + 1][..k] == customers[..k];
    forall i | 0 <= i < k ensures customers[..k][i].Success? {
      assert customers[..k + 1][i].Success?;
    }
    assert customers[..k + 1][k].Success?;
  }

  /** A page ends after `k` customers: those fit, one more does not. */
  ghost predicate IsPage(customers: seq<MaybeCustomer>, k: nat, maxLeases: MaxLeases) {
    Fits(customers, k, maxLeases) && (k < |customers| ==> !Fits(customers, k + 1, maxLeases))
  }

  /** Where the page ends, given that the first `k` customers fit. */
  ghost function PageEnd(customers: seq<MaybeCustomer>, k: nat, maxLeases: MaxLeases): (end: nat)
    requires Fits(customers, k, maxLeases)
    ensures k <= end <= |customers| && IsPage(customers, end, maxLeases)
    decreases |customers| - k
  {
    if k < |customers| && Fits(customers, k + 1, maxLeases) then PageEnd(customers, k + 1, maxLeases) else k
  }

  /** What a page of the first `k` customers comes to. */
  ghost function PageResult(customers: seq<MaybeCustomer>, k: nat, leaseCode: Code): Result<MigrationResult, Error>
    requires k <= |customers| && AllLoaded(customers[..k])
  {
    var msgs := Messages(LeasesOf(customers[..k]), leaseCode);
    if k == |customers| then Success(MigrationResult(msgs, None))
    else match customers[k]
      case Failure(error) => Failure(error)
      case Success(customer) =>
        if |customer.leases| >= MAX_LEASES_LIMIT then Failure(TooManyLeases)
        else Success(MigrationResult(msgs, Some(customer.addr)))
  }

  lemma MessagesSum(a: seq<Addr>, b: seq<Addr>, code: Code)
    ensures Messages(a + b, code) == Messages(a, code) + Messages(b, code)
  {}

  lemma {:induction false} FitsDownwards(customers: seq<MaybeCustomer>, j: nat, k: nat, maxLeases: MaxLeases)
    requires j <= k && Fits(customers, k, maxLeases)
    ensures Fits(customers, j, maxLeases)
    decreases k
  {
    if j < k {
      LeasesOfStep(customers, k - 1);
      FitsDownwards(customers, j, k - 1, maxLeases);
    }
  }

  /** A page is the longest run of customers, from the first one on, whose leases fit. */
  lemma PageLongest(customers: seq<MaybeCustomer>, k: nat, maxLeases: MaxLeases)
    requires IsPage(customers, k, maxLeases)
    ensures forall j: nat :: Fits(customers, j, maxLeases) <==> j <= k
  {
    forall j: nat ensures Fits(customers, j, maxLeases) <==> j <= k {
      if j <= k {
        FitsDownwards(customers, j, k, maxLeases);
      } else if Fits(customers, j, maxLeases) {
        FitsDownwards(customers, k + 1, j, maxLeases);
      }
    }
  }

  class MigrateBatch {
    const newCode: Code
    var leasesLeft: MaxLeases
    var msgs: seq<Migrate>

    constructor (newCode: Code, maxLeases: MaxLeases)
      ensures this.newCode == newCode && leasesLeft == maxLeases && msgs == []
    {
      this.newCode, leasesLeft, msgs := newCode, maxLeases, [];
    }

    method MigrateLeases(leases: seq<Addr>) returns (step: Step)
      modifies this
      ensures step ==
        if |leases| >= MAX_LEASES_LIMIT then Failed(TooManyLeases)
        else if |leases| <= old(leasesLeft) then Migrated else NoRoom
      ensures step.Migrated? ==>
        leasesLeft == old(leasesLeft) - |leases| && msgs == old(msgs) + Messages(leases, newCode)
      ensures !step.Migrated? ==> leasesLeft == old(leasesLeft) && msgs == old(msgs)
    {
      if |leases| >= MAX_LEASES_LIMIT {
        return Failed(TooManyLeases);
      }
      if |leases| > leasesLeft {
        return NoRoom;
      }
      leasesLeft := leasesLeft - |leases|;
      for i := 0 to |leases|
        invariant msgs == old(msgs) + Messages(leases[..i], newCode)
        invariant leasesLeft == old(leasesLeft) - |leases|
      {
        msgs := msgs + [Migrate(leases[i], newCode)];
        assert leases[..i + 1][..i] == leases[..i];
      }
      assert leases[..|leases|] == leases;
      return Migrated;
    }

    /** Nothing if all of the customer's leases have been migrated, otherwise the customer to be next. */
    method MigrateOrBeNext(customer: Customer) returns (next: Option<Result<Addr, Error>>)
      modifies this
      ensures next.None? <==> |customer.leases| <= old(leasesLeft)
      ensures next.None? ==>
        leasesLeft == old(leasesLeft) - |customer.leases| && msgs == old(msgs) + Messages(customer.leases, newCode)
      ensures next.Some? ==> leasesLeft == old(leasesLeft) && msgs == old(msgs)
      ensures next.Some? ==>
        next.value == if |customer.leases| >= MAX_LEASES_LIMIT then Failure(TooManyLeases) else Success(customer.addr)
    {
      var step := MigrateLeases(customer.leases);
      match step
      case Migrated => next := None;
      case NoRoom => next := Some(Success(customer.addr));
      case Failed(error) => next := Some(Failure(error));
    }
  }

  /** A page migrates the longest run of customers from the first one on whose leases fit, no customer
      being split, and tells the one to go on with. */
  method MigrateLeases(customers: seq<MaybeCustomer>, leaseCode: Code, maxLeases: MaxLeases)
    returns (r: Result<MigrationResult, Error>)
    ensures Fits(customers, 0, maxLeases)
    ensures r == PageResult(customers, PageEnd(customers, 0, maxLeases), leaseCode)
  {
    var batch := new MigrateBatch(leaseCode, maxLeases);
    var i := 0;
    while i < |customers|
      invariant 0 <= i <= |customers| && Fits(customers, 0, maxLeases) && Fits(customers, i, maxLeases)
      invariant PageEnd(customers, 0, maxLeases) == PageEnd(customers, i, maxLeases)
      invariant batch.leasesLeft == maxLeases - |LeasesOf(customers[..i])|
      invariant batch.msgs == Messages(LeasesOf(customers[..i]), leaseCode) && batch.newCode == leaseCode
    {
      match customers[i]
      case Failure(error) =>
        assert !customers[..i + 1][i].Success?;
        return Failure(error);
      case Success(customer) =>
        assert forall j :: 0 <= j < i ==> customers[..i + 1][j] == customers[..i][j];
        LeasesOfStep(customers, i);
        var next := batch.MigrateOrBeNext(customer);
        match next
        case Some(Success(addr)) => return Success(MigrationResult(batch.msgs, Some(addr)));
        case Some(Failure(error)) => return Failure(error);
        case None =>
          MessagesSum(LeasesOf(customers[..i]), customer.leases, leaseCode);
          i := i + 1;
    }
    return Success(MigrationResult(batch.msgs, None));
  }

  /** What the first customer `k` that fails to load, or whose leases do not fit, leads to: its error, or to go
      on with it after the leases of all those before it. Without one all the leases are migrated. */
  lemma PageOutcome(customers: seq<MaybeCustomer>, k: nat, leaseCode: Code, maxLeases: MaxLeases)
    requires Fits(customers, k, maxLeases)
    requires k < |customers| ==> customers[k].Failure? || !Fits(customers, k + 1, maxLeases)
    ensures Fits(customers, 0, maxLeases) && PageEnd(customers, 0, maxLeases) == k
    ensures var leases := LeasesOf(customers[..k]);
      var r := PageResult(customers, PageEnd(customers, 0, maxLeases), leaseCode);
      if k == |customers| then r == Success(MigrationResult(Messages(leases, leaseCode), None))
      else if customers[k].Failure? then r == Failure(customers[k].error)
      else if |customers[k].value.leases| >= MAX_LEASES_LIMIT then r == Failure(TooManyLeases)
      else r == Success(MigrationResult(Messages(leases, leaseCode), Some(customers[k].value.addr)))
  {
    PageLongest(customers, k, maxLeases);
    PageLongest(customers, PageEnd(customers, 0, maxLeases), maxLeases);
  }

  // ----- Following the pages over a fixed list of customers -----

  ghost predicate Ascending(customers: seq<Customer>) {
    forall i, j :: 0 <= i < j < |customers| ==> customers[i].addr < customers[j].addr
  }

  ghost function AllLeases(customers: seq<Customer>): seq<Addr> {
    if customers == [] then [] else AllLeases(customers[..|customers| - 1]) + customers[|customers| - 1].leases
  }

  /** The leases of each customer are there, one after the other, after those of the customers before. */
  lemma {:induction false} AllLeasesAt(customers: seq<Customer>, k: nat)
    requires k < |customers|
    ensures var before, leases := |AllLeases(customers[..k])|, customers[k].leases;
      && AllLeases([]) == [] && |AllLeases(customers[..k + 1])| == before + |leases| <= |AllLeases(customers)|
      && AllLeases(customers)[before..before + |leases|] == leases
    decreases |customers|
  {
    var n, init := |customers| - 1, customers[..|customers| - 1];
    if k == n {
      assert customers[..k + 1] == customers;
    } else {
      AllLeasesAt(init, k);
      assert init[..k] == customers[..k] && init[..k + 1] == customers[..k + 1];
    }
  }

  /** The key to start from: none at the customer `k == 0`, otherwise that of the customer `k`. */
  ghost predicate StartsAt(customers: seq<Customer>, from: Option<Addr>, k: nat) {
    if from.None? then k == 0 else k < |customers| && from.value == customers[k].addr
  }

  /** The customers as loaded from the storage, from the key `from` on. */
  method Load(customers: seq<Customer>, from: Option<Addr>, ghost k: nat) returns (loaded: seq<MaybeCustomer>)
    requires Ascending(customers) && StartsAt(customers, from, k) && k <= |customers|
    ensures |loaded| == |customers| - k
    ensures forall i :: 0 <= i < |loaded| ==> loaded[i] == Success(customers[k + i])
  {
    var start := 0;
    if from.Some? {
      while start < |customers| && customers[start].addr < from.value
        invariant 0 <= start <= k
      {
        start := start + 1;
      }
    }
    loaded := [];
    for i := start to |customers|
      invariant |loaded| == i - k && forall j :: 0 <= j < |loaded| ==> loaded[j] == Success(customers[k + j])
    {
      loaded := loaded + [Success(customers[i])];
    }
  }

  lemma {:induction false} LoadedLeases(customers: seq<Customer>, k: nat, loaded: seq<MaybeCustomer>, m: nat)
    requires k + m <= |customers| && m <= |loaded|
    requires forall i :: 0 <= i < m ==> loaded[i] == Success(customers[k + i])
    ensures AllLoaded(loaded[..m])
    ensures AllLeases(customers[..k + m]) == AllLeases(customers[..k]) + LeasesOf(loaded[..m])
  {
    if m > 0 {
      LoadedLeases(customers, k, loaded, m - 1);
      LeasesOfStep(loaded, m - 1);
      assert customers[..k + m][..k + m - 1] == customers[..k + (m - 1)];
    }
  }

  /** The first customer with more leases than a page takes, if there is one. */
  ghost predicate FirstTooLarge(customers: seq<Customer>, maxLeases: MaxLeases, k: nat) {
    && k <= |customers|
    && (forall i :: 0 <= i < k ==> |customers[i].leases| <= maxLeases)
    && (k < |customers| ==> |customers[k].leases| > maxLeases)
  }

  datatype Outcome = Completed | Stuck(customer: Addr) | Aborted(error: Error)

  lemma {:induction false} LeasesFit(loaded: seq<MaybeCustomer>, m: nat, i: nat)
    requires i < m <= |loaded| && AllLoaded(loaded[..m])
    ensures loaded[i].Success? && |loaded[i].value.leases| <= |LeasesOf(loaded[..m])|
  {
    LeasesOfStep(loaded, m - 1);
    if i < m - 1 {
      LeasesFit(loaded, m - 1, i);
    } else {
      assert loaded[..m][i].Success?;
    }
  }

  lemma PageOfLoaded(customers: seq<Customer>, k: nat, loaded: seq<MaybeCustomer>, m: nat, maxLeases: MaxLeases)
    requires k + |loaded| == |customers| && forall i :: 0 <= i < |loaded| ==> loaded[i] == Success(customers[k + i])
    requires IsPage(loaded, m, maxLeases)
    ensures AllLoaded(loaded[..m]) && AllLeases(customers[..k + m]) == AllLeases(customers[..k]) + LeasesOf(loaded[..m])
    ensures forall i :: k <= i < k + m ==> |customers[i].leases| <= maxLeases
    ensures m == 0 && loaded != [] ==> |customers[k].leases| > maxLeases
  {
    LoadedLeases(customers, k, loaded, m);
    forall i | k <= i < k + m ensures |customers[i].leases| <= maxLeases {
      LeasesFit(loaded, m, i - k);
    }
    if m == 0 && loaded != [] {
      assert loaded[..1] == [loaded[0]] && loaded[..1][..0] == [];
      assert LeasesOf(loaded[..1]) == loaded[0].value.leases;
    }
  }

  /** The page of the customers from `k` on before `end`. */
  ghost predicate PageBetween(customers: seq<Customer>, leaseCode: Code, maxLeases: MaxLeases, k: nat, end: nat,
      page: Result<MigrationResult, Error>)
  {
    && k <= end <= |customers| && (forall i :: k <= i < end ==> |customers[i].leases| <= maxLeases)
    && (end == k < |customers| ==> |customers[k].leases| > maxLeases)
    && (page.Failure? <==> end < |customers| && |customers[end].leases| >= MAX_LEASES_LIMIT)
    && (page.Success? ==>
         Messages(AllLeases(customers[..end]), leaseCode) ==
           Messages(AllLeases(customers[..k]), leaseCode) + page.value.msgs)
    && (page.Success? ==> page.value.nextCustomer == if end == |customers| then None else Some(customers[end].addr))
  }

  /** One message of the paged migration, the page starting at the customer `k`. */
  method MigratePage(customers: seq<Customer>, from: Option<Addr>, leaseCode: Code, maxLeases: MaxLeases, ghost k: nat)
    returns (page: Result<MigrationResult, Error>)
    requires Ascending(customers) && k <= |customers| && StartsAt(customers, from, k)
    ensures exists end: nat :: PageBetween(customers, leaseCode, maxLeases, k, end, page)
  {
    hide Messages, AllLeases, LeasesOf, AllLoaded, IsPage;
    var loaded := Load(customers, from, k);
    page := MigrateLeases(loaded, leaseCode, maxLeases);
    ghost var m := PageEnd(loaded, 0, maxLeases);
    PageOfLoaded(customers, k, loaded, m, maxLeases);
    MessagesSum(AllLeases(customers[..k]), LeasesOf(loaded[..m]), leaseCode);
    assert PageBetween(customers, leaseCode, maxLeases, k, k + m, page);
  }

  ghost predicate DoneBefore(customers: seq<Customer>, leaseCode: Code, maxLeases: MaxLeases, k: nat,
      msgs: seq<Migrate>)
  {
    FirstTooLarge(customers, maxLeases, k) && msgs == Messages(AllLeases(customers[..k]), leaseCode)
  }

  /** Follows the continuation keys until there is none, or the same key comes again. All the leases are
      migrated, each exactly once and in order, exactly when no customer has more of them than a page takes.
      Otherwise it is the first such customer that decides: it gets stuck there, those before it being done,
      or, when its leases are too many even to be counted, a page fails. */
  method MigrateAll(customers: seq<Customer>, leaseCode: Code, maxLeases: MaxLeases)
    returns (msgs: seq<Migrate>, outcome: Outcome)
    requires Ascending(customers)
    ensures outcome.Completed? <==> FirstTooLarge(customers, maxLeases, |customers|)
    ensures outcome.Completed? ==> msgs == Messages(AllLeases(customers), leaseCode)
    ensures outcome.Stuck? ==>
      exists k: nat :: DoneBefore(customers, leaseCode, maxLeases, k, msgs) && k < |customers| &&
        outcome.customer == customers[k].addr &&
        |customers[k].leases| < MAX_LEASES_LIMIT
    ensures outcome.Aborted? ==>
      exists k: nat :: FirstTooLarge(customers, maxLeases, k) && k < |customers| &&
        |customers[k].leases| >= MAX_LEASES_LIMIT
  {
    var from: Option<Addr> := None;
    ghost var k: nat := 0;
    msgs := [];
    while true
      invariant k <= |customers| && StartsAt(customers, from, k)
      invariant msgs == Messages(AllLeases(customers[..k]), leaseCode)
      invariant forall i :: 0 <= i < k ==> |customers[i].leases| <= maxLeases
      decreases |customers| - k, from.None?
    {
      hide Messages, AllLeases;
      var page := MigratePage(customers, from, leaseCode, maxLeases, k);
      ghost var end: nat :| PageBetween(customers, leaseCode, maxLeases, k, end, page);
      if page.Failure? {
        assert FirstTooLarge(customers, maxLeases, end);
        return msgs, Aborted(page.error);
      }
      msgs := msgs + page.value.msgs;
      if page.value.nextCustomer.None? {
        assert customers[..end] == customers;
        return msgs, Completed;
      }
      if page.value.nextCustomer == from {
        assert k == end;
        assert DoneBefore(customers, leaseCode, maxLeases, k, msgs);
        return msgs, Stuck(from.value);
      }
      from, k := page.value.nextCustomer, end;
    }
  }
}
