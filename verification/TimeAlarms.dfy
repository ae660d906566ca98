/** The contract delivering time alarms. */
module TimeAlarms {
  import opened Wrappers
  import opened Sequences
  import opened Time
  import opened Addresses
  import opened Alarms

  /** What a contract handling an alarm may ask of this one: to add an alarm, or to send out a batch. */
  datatype Call =
    | Add(subscriber: Addr, time: Timestamp, isContract: bool)
    | Dispatch(batch: seq<Addr>)

  function TriedAdd(s: State, now: Timestamp, call: Call): Result<State, Error>
    requires call.Add?
  {
    if call.time < now then Failure(InvalidAlarm)
    else if !call.isContract then Failure(InvalidAddress)
    else Success(Registered(s, call.subscriber, AsSeconds(call.time)))
  }

  ghost function TriedNotify(s: State, batch: seq<Addr>): Result<State, Error> {
    if s.inDelivery != [] then Failure(NonEmptyAlarmsInDeliveryQueue) else Success(SentOut(s, batch))
  }

  class TimeAlarms {
    const timeAlarms: Alarms

    constructor (timeAlarms: Alarms)
      ensures this.timeAlarms == timeAlarms
    {
      this.timeAlarms := timeAlarms;
    }

    method TryAnyAlarm(ctime: Timestamp) returns (remaining: bool)
      ensures remaining <==> exists a :: InRange(timeAlarms.alarms, a, AsSeconds(ctime))
    {
      var s := timeAlarms.AlarmsSelection(ctime);
      remaining := |s| > 0;
      assert remaining ==> s[0] in s;
    }

    method TryAdd(blockTime: Timestamp, isContract: bool, subscriber: Addr, time: Timestamp) returns (r: Option<Error>)
      modifies timeAlarms
      ensures r.None? <==> time >= blockTime && isContract
      ensures r.None? ==> timeAlarms.alarms == old(timeAlarms.alarms)[subscriber := time / NANOS_IN_SECOND]
      ensures timeAlarms.inDelivery == old(timeAlarms.inDelivery)
      ensures TriedAdd(old(timeAlarms.Contents()), blockTime, Add(subscriber, time, isContract)) ==
        if r.None? then Success(timeAlarms.Contents()) else Failure(r.value)
      ensures r.Some? ==> timeAlarms.Contents() == old(timeAlarms.Contents())
    {
      if time < blockTime {
        return Some(InvalidAlarm);
      }
      if !isContract {
        return Some(InvalidAddress);
      }
      timeAlarms.Add(subscriber, time);
      return None;
    }

    /** Sends out the earliest alarms due, unless there are some out already. */
    method TryNotify(ctime: Timestamp, maxCount: nat) returns (r: Result<seq<Addr>, Error>)
      modifies timeAlarms
      ensures r.Failure? <==> old(timeAlarms.inDelivery) != []
      ensures r.Success? ==> IsBatch(old(timeAlarms.alarms), AsSeconds(ctime), maxCount, r.value)
      ensures r.Success? ==> timeAlarms.inDelivery == r.value
      ensures r.Success? ==> timeAlarms.alarms == old(timeAlarms.alarms) - (set a | a in r.value)
      ensures TriedNotify(old(timeAlarms.Contents()), if r.Success? then r.value else []) ==
        if r.Success? then Success(timeAlarms.Contents()) else Failure(r.error)
      ensures r.Failure? ==> timeAlarms.Contents() == old(timeAlarms.Contents())
    {
      var failed := timeAlarms.EnsureNoInDelivery();
      if failed.Some? {
        return Failure(failed.value);
      }
      var s := timeAlarms.AlarmsSelection(ctime);
      var batch := s[..if maxCount < |s| then maxCount else |s|];
      ghost var before := timeAlarms.Contents();
      for i := 0 to |batch|
        invariant timeAlarms.Contents() == SentOut(before, batch[..i])
      {
        timeAlarms.OutForDelivery(batch[i]);
        assert batch[..i + 1] == batch[..i] + [batch[i]];
      }
      assert batch[..|batch|] == batch;
      return Success(batch);
    }

    method LastDelivered() returns (r: Option<Error>)
      modifies timeAlarms
      ensures Delivered(old(timeAlarms.Contents())) ==
        if r.None? then Success(timeAlarms.Contents()) else Failure(r.value)
    {
      r := timeAlarms.LastDelivered();
    }

    method LastFailed(now: Timestamp) returns (r: Option<Error>)
      modifies timeAlarms
      ensures Failed(old(timeAlarms.Contents()), now) ==
        if r.None? then Success(timeAlarms.Contents()) else Failure(r.value)
    {
      r := timeAlarms.LastFailed(now);
    }
  }

  // ----- The protocol -----

  /** What fails leaves no trace. */
  function Committed(s: State, r: Result<State, Error>): State {
    if r.Success? then r.value else s
  }

  ghost function CalledOnce(s: State, now: Timestamp, call: Call): State {
    match call
    case Add(_, _, _) => Committed(s, TriedAdd(s, now, call))
    case Dispatch(batch) => Committed(s, TriedNotify(s, batch))
  }

  /** The calls made during the handling of an alarm. */
  ghost function Called(s: State, now: Timestamp, calls: seq<Call>): State
    decreases |calls|
  {
    if calls == [] then s else Called(CalledOnce(s, now, calls[0]), now, calls[1..])
  }

  /** How the handling of an alarm ends. */
  datatype Handling = Handled(calls: seq<Call>) | Broken(calls: seq<Call>)

  /** A submessage and the reply to it. What a broken one has done is rolled back before the reply. */
  ghost function Replied(s: State, now: Timestamp, h: Handling): Result<State, Error>
    requires s.inDelivery != []
  {
    match h
    case Handled(calls) => Delivered(Called(s, now, calls))
    case Broken(_) => Failed(s, now)
  }

  /** The replies, one after the other. */
  ghost function RepliedAll(s: State, now: Timestamp, hs: seq<Handling>): Result<State, Error>
    decreases |hs|
  {
    if hs == [] then Success(s)
    else if s.inDelivery == [] then Failure(EmptyAlarmsInDeliveryQueue)
    else
      var r := Replied(s, now, hs[0]);
      if r.Failure? then r else RepliedAll(r.value, now, hs[1..])
  }

  /** The call registers an alarm of `a`. */
  predicate Accepted(call: Call, now: Timestamp, a: Addr) {
    call.Add? && call.subscriber == a && call.time >= now && call.isContract
  }

  ghost predicate Adds(calls: seq<Call>, now: Timestamp, a: Addr) {
    exists i :: 0 <= i < |calls| && Accepted(calls[i], now, a)
  }

  /** No address a contract could have is empty. */
  ghost predicate ValidCalls(calls: seq<Call>) {
    forall i :: 0 <= i < |calls| ==> calls[i].Add? && calls[i].isContract ==> calls[i].subscriber != EMPTY
  }

  ghost predicate ValidHandlings(hs: seq<Handling>) {
    forall i :: 0 <= i < |hs| ==> ValidCalls(hs[i].calls)
  }

  lemma AddsTail(calls: seq<Call>, now: Timestamp, a: Addr)
    requires calls != []
    ensures Adds(calls[1..], now, a) ==> Adds(calls, now, a)
  {}

  /** While alarms are out, whatever calls arrive leave the queue as it is, lose no alarm, and change only the
      alarms of those adding one. */
  lemma {:induction false} CalledKeeps(s: State, now: Timestamp, calls: seq<Call>)
    requires s.inDelivery != [] && ValidCalls(calls)
    ensures var s' := Called(s, now, calls);
      && s'.inDelivery == s.inDelivery
      && (EMPTY !in s.alarms ==> EMPTY !in s'.alarms)
      && (forall a :: a in s.alarms ==> a in s'.alarms)
      && (forall a :: !Adds(calls, now, a) ==>
         (a in s'.alarms <==> a in s.alarms) && (a in s.alarms ==> s'.alarms[a] == s.alarms[a]))
    decreases |calls|
  {
    if calls != [] {
      CalledKeeps(CalledOnce(s, now, calls[0]), now, calls[1..]);
      forall a ensures Adds(calls[1..], now, a) ==> Adds(calls, now, a) {
        AddsTail(calls, now, a);
      }
    }
  }

  /** Of the alarms of a subscriber added during the handling of another one it is the last that counts. */
  lemma {:induction false} CalledRegisters(s: State, now: Timestamp, calls: seq<Call>, i: nat, a: Addr)
    requires s.inDelivery != [] && ValidCalls(calls) && i < |calls| && Accepted(calls[i], now, a)
    requires forall j :: i < j < |calls| ==> !Accepted(calls[j], now, a)
    ensures var s' := Called(s, now, calls); a in s'.alarms && s'.alarms[a] == calls[i].time / NANOS_IN_SECOND
    decreases |calls|
  {
    var s1 := CalledOnce(s, now, calls[0]);
    if i == 0 {
      CalledKeeps(s1, now, calls[1..]);
    } else {
      CalledRegisters(s1, now, calls[1..], i - 1, a);
    }
  }

  /** A handling past the `i`-th one has added an alarm of `a`. */
  ghost predicate LaterAdds(hs: seq<Handling>, i: int, now: Timestamp, a: Addr) {
    exists j :: 0 <= j < |hs| && i < j && hs[j].Handled? && Adds(hs[j].calls, now, a)
  }

  lemma LaterAddsTail(hs: seq<Handling>, i: int, now: Timestamp, a: Addr)
    requires hs != [] && i >= 0
    ensures LaterAdds(hs[1..], i - 1, now, a) ==> LaterAdds(hs, i, now, a)
    ensures hs[0].Broken? || !Adds(hs[0].calls, now, a) ==>
      (LaterAdds(hs, -1, now, a) <==> LaterAdds(hs[1..], -1, now, a))
  {}

  ghost predicate Delivering(s: State, now: Timestamp, n: nat) {
    n <= |s.inDelivery| && Distinct(s.inDelivery) && EMPTY !in s.inDelivery && EMPTY !in s.alarms && AsSeconds(now) >= 1
  }

  /** A broken alarm is registered again a second ago, hence due again in the same block. */
  lemma ReplyStep(s: State, now: Timestamp, h: Handling)
    requires Delivering(s, now, 1) && ValidCalls(h.calls)
    ensures Replied(s, now, h).Success?
    ensures var s', a := Replied(s, now, h).value, s.inDelivery[0];
      && s'.inDelivery == s.inDelivery[1..] && EMPTY !in s'.alarms
      && (h.Broken? ==>
           && s' == Registered(s.(inDelivery := s.inDelivery[1..]), a, AsSeconds(now) - 1)
           && InRange(s'.alarms, a, AsSeconds(now)))
      && (forall b :: b in s.alarms ==> b in s'.alarms)
      && (h.Handled? ==> forall b :: !Adds(h.calls, now, b) ==>
         (b in s'.alarms <==> b in s.alarms) && (b in s.alarms ==> s'.alarms[b] == s.alarms[b]))
  {
    CalledKeeps(s, now, h.calls);
  }

  /** What the replies leave of the alarm of `a`: nothing touches it but an alarm of it that broke, or its
      own adding of an alarm. */
  ghost predicate Untouched(s: State, now: Timestamp, hs: seq<Handling>, s': State, a: Addr)
    requires |hs| <= |s.inDelivery|
  {
    (forall i :: 0 <= i < |hs| && hs[i].Broken? ==> s.inDelivery[i] != a) && !LaterAdds(hs, -1, now, a) ==>
      (a in s'.alarms <==> a in s.alarms) && (a in s.alarms ==> s'.alarms[a] == s.alarms[a])
  }

  ghost predicate RegisteredAgain(s: State, now: Timestamp, hs: seq<Handling>, s': State, i: nat)
    requires i < |hs| <= |s.inDelivery| && AsSeconds(now) >= 1
  {
    && s.inDelivery[i] in s'.alarms
    && (s'.alarms[s.inDelivery[i]] == AsSeconds(now) - 1 || LaterAdds(hs, i, now, s.inDelivery[i]))
  }

  lemma UntouchedStep(s: State, now: Timestamp, hs: seq<Handling>, s1: State, s': State, a: Addr)
    requires Delivering(s, now, |hs|) && ValidHandlings(hs) && hs != []
    requires Replied(s, now, hs[0]) == Success(s1) && s1.inDelivery == s.inDelivery[1..]
    requires Untouched(s1, now, hs[1..], s', a)
    ensures Untouched(s, now, hs, s', a)
  {
    ReplyStep(s, now, hs[0]);
    LaterAddsTail(hs, 0, now, a);
    assert forall i :: 0 <= i < |hs[1..]| ==> hs[1..][i] == hs[i + 1] && s1.inDelivery[i] == s.inDelivery[i + 1];
  }

  lemma LaterAddsAll(hs: seq<Handling>, now: Timestamp, a: Addr)
    requires hs != []
    ensures LaterAdds(hs[1..], -1, now, a) ==> LaterAdds(hs, 0, now, a)
  {}

  lemma AgainStep(s: State, now: Timestamp, hs: seq<Handling>, s1: State, s': State, i: nat)
    requires Delivering(s, now, |hs|) && ValidHandlings(hs) && i < |hs| && hs[i].Broken?
    requires Replied(s, now, hs[0]) == Success(s1) && s1.inDelivery == s.inDelivery[1..]
    requires forall a :: a in s1.alarms ==> a in s'.alarms
    requires Untouched(s1, now, hs[1..], s', s.inDelivery[i])
    requires i > 0 ==> RegisteredAgain(s1, now, hs[1..], s', i - 1)
    ensures RegisteredAgain(s, now, hs, s', i)
  {
    var a := s.inDelivery[i];
    ReplyStep(s, now, hs[0]);
    LaterAddsTail(hs, i, now, a);
    if i == 0 {
      LaterAddsAll(hs, now, a);
      assert forall j :: 0 <= j < |hs[1..]| ==> s1.inDelivery[j] != a;
    }
  }

  /** Each reply is to the first alarm in the queue, and takes it out. None of the replies fails. */
  lemma {:induction false} RepliesRun(s: State, now: Timestamp, hs: seq<Handling>)
    requires Delivering(s, now, |hs|) && ValidHandlings(hs)
    ensures RepliedAll(s, now, hs).Success?
    ensures var s' := RepliedAll(s, now, hs).value;
      && s'.inDelivery == s.inDelivery[|hs|..] && EMPTY !in s'.alarms
      && (forall a :: a in s.alarms ==> a in s'.alarms)
      && (forall a :: Untouched(s, now, hs, s', a))
      && (forall i: nat :: i < |hs| && hs[i].Broken? ==> RegisteredAgain(s, now, hs, s', i))
    decreases |hs|
  {
    if hs != [] {
      ReplyStep(s, now, hs[0]);
      var s1 := Replied(s, now, hs[0]).value;
      RepliesRun(s1, now, hs[1..]);
      var s' := RepliedAll(s, now, hs).value;
      forall a ensures Untouched(s, now, hs, s', a) {
        UntouchedStep(s, now, hs, s1, s', a);
      }
      forall i: nat | i < |hs| && hs[i].Broken? ensures RegisteredAgain(s, now, hs, s', i) {
        AgainStep(s, now, hs, s1, s', i);
      }
    }
  }

  lemma BatchDelivering(s: State, now: Timestamp, max: nat, batch: seq<Addr>, n: nat)
    requires s.inDelivery == [] && EMPTY !in s.alarms && IsBatch(s.alarms, AsSeconds(now), max, batch)
    requires n <= |batch| && batch != []
    ensures Delivering(SentOut(s, batch), now, n)
  {
    hide IsBatch;
    BatchEarliest(s.alarms, AsSeconds(now), max, batch);
    assert Distinct(batch) by {
      forall i, j | 0 <= i < j < |batch| ensures batch[i] != batch[j] {
        assert Earlier(s.alarms, batch[i], batch[j]);
      }
    }
    assert batch[0] in batch && s.alarms[batch[0]] < AsSeconds(now) && EMPTY !in batch;
    assert SentOut(s, batch).inDelivery == batch;
  }

  lemma BatchNotEarly(s: State, now: Timestamp, n: nat)
    requires Delivering(s, now, n)
    ensures AsSeconds(now) >= 1
  {}

  lemma NoReplies(s: State, now: Timestamp, hs: seq<Handling>)
    requires hs == []
    ensures RepliedAll(s, now, hs) == Success(s)
  {}

  lemma NotRegistered(s: State, now: Timestamp, batch: seq<Addr>, hs: seq<Handling>, s': State, i: nat)
    requires s.inDelivery == [] && Delivering(SentOut(s, batch), now, |hs|)
    requires i < |batch| && (i < |hs| ==> hs[i].Handled?) && batch[i] in s'.alarms
    requires SentOut(s, batch).inDelivery == batch && Untouched(SentOut(s, batch), now, hs, s', batch[i])
    ensures LaterAdds(hs, -1, now, batch[i])
  {
    hide LaterAdds;
    assert batch[i] in batch;
    assert forall j :: 0 <= j < |hs| && hs[j].Broken? ==> batch[j] != batch[i];
  }

  lemma OthersUntouched(s: State, now: Timestamp, batch: seq<Addr>, hs: seq<Handling>, s': State, a: Addr)
    requires a !in batch && !LaterAdds(hs, -1, now, a) && |hs| <= |batch|
    requires SentOut(s, batch).inDelivery == batch && Untouched(SentOut(s, batch), now, hs, s', a)
    ensures (a in s'.alarms <==> a in s.alarms) && (a in s.alarms ==> s'.alarms[a] == s.alarms[a])
  {
    hide LaterAdds;
    assert forall j :: 0 <= j < |hs| ==> batch[j] in batch;
  }

  /** In every dispatch, after any number of the replies the queue is exactly the rest of the batch, hence
      empty after the last one. No reply fails, and the re-registering never underflows. A subscriber whose
      handling broke is due again in the same block, unless another handling later made it add an alarm. One
      that has been delivered to, or waits to be, has no alarm but one added meanwhile; and the alarms of all
      others, but those added meanwhile, are what they were. */
  lemma DispatchRun(s: State, now: Timestamp, max: nat, batch: seq<Addr>, hs: seq<Handling>)
    requires s.inDelivery == [] && EMPTY !in s.alarms && IsBatch(s.alarms, AsSeconds(now), max, batch)
    requires |hs| <= |batch| && ValidHandlings(hs)
    ensures RepliedAll(SentOut(s, batch), now, hs).Success?
    ensures var s' := RepliedAll(SentOut(s, batch), now, hs).value;
      && s'.inDelivery == batch[|hs|..] && EMPTY !in s'.alarms
      && (forall a :: a in s.alarms && a !in batch ==> a in s'.alarms)
      && (forall i: nat :: i < |hs| && hs[i].Broken? ==>
           && batch[i] in s'.alarms && AsSeconds(now) >= 1
           && (s'.alarms[batch[i]] == AsSeconds(now) - 1 || LaterAdds(hs, i, now, batch[i])))
      && (forall i: nat :: i < |batch| && (i < |hs| ==> hs[i].Handled?) && batch[i] in s'.alarms ==>
           LaterAdds(hs, -1, now, batch[i]))
      && (forall a :: a !in batch && !LaterAdds(hs, -1, now, a) ==>
           && (a in s'.alarms <==> a in s.alarms)
           && (a in s.alarms ==> s'.alarms[a] == s.alarms[a]))
  {
    hide IsBatch, LaterAdds, Untouched, Delivering, RepliedAll;
    var out := SentOut(s, batch);
    assert out.inDelivery == batch;
    if batch == [] {
      NoReplies(out, now, hs);
    } else {
      BatchDelivering(s, now, max, batch, |hs|);
      RepliesRun(out, now, hs);
      var s' := RepliedAll(out, now, hs).value;
      forall i: nat | i < |hs| && hs[i].Broken?
        ensures batch[i] in s'.alarms && AsSeconds(now) >= 1
        ensures s'.alarms[batch[i]] == AsSeconds(now) - 1 || LaterAdds(hs, i, now, batch[i])
      {
        BatchNotEarly(out, now, |hs|);
        assert RegisteredAgain(out, now, hs, s', i);
      }
      forall i: nat | i < |batch| && (i < |hs| ==> hs[i].Handled?) && batch[i] in s'.alarms
        ensures LaterAdds(hs, -1, now, batch[i])
      {
        assert Untouched(out, now, hs, s', batch[i]);
        NotRegistered(s, now, batch, hs, s', i);
      }
      forall a | a !in batch && !LaterAdds(hs, -1, now, a)
        ensures (a in s'.alarms <==> a in s.alarms) && (a in s.alarms ==> s'.alarms[a] == s.alarms[a])
      {
        assert Untouched(out, now, hs, s', a);
        OthersUntouched(s, now, batch, hs, s', a);
      }
      assert forall a :: a in s.alarms && a !in batch ==> a in out.alarms;
    }
  }

  // ----- Runs of transactions -----

  datatype Transaction =
    | Adding(now: Timestamp, call: Call)
    | Dispatching(now: Timestamp, maxCount: nat, handlings: seq<Handling>)

  /** A transaction, `batch` being what it sends out. One that fails leaves no trace. */
  ghost predicate Transacted(s: State, tx: Transaction, batch: seq<Addr>, s': State) {
    match tx
    case Adding(now, call) =>
      call.Add? && ValidCalls([call]) && s' == Committed(s, TriedAdd(s, now, call))
    case Dispatching(now, maxCount, hs) =>
      match TriedNotify(s, batch)
      case Failure(_) => s' == s
      case Success(out) =>
        && IsBatch(s.alarms, AsSeconds(now), maxCount, batch) && |hs| == |batch| && ValidHandlings(hs)
        && s' == Committed(s, RepliedAll(out, now, hs))
  }

  ghost predicate IsRun(states: seq<State>, txs: seq<Transaction>, batches: seq<seq<Addr>>) {
    && |states| == |txs| + 1 == |batches| + 1
    && states[0] == State(map[], [])
    && forall i :: 0 <= i < |txs| ==> Transacted(states[i], txs[i], batches[i], states[i + 1])
  }

  /** The alarm of `a` is one of the batch and has been handled. */
  ghost predicate HandledIn(tx: Transaction, batch: seq<Addr>, a: Addr) {
    tx.Dispatching? && exists k :: 0 <= k < |batch| && k < |tx.handlings| && batch[k] == a && tx.handlings[k].Handled?
  }

  lemma TransactionKeeps(s: State, tx: Transaction, batch: seq<Addr>, s': State)
    requires s.inDelivery == [] && EMPTY !in s.alarms && Transacted(s, tx, batch, s')
    ensures s'.inDelivery == [] && EMPTY !in s'.alarms
    ensures forall a :: a in s.alarms && a !in s'.alarms ==> HandledIn(tx, batch, a)
    ensures tx.Dispatching? ==> RepliedAll(SentOut(s, batch), tx.now, tx.handlings) == Success(s')
  {
    match tx
    case Adding(now, call) =>
      assert [call][0] == call;
    case Dispatching(now, maxCount, hs) =>
      DispatchRun(s, now, maxCount, batch, hs);
      forall a | a in s.alarms && a !in s'.alarms ensures HandledIn(tx, batch, a) {
        var k :| 0 <= k < |batch| && batch[k] == a;
      }
  }

  /** In every run of transactions no dispatch fails, and between them nothing is out for delivery. */
  lemma {:induction false} RunsKeep(states: seq<State>, txs: seq<Transaction>, batches: seq<seq<Addr>>, n: nat)
    requires IsRun(states, txs, batches) && n <= |txs|
    ensures states[n].inDelivery == [] && EMPTY !in states[n].alarms
    ensures n < |txs| && txs[n].Dispatching? ==>
      RepliedAll(SentOut(states[n], batches[n]), txs[n].now, txs[n].handlings) == Success(states[n + 1])
  {
    if n > 0 {
      RunsKeep(states, txs, batches, n - 1);
      assert Transacted(states[n - 1], txs[n - 1], batches[n - 1], states[n - 1 + 1]);
      TransactionKeeps(states[n - 1], txs[n - 1], batches[n - 1], states[n]);
    }
    if n < |txs| {
      assert Transacted(states[n], txs[n], batches[n], states[n + 1]);
      TransactionKeeps(states[n], txs[n], batches[n], states[n + 1]);
    }
  }

  /** In every run an alarm once registered stays so until it is handled. */
  lemma {:induction false} NoAlarmLost(states: seq<State>, txs: seq<Transaction>, batches: seq<seq<Addr>>, m: nat,
      n: nat, a: Addr)
    requires IsRun(states, txs, batches) && m <= n <= |txs| && a in states[m].alarms
    ensures a in states[n].alarms || exists k :: m <= k < n && HandledIn(txs[k], batches[k], a)
    decreases n
  {
    if m < n {
      NoAlarmLost(states, txs, batches, m, n - 1, a);
      RunsKeep(states, txs, batches, n - 1);
      assert Transacted(states[n - 1], txs[n - 1], batches[n - 1], states[n - 1 + 1]);
      TransactionKeeps(states[n - 1], txs[n - 1], batches[n - 1], states[n]);
    }
  }

  ghost predicate AddedIn(tx: Transaction, a: Addr) {
    match tx
    case Adding(now, call) => Accepted(call, now, a)
    case Dispatching(now, _, hs) => LaterAdds(hs, -1, now, a)
  }

  /** The alarm of `a` is one of the batch and its handling broke. */
  ghost predicate BrokenIn(tx: Transaction, batch: seq<Addr>, a: Addr) {
    tx.Dispatching? && exists k :: 0 <= k < |batch| && k < |tx.handlings| && batch[k] == a && tx.handlings[k].Broken?
  }

  /** An alarm accepted is registered for the time asked for. */
  lemma AddingRegisters(s: State, tx: Transaction, batch: seq<Addr>, s': State, a: Addr)
    requires tx.Adding? && Transacted(s, tx, batch, s') && Accepted(tx.call, tx.now, a)
    ensures s'.alarms == s.alarms[a := tx.call.time / NANOS_IN_SECOND] && s'.inDelivery == s.inDelivery
  {}

  /** A transaction that adds no alarm of `a` either leaves it as it is, or has it in its batch; and then the
      alarm has been due, and is gone unless it broke. */
  lemma TransactionOn(s: State, tx: Transaction, batch: seq<Addr>, s': State, a: Addr)
    requires s.inDelivery == [] && EMPTY !in s.alarms && Transacted(s, tx, batch, s') && !AddedIn(tx, a)
    ensures tx.Adding? || a !in batch ==>
      (a in s'.alarms <==> a in s.alarms) && (a in s.alarms ==> s'.alarms[a] == s.alarms[a])
    ensures tx.Dispatching? && a in batch ==> a in s.alarms && s.alarms[a] < tx.now / NANOS_IN_SECOND
    ensures tx.Dispatching? && a in batch && !BrokenIn(tx, batch, a) ==> a !in s'.alarms
  {
    match tx
    case Adding(now, call) =>
    case Dispatching(now, maxCount, hs) =>
      hide LaterAdds, RepliedAll;
      DispatchRun(s, now, maxCount, batch, hs);
      BatchEarliest(s.alarms, AsSeconds(now), maxCount, batch);
      if a in batch {
        var k: nat :| k < |batch| && batch[k] == a;
      }
  }

  /** In every run an alarm waits for its time: until another one is added for its subscriber, or a dispatch
      past its time, it stays registered for that time and is in no batch. */
  lemma {:induction false} AlarmWaits(states: seq<State>, txs: seq<Transaction>, batches: seq<seq<Addr>>, m: nat,
      n: nat, a: Addr)
    requires IsRun(states, txs, batches) && m <= n <= |txs| && a in states[m].alarms
    requires forall k :: m <= k < n ==> !AddedIn(txs[k], a)
    requires forall k :: m <= k < n && txs[k].Dispatching? ==> txs[k].now / NANOS_IN_SECOND <= states[m].alarms[a]
    ensures a in states[n].alarms && states[n].alarms[a] == states[m].alarms[a]
    decreases n
  {
    if m < n {
      AlarmWaits(states, txs, batches, m, n - 1, a);
      RunsKeep(states, txs, batches, n - 1);
      assert Transacted(states[n - 1], txs[n - 1], batches[n - 1], states[n - 1 + 1]);
      TransactionOn(states[n - 1], txs[n - 1], batches[n - 1], states[n], a);
    }
  }

  lemma {:induction false} SameTime(states: seq<State>, txs: seq<Transaction>, batches: seq<seq<Addr>>, m: nat,
      n: nat, a: Addr)
    requires IsRun(states, txs, batches) && m <= n <= |txs| && a in states[m].alarms
    requires forall k :: m <= k < n ==> !AddedIn(txs[k], a) && !BrokenIn(txs[k], batches[k], a)
    ensures a in states[n].alarms ==> states[n].alarms[a] == states[m].alarms[a]
    decreases n
  {
    if m < n {
      SameTime(states, txs, batches, m, n - 1, a);
      RunsKeep(states, txs, batches, n - 1);
      assert Transacted(states[n - 1], txs[n - 1], batches[n - 1], states[n - 1 + 1]);
      TransactionOn(states[n - 1], txs[n - 1], batches[n - 1], states[n], a);
    }
  }

  /** In every run no alarm is sent out early: one added for a time, with no other added for its subscriber and
      none of its handlings broken since, is in no batch dispatched at that time or before. */
  lemma NeverEarly(states: seq<State>, txs: seq<Transaction>, batches: seq<seq<Addr>>, m: nat, n: nat, a: Addr)
    requires IsRun(states, txs, batches) && m < n < |txs|
    requires txs[m].Adding? && Accepted(txs[m].call, txs[m].now, a) && txs[n].Dispatching?
    requires forall k :: m < k < n ==> !AddedIn(txs[k], a) && !BrokenIn(txs[k], batches[k], a)
    requires txs[n].now / NANOS_IN_SECOND <= txs[m].call.time / NANOS_IN_SECOND
    ensures a !in batches[n]
  {
    assert Transacted(states[m], txs[m], batches[m], states[m + 1]);
    AddingRegisters(states[m], txs[m], batches[m], states[m + 1], a);
    SameTime(states, txs, batches, m + 1, n, a);
    RunsKeep(states, txs, batches, n);
    assert Transacted(states[n], txs[n], batches[n], states[n + 1]);
    BatchEarliest(states[n].alarms, AsSeconds(txs[n].now), txs[n].maxCount, batches[n]);
  }
}
