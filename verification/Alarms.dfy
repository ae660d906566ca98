/** The alarms registered at times, and the queue of those out for delivery. */
module Alarms {
  import opened Wrappers
  import opened Time
  import opened Addresses

  type Seconds = nat

  function AsSeconds(t: Timestamp): Seconds {
    t / NANOS_IN_SECOND
  }

  datatype Error = NonEmptyAlarmsInDeliveryQueue | EmptyAlarmsInDeliveryQueue | InvalidAlarm | InvalidAddress
    | Underflow  // a panic of the program

  /** One alarm per subscriber, and the subscribers whose alarms are out for delivery. */
  datatype State = State(alarms: map<Addr, Seconds>, inDelivery: seq<Addr>)

  /** The order of the index the alarms are kept in. */
  predicate Earlier(alarms: map<Addr, Seconds>, a: Addr, b: Addr)
    requires a in alarms && b in alarms
  {
    alarms[a] < alarms[b] || (alarms[a] == alarms[b] && a < b)
  }

  /** Within the bound of a selection, the pair of the time and the empty address included. */
  predicate InRange(alarms: map<Addr, Seconds>, a: Addr, time: Seconds) {
    a in alarms && (alarms[a] < time || (alarms[a] == time && a <= EMPTY))
  }

  ghost predicate InOrder(alarms: map<Addr, Seconds>, s: seq<Addr>) {
    && (forall i :: 0 <= i < |s| ==> s[i] in alarms)
    && (forall i, j :: 0 <= i < j < |s| ==> Earlier(alarms, s[i], s[j]))
  }

  /** All the alarms in the range, the earliest first. */
  ghost predicate IsSelection(alarms: map<Addr, Seconds>, time: Seconds, s: seq<Addr>) {
    InOrder(alarms, s) && forall a :: a in s <==> InRange(alarms, a, time)
  }

  /** The first `n` of a selection are its `n` earliest alarms. */
  ghost predicate IsBatch(alarms: map<Addr, Seconds>, time: Seconds, max: nat, batch: seq<Addr>) {
    exists s :: IsSelection(alarms, time, s) && batch == s[..if max < |s| then max else |s|]
  }

  /** With no alarm for the empty address a batch is of the alarms strictly before the time, none of those
      left out is earlier than any of it, and there are some left out only if the batch is full. */
  lemma BatchEarliest(alarms: map<Addr, Seconds>, time: Seconds, max: nat, batch: seq<Addr>)
    requires EMPTY !in alarms && IsBatch(alarms, time, max, batch)
    ensures InOrder(alarms, batch) && |batch| <= max
    ensures forall i, j :: 0 <= i < j < |batch| ==>
      && batch[i] in alarms && batch[j] in alarms && alarms[batch[i]] <= alarms[batch[j]]
      && (alarms[batch[i]] == alarms[batch[j]] ==> batch[i] < batch[j])
    ensures forall a :: a in batch ==> a in alarms && alarms[a] < time
    ensures forall a, b :: a in batch && b in alarms && alarms[b] < time && b !in batch ==>
      alarms[a] <= alarms[b] && (alarms[a] == alarms[b] ==> a < b)
    ensures |batch| < max ==> forall a :: a in alarms && alarms[a] < time ==> a in batch
  {
    var s :| IsSelection(alarms, time, s) && batch == s[..if max < |s| then max else |s|];
    assert s == batch + s[|batch|..];
    forall a | a in batch ensures a in alarms && alarms[a] < time {
      assert a in s;
    }
    forall a, b | a in batch && b in alarms && alarms[b] < time && b !in batch ensures Earlier(alarms, a, b) {
      assert InRange(alarms, b, time);
      var i :| 0 <= i < |batch| && batch[i] == a;
      var j :| 0 <= j < |s| && s[j] == b;
    }
    forall a | |batch| < max && a in alarms && alarms[a] < time ensures a in batch {
      assert InRange(alarms, a, time);
    }
  }

  function Registered(s: State, subscriber: Addr, time: Seconds): State {
    s.(alarms := s.alarms[subscriber := time])
  }

  ghost function SentOut(s: State, batch: seq<Addr>): State {
    State(map a | a in s.alarms && a !in batch :: s.alarms[a], s.inDelivery + batch)
  }

  function Delivered(s: State): Result<State, Error> {
    if s.inDelivery == [] then Failure(EmptyAlarmsInDeliveryQueue) else Success(s.(inDelivery := s.inDelivery[1..]))
  }

  function Failed(s: State, now: Timestamp): Result<State, Error> {
    if s.inDelivery == [] then Failure(EmptyAlarmsInDeliveryQueue)
    else if AsSeconds(now) < 1 then Failure(Underflow)
    else Success(Registered(s.(inDelivery := s.inDelivery[1..]), s.inDelivery[0], AsSeconds(now) - 1))
  }

  class Alarms {
    var alarms: map<Addr, Seconds>
    var inDelivery: seq<Addr>

    constructor ()
      ensures Contents() == State(map[], [])
    {
      alarms, inDelivery := map[], [];
    }

    function Contents(): State
      reads this
    {
      State(alarms, inDelivery)
    }

    /** The subscribers whose alarms are in the range, the earliest first. */
    method AlarmsSelection(ctime: Timestamp) returns (s: seq<Addr>)
      ensures IsSelection(alarms, AsSeconds(ctime), s)
    {
      var rest := set a | a in alarms && InRange(alarms, a, AsSeconds(ctime));
      s := [];
      while rest != {}
        invariant InOrder(alarms, s) && forall a :: a in rest ==> a in alarms
        invariant forall a :: InRange(alarms, a, AsSeconds(ctime)) <==> a in s || a in rest
        invariant forall a, b :: a in s && b in rest ==> Earlier(alarms, a, b)
        decreases rest
      {
        var next := EarliestOf(rest);
        s, rest := s + [next], rest - {next};
      }
    }

    method EarliestOf(rest: set<Addr>) returns (earliest: Addr)
      requires rest != {} && forall a :: a in rest ==> a in alarms
      ensures earliest in rest && forall a :: a in rest && a != earliest ==> Earlier(alarms, earliest, a)
    {
      earliest :| earliest in rest;
      var left := rest - {earliest};
      while left != {}
        invariant left <= rest && earliest in rest && earliest !in left
        invariant forall a :: a in rest && a !in left && a != earliest ==> Earlier(alarms, earliest, a)
        decreases left
      {
        var a :| a in left;
        left := left - {a};
        if Earlier(alarms, a, earliest) {
          earliest := a;
        }
      }
    }

    method Add(subscriber: Addr, time: Timestamp)
      modifies this
      ensures alarms == old(alarms)[subscriber := time / NANOS_IN_SECOND] && inDelivery == old(inDelivery)
    {
      AddInternal(subscriber, AsSeconds(time));
    }

    method AddInternal(subscriber: Addr, time: Seconds)
      modifies this
      ensures alarms == old(alarms)[subscriber := time] && inDelivery == old(inDelivery)
    {
      alarms := alarms[subscriber := time];
    }

    method EnsureNoInDelivery() returns (r: Option<Error>)
      ensures r == if inDelivery == [] then None else Some(NonEmptyAlarmsInDeliveryQueue)
    {
      return if |inDelivery| == 0 then None else Some(NonEmptyAlarmsInDeliveryQueue);
    }

    method OutForDelivery(subscriber: Addr)
      modifies this
      ensures alarms == old(alarms) - {subscriber} && inDelivery == old(inDelivery) + [subscriber]
    {
      alarms := alarms - {subscriber};
      inDelivery := inDelivery + [subscriber];
    }

    method LastDelivered() returns (r: Option<Error>)
      modifies this
      ensures r == if old(inDelivery) == [] then Some(EmptyAlarmsInDeliveryQueue) else None
      ensures alarms == old(alarms) && inDelivery == if r.None? then old(inDelivery)[1..] else []
    {
      if inDelivery == [] {
        return Some(EmptyAlarmsInDeliveryQueue);
      }
      inDelivery := inDelivery[1..];
      return None;
    }

    method LastFailed(now: Timestamp) returns (r: Option<Error>)
      modifies this
      ensures r == if old(inDelivery) == [] then Some(EmptyAlarmsInDeliveryQueue)
        else if now < NANOS_IN_SECOND then Some(Underflow) else None
      ensures r.None? ==> inDelivery == old(inDelivery)[1..]
      ensures r.None? ==> alarms == old(alarms)[old(inDelivery)[0] := now / NANOS_IN_SECOND - 1]
    {
      if inDelivery == [] {
        return Some(EmptyAlarmsInDeliveryQueue);
      }
      var subscriber := inDelivery[0];
      inDelivery := inDelivery[1..];
      if AsSeconds(now) < 1 {
        return Some(Underflow);
      }
      // minus one second, to be run again within the same block
      AddInternal(subscriber, AsSeconds(now) - 1);
      return None;
    }
  }
}
