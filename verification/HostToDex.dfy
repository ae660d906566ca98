/** The search for the channels leading from the host network to the DEX network. */
module HostToDex {
  import opened Wrappers
  import opened Sequences
  import opened Channels

  datatype Error = HostNotConnectedToDex

  datatype Path = Path(network: NetworkId, connected: ConnectedNetworks, walked: seq<Channel>)

  /** The networks at most `k` hops away. */
  ghost function Ball(channels: ChannelMap, host: NetworkId, k: nat): set<NetworkId> {
    if k == 0 then {host} else
      Ball(channels, host, k - 1) +
      (set v | v in channels && exists u :: u in Ball(channels, host, k - 1) && Edge(channels, u, v))
  }

  /** `walked` is the chain of channels of some walk from the host. */
  ghost predicate PathOk(channels: ChannelMap, host: NetworkId, p: Path)
    requires Symmetric(channels)
  {
    && p.network in channels && p.connected == channels[p.network]
    && exists w :: IsWalk(channels, w, host, p.network) && p.walked == Hops(channels, w)
  }

  ghost predicate Queued(queue: seq<Path>, v: NetworkId) {
    exists i :: 0 <= i < |queue| && queue[i].network == v
  }

  ghost predicate Closed(channels: ChannelMap, discovered: set<NetworkId>, v: NetworkId) {
    forall u :: Edge(channels, v, u) ==> u in discovered
  }

  /** `path` is the chain of channels along a walk than which no walk is shorter. */
  ghost predicate ShortestPath(channels: ChannelMap, host: NetworkId, dex: NetworkId, path: seq<Channel>)
    requires Symmetric(channels)
  {
    && (exists w :: IsWalk(channels, w, host, dex) && path == Hops(channels, w))
    && (forall w :: IsWalk(channels, w, host, dex) ==> |path| <= |w| - 1)
  }

  ghost predicate Connected(channels: ChannelMap, host: NetworkId, dex: NetworkId) {
    exists w :: IsWalk(channels, w, host, dex)
  }

  ghost predicate Reaches(channels: ChannelMap, host: NetworkId, dex: NetworkId) {
    if host == dex then Edge(channels, host, host) else Connected(channels, host, dex)
  }

  /** A path found: a shortest one, or the one hop of a channel from the host to itself. */
  ghost predicate FoundPath(channels: ChannelMap, host: NetworkId, dex: NetworkId, path: seq<Channel>)
    requires Symmetric(channels)
  {
    && |path| > 0
    && if host == dex then Linked(channels, host, host) && path == [Hop(channels, host, host)]
       else ShortestPath(channels, host, dex, path)
  }

  method DirectHostToDexPath(channels: ChannelMap, host: NetworkId, dex: NetworkId) returns (r: Option<Channel>)
    requires Symmetric(channels)
    ensures r.Some? <==> Edge(channels, host, dex)
    ensures r.Some? ==> Linked(channels, host, dex) && r.value == Hop(channels, host, dex)
  {
    if host in channels && dex in channels[host].channel {
      assert InverseFilledIn(channels, host, dex);
      return Some(Channel(channels[host].channel[dex], channels[dex].channel[host]));
    }
    return None;
  }

  method InitialHostToDexPaths(channels: ChannelMap, host: NetworkId) returns (r: Result<seq<Path>, Error>)
    requires Symmetric(channels)
    ensures r.Success? <==> host in channels
    ensures r.Success? ==> |r.value| == |channels[host].order|
    ensures r.Success? ==> forall i :: 0 <= i < |r.value| ==>
      var n := channels[host].order[i];
      Linked(channels, host, n) && r.value[i] == Path(n, channels[n], [Hop(channels, host, n)])
  {
    if host !in channels {
      return Failure(HostNotConnectedToDex);
    }
    var connected := channels[host];
    var paths := [];
    for i := 0 to |connected.order|
      invariant |paths| == i
      invariant forall j :: 0 <= j < i ==>
        var n := connected.order[j];
        Linked(channels, host, n) && paths[j] == Path(n, channels[n], [Hop(channels, host, n)])
    {
      var n := connected.order[i];
      assert connected.Valid() && InverseFilledIn(channels, host, n);
      paths := paths + [Path(n, channels[n], [Channel(connected.channel[n], channels[n].channel[host])])];
    }
    return Success(paths);
  }

  ghost predicate Neighbours(channels: ChannelMap, a: NetworkId, ns: seq<NetworkId>) {
    forall i :: 0 <= i < |ns| ==> Linked(channels, a, ns[i])
  }

  ghost function Prolonged(channels: ChannelMap, path: Path, n: NetworkId): Path
    requires Linked(channels, path.network, n)
  {
    Path(n, channels[n], path.walked + [Hop(channels, path.network, n)])
  }

  /** The paths discovered: `path` prolonged to each network of `order` not traversed yet. */
  ghost function Extended(channels: ChannelMap, path: Path, order: seq<NetworkId>, traversed: set<NetworkId>)
    : (paths: seq<Path>)
    requires Neighbours(channels, path.network, order)
  {
    if order == [] then []
    else
      var init := Extended(channels, path, order[..|order| - 1], traversed);
      var last := order[|order| - 1];
      if last in traversed then init else init + [Prolonged(channels, path, last)]
  }

  lemma ExtendedStep(channels: ChannelMap, path: Path, order: seq<NetworkId>, i: nat, traversed: set<NetworkId>)
    requires Neighbours(channels, path.network, order) && i < |order|
    ensures Extended(channels, path, order[..i + 1], traversed) ==
      Extended(channels, path, order[..i], traversed) +
      if order[i] in traversed then [] else [Prolonged(channels, path, order[i])]
  {
    assert order[..i + 1][..i] == order[..i];
  }

  ghost function NewAt(order: seq<NetworkId>, traversed: set<NetworkId>): set<nat> {
    set i: nat | i < |order| && order[i] !in traversed
  }

  /** The paths discovered lead to the networks not traversed yet, in their order, by one more hop each. */
  lemma {:induction false} ExtendedInOrder(channels: ChannelMap, path: Path, order: seq<NetworkId>,
      traversed: set<NetworkId>) returns (at: seq<nat>)
    requires Neighbours(channels, path.network, order)
    ensures Lists(at, NewAt(order, traversed)) && |Extended(channels, path, order, traversed)| == |at|
    ensures forall j :: 0 <= j < |at| ==>
      && at[j] < |order| && Linked(channels, path.network, order[at[j]])
      && var n := order[at[j]];
         Extended(channels, path, order, traversed)[j] ==
           Path(n, channels[n], path.walked +
             [Channel(channels[path.network].channel[n], channels[n].channel[path.network])])
  {
    if order == [] {
      at := [];
    } else {
      var k: nat, init := |order| - 1, order[..|order| - 1];
      at := ExtendedInOrder(channels, path, init, traversed);
      if order[k] in traversed {
        assert NewAt(order, traversed) == NewAt(init, traversed);
      } else {
        ListsMore(at, NewAt(init, traversed), k);
        assert NewAt(order, traversed) == NewAt(init, traversed) + {k};
        at := at + [k];
      }
    }
  }

  lemma {:induction false} ExtendedTail(channels: ChannelMap, path: Path, order: seq<NetworkId>, k: nat,
      traversed: set<NetworkId>)
    requires Neighbours(channels, path.network, order) && k <= |order|
    requires forall j :: k <= j < |order| ==> order[j] in traversed
    ensures Extended(channels, path, order, traversed) == Extended(channels, path, order[..k], traversed)
    decreases |order|
  {
    if k == |order| {
      assert order[..k] == order;
    } else {
      ExtendedTail(channels, path, order[..|order| - 1], k, traversed);
      assert order[..|order| - 1][..k] == order[..k];
    }
  }

  lemma {:induction false} ExtendedContents(channels: ChannelMap, path: Path, order: seq<NetworkId>,
      traversed: set<NetworkId>)
    requires Neighbours(channels, path.network, order)
    ensures var paths := Extended(channels, path, order, traversed);
      && (forall i :: 0 <= i < |paths| ==>
           && paths[i].network !in traversed && Linked(channels, path.network, paths[i].network)
           && paths[i] == Prolonged(channels, path, paths[i].network))
      && (forall n :: n in order && n !in traversed ==> Queued(paths, n))
      && ((forall n :: n in order ==> n in traversed) ==> paths == [])
  {
    if order != [] {
      var shorter, last := order[..|order| - 1], order[|order| - 1];
      ExtendedContents(channels, path, shorter, traversed);
      var init, paths := Extended(channels, path, shorter, traversed), Extended(channels, path, order, traversed);
      forall n | n in order && n !in traversed ensures Queued(paths, n) {
        if n in shorter {
          var i :| 0 <= i < |init| && init[i].network == n;
          assert paths[i].network == n;
        } else {
          assert paths[|paths| - 1].network == n;
        }
      }
    }
  }

  lemma AllNeighbours(channels: ChannelMap, a: NetworkId)
    requires Symmetric(channels) && a in channels
    ensures forall n :: n in channels[a].order <==> n in channels[a].channel
    ensures forall n :: n in channels[a].order ==> Linked(channels, a, n)
    ensures Neighbours(channels, a, channels[a].order) && Distinct(channels[a].order)
  {
    assert channels[a].Valid();
    forall n | n in channels[a].order ensures Linked(channels, a, n) {
      assert InverseFilledIn(channels, a, n);
    }
  }

  /** The last new neighbour is taken first, from the back; it gets marked as traversed. */
  method TakeLastNew(order: seq<NetworkId>, traversed: set<NetworkId>)
    returns (back: nat, last: Option<NetworkId>, traversed': set<NetworkId>)
    ensures back <= |order|
    ensures last.None? ==>
      back == 0 && traversed' == traversed && forall j :: 0 <= j < |order| ==> order[j] in traversed
    ensures last.Some? ==>
      && back < |order| && last.value == order[back] && last.value !in traversed
      && traversed' == traversed + {last.value}
      && forall j :: back < j < |order| ==> order[j] in traversed
    ensures forall n :: n in order ==> n in traversed' || n in order[..back]
  {
    back, last, traversed' := |order|, None, traversed;
    while back > 0 && last.None?
      invariant back <= |order|
      invariant last.None? ==> traversed' == traversed && forall j :: back <= j < |order| ==> order[j] in traversed
      invariant last.Some? ==>
        && back < |order| && last.value == order[back] && last.value !in traversed
        && traversed' == traversed + {order[back]}
        && forall j :: back < j < |order| ==> order[j] in traversed
    {
      back := back - 1;
      if order[back] !in traversed' {
        traversed' := traversed' + {order[back]};
        last := Some(order[back]);
      }
    }
  }

  /** Looks at one new neighbour of the path. The buffer `walked` is given away to the last one. */
  method VisitNeighbour(channels: ChannelMap, dex: NetworkId, path: Path, walked: seq<Channel>, isLast: bool,
      next: NetworkId, queue: seq<Path>)
    returns (found: Option<seq<Channel>>, walked': seq<Channel>, queue': seq<Path>)
    requires Linked(channels, path.network, next) && path.connected == channels[path.network] && walked == path.walked
    ensures next == dex ==> found == Some(Prolonged(channels, path, next).walked)
    ensures next != dex ==> found.None? && queue' == queue + [Prolonged(channels, path, next)]
    ensures next != dex && !isLast ==> walked' == walked
  {
    var channel := Channel(path.connected.channel[next], channels[next].channel[path.network]);
    walked', queue' := walked, queue;
    if next == dex {
      walked' := walked' + [channel];
      return Some(walked'), [], queue';
    }
    var longer;
    if isLast {
      longer, walked' := walked', [];
    } else {
      longer := walked';
    }
    longer := longer + [channel];
    queue' := queue' + [Path(next, channels[next], longer)];
    found := None;
  }

  /** Visits the new neighbours among `front`, one by one, until the DEX network is found. */
  method VisitFront(channels: ChannelMap, dex: NetworkId, path: Path, front: seq<NetworkId>, queue: seq<Path>,
      traversed: set<NetworkId>)
    returns (found: Option<seq<Channel>>, walked: seq<Channel>, queue': seq<Path>, traversed': set<NetworkId>)
    requires path.network in channels && path.connected == channels[path.network]
    requires Neighbours(channels, path.network, front)
    requires Distinct(front)
    ensures found.Some? <==> dex in front && dex !in traversed
    ensures found.Some? ==> Linked(channels, path.network, dex) && found == Some(Prolonged(channels, path, dex).walked)
    ensures found.None? ==>
      && walked == path.walked
      && queue' == queue + Extended(channels, path, front, traversed)
      && (forall n :: n in traversed' <==> n in traversed || n in front)
  {
    walked := path.walked;
    queue', traversed' := queue, traversed;
    var i := 0;
    while i < |front|
      invariant 0 <= i <= |front|
      invariant walked == path.walked
      invariant forall n :: n in traversed' <==> n in traversed || n in front[..i]
      invariant dex !in traversed ==> dex !in front[..i]
      invariant queue' == queue + Extended(channels, path, front[..i], traversed)
    {
      var next := front[i];
      ExtendedStep(channels, path, front, i, traversed);
      i := i + 1;
      if next !in traversed' {
        traversed' := traversed' + {next};
        found, walked, queue' := VisitNeighbour(channels, dex, path, walked, false, next, queue');
        if found.Some? {
          return;
        }
      }
    }
    assert front[..|front|] == front;
    found := None;
  }

  /** Marking a network outside of `order` does not matter. */
  lemma {:induction false} ExtendedSame(channels: ChannelMap, path: Path, order: seq<NetworkId>, t: set<NetworkId>,
      t': set<NetworkId>)
    requires Neighbours(channels, path.network, order)
    requires forall n :: n in order ==> (n in t <==> n in t')
    ensures Extended(channels, path, order, t) == Extended(channels, path, order, t')
  {
    if order != [] {
      ExtendedSame(channels, path, order[..|order| - 1], t, t');
    }
  }

  lemma Before(order: seq<NetworkId>, k: nat)
    requires Distinct(order) && k <= |order|
    ensures Distinct(order[..k])
    ensures k < |order| ==> order[k] !in order[..k]
  {}

  /** Taking the last new neighbour first does not change which paths are discovered, nor their order. */
  lemma LastNewApart(channels: ChannelMap, path: Path, traversed: set<NetworkId>, back: nat, marked: set<NetworkId>)
    requires Symmetric(channels) && path.network in channels && path.connected == channels[path.network]
    requires back <= |path.connected.order|
    requires if back < |path.connected.order| && path.connected.order[back] !in traversed
      then marked == traversed + {path.connected.order[back]}
      else marked == traversed && back == 0
    requires forall j :: back < j < |path.connected.order| ==> path.connected.order[j] in traversed
    ensures var order := path.connected.order;
      && Neighbours(channels, path.network, order) && Distinct(order[..back])
      && Extended(channels, path, order, traversed) == Extended(channels, path, order[..back], marked) +
           if marked == traversed then [] else [Prolonged(channels, path, order[back])]
  {
    hide Extended, Prolonged, Distinct, Edge, Linked, Symmetric;
    var order := path.connected.order;
    AllNeighbours(channels, path.network);
    Before(order, back);
    ExtendedSame(channels, path, order[..back], marked, traversed);
    if marked == traversed {
      ExtendedTail(channels, path, order, 0, traversed);
    } else {
      ExtendedTail(channels, path, order, back + 1, traversed);
      ExtendedStep(channels, path, order, back, traversed);
    }
  }

  method ExplorePathBreadthFirst(channels: ChannelMap, dex: NetworkId, path: Path, queue: seq<Path>,
      traversed: set<NetworkId>)
    returns (found: Option<seq<Channel>>, queue': seq<Path>, traversed': set<NetworkId>)
    requires Symmetric(channels)
    requires path.network in channels && path.connected == channels[path.network]
    ensures found.Some? <==> dex in path.connected.order && dex !in traversed
    ensures found.Some? ==>
      Linked(channels, path.network, dex) && found.value == path.walked + [Hop(channels, path.network, dex)]
    ensures found.None? ==>
      && Neighbours(channels, path.network, path.connected.order)
      && queue' == queue + Extended(channels, path, path.connected.order, traversed)
      && (forall n :: n in traversed' <==> n in traversed || n in path.connected.order)
  {
    var order := path.connected.order;
    var back, last, marked := TakeLastNew(order, traversed);
    LastNewApart(channels, path, traversed, back, marked);
    var walked;
    found, walked, queue', traversed' := VisitFront(channels, dex, path, order[..back], queue, marked);
    if found.None? && last.Some? {
      found, walked, queue' := VisitNeighbour(channels, dex, path, walked, true, last.value, queue');
    }
  }

  lemma {:induction false} WalkInBall(channels: ChannelMap, host: NetworkId, w: seq<NetworkId>, v: NetworkId)
    requires Symmetric(channels) && IsWalk(channels, w, host, v)
    ensures v in Ball(channels, host, |w| - 1)
    decreases |w|
  {
    if |w| > 1 {
      var u := w[|w| - 2];
      WalkInBall(channels, host, w[..|w| - 1], u);
      assert Edge(channels, u, w[|w| - 2 + 1]) && InverseFilledIn(channels, u, v);
    }
  }

  lemma {:induction false} BallGrows(channels: ChannelMap, host: NetworkId, j: nat, k: nat)
    requires j <= k
    ensures Ball(channels, host, j) <= Ball(channels, host, k)
  {
    if j < k {
      BallGrows(channels, host, j, k - 1);
    }
  }

  /** A discovered set that is closed and misses the DEX network cuts it off. */
  lemma {:induction false} ClosedCutsOff(channels: ChannelMap, host: NetworkId, discovered: set<NetworkId>,
      w: seq<NetworkId>, v: NetworkId)
    requires host in discovered && forall u :: u in discovered ==> Closed(channels, discovered, u)
    requires IsWalk(channels, w, host, v)
    ensures v in discovered
    decreases |w|
  {
    if |w| > 1 {
      var u := w[|w| - 2];
      ClosedCutsOff(channels, host, discovered, w[..|w| - 1], u);
      assert Closed(channels, discovered, u) && Edge(channels, u, v);
    }
  }

  lemma ExtendedWalk(channels: ChannelMap, host: NetworkId, path: Path, n: NetworkId)
    requires Symmetric(channels) && PathOk(channels, host, path) && Linked(channels, path.network, n)
    ensures exists w ::
      IsWalk(channels, w, host, n) && path.walked + [Hop(channels, path.network, n)] == Hops(channels, w)
  {
    var w :| IsWalk(channels, w, host, path.network) && path.walked == Hops(channels, w);
    var w' := w + [n];
    assert IsWalk(channels, w', host, n);
    HopsAppend(channels, w, n);
  }

  /** The queue of the search. `queue[..cur]` holds paths of `d` hops, the rest paths of `d + 1` hops. */
  ghost predicate QueueOk(channels: ChannelMap, host: NetworkId, queue: seq<Path>, d: nat, cur: nat)
    requires Symmetric(channels)
  {
    && cur <= |queue|
    && (forall i :: 0 <= i < |queue| ==> PathOk(channels, host, queue[i]))
    && (forall i :: 0 <= i < |queue| ==> |queue[i].walked| == if i < cur then d else d + 1)
  }

  /** What is discovered is either explored or still queued, and the networks up to `d` hops away are
      discovered. The neighbours of the host are discovered from the start although they are not
      marked as traversed, hence may be queued once more. */
  ghost predicate Covers(channels: ChannelMap, host: NetworkId, queue: seq<Path>, discovered: set<NetworkId>, d: nat,
      cur: nat)
  {
    && cur <= |queue| && host in discovered
    && Ball(channels, host, d) <= discovered
    && (forall v :: v in Ball(channels, host, d) ==> Closed(channels, discovered, v) || Queued(queue[..cur], v))
    && (forall v :: v in discovered ==> Closed(channels, discovered, v) || Queued(queue, v))
  }

  lemma FirstHop(channels: ChannelMap, host: NetworkId, n: NetworkId)
    requires Symmetric(channels) && Linked(channels, host, n)
    ensures PathOk(channels, host, Path(n, channels[n], [Hop(channels, host, n)]))
  {
    HopsAppend(channels, [host], n);
    assert IsWalk(channels, [host], host, host);
    assert IsWalk(channels, [host] + [n], host, n);
  }

  lemma InitialQueue(channels: ChannelMap, host: NetworkId, queue: seq<Path>)
    requires Symmetric(channels) && host in channels
    requires |queue| == |channels[host].order|
    requires forall i :: 0 <= i < |queue| ==>
      var n := channels[host].order[i];
      Linked(channels, host, n) && queue[i] == Path(n, channels[n], [Hop(channels, host, n)])
    ensures QueueOk(channels, host, queue, 1, |queue|)
  {
    forall i | 0 <= i < |queue| ensures PathOk(channels, host, queue[i]) {
      FirstHop(channels, host, channels[host].order[i]);
    }
    hide PathOk;
  }

  lemma InitialCovers(channels: ChannelMap, host: NetworkId, queue: seq<Path>)
    requires Symmetric(channels) && host in channels
    requires |queue| == |channels[host].order|
    requires forall i :: 0 <= i < |queue| ==> queue[i].network == channels[host].order[i]
    ensures Covers(channels, host, queue, {host} + channels[host].channel.Keys, 1, |queue|)
  {
    var discovered := {host} + channels[host].channel.Keys;
    AllNeighbours(channels, host);
    assert Ball(channels, host, 0) == {host};
    forall v | v in discovered && v != host ensures Queued(queue, v) {
      var i :| 0 <= i < |channels[host].order| && channels[host].order[i] == v;
      assert queue[i].network == v;
    }
    assert queue[..|queue|] == queue;
  }

  lemma NoChannels(channels: ChannelMap, host: NetworkId, v: NetworkId)
    requires host !in channels && host != v
    ensures !Connected(channels, host, v)
  {
    if w :| IsWalk(channels, w, host, v) {
      var leaves := Edge(channels, w[0], w[1]);
      assert false;
    }
  }

  /** All the paths of `d` hops are explored: the search moves on to `d + 1` hops. */
  lemma NextLevel(channels: ChannelMap, host: NetworkId, queue: seq<Path>, discovered: set<NetworkId>, d: nat)
    requires Covers(channels, host, queue, discovered, d, 0)
    ensures Covers(channels, host, queue, discovered, d + 1, |queue|)
  {
    forall v | v in Ball(channels, host, d + 1) ensures v in discovered {
      if v !in Ball(channels, host, d) {
        var u :| u in Ball(channels, host, d) && Edge(channels, u, v);
        assert !Queued(queue[..0], u);
        assert Closed(channels, discovered, u);
      }
    }
    assert queue[..|queue|] == queue;
  }

  lemma ExploredQueue(channels: ChannelMap, host: NetworkId, queue: seq<Path>, more: seq<Path>, d: nat, cur: nat)
    requires Symmetric(channels) && QueueOk(channels, host, queue, d, cur) && cur > 0
    requires forall i :: 0 <= i < |more| ==>
      Linked(channels, queue[0].network, more[i].network) && more[i] == Prolonged(channels, queue[0], more[i].network)
    ensures QueueOk(channels, host, queue[1..] + more, d, cur - 1)
  {
    forall i | 0 <= i < |more| ensures PathOk(channels, host, more[i]) && |more[i].walked| == d + 1 {
      ExtendedWalk(channels, host, queue[0], more[i].network);
    }
  }

  /** Exploring the first queued path keeps the cover. */
  lemma ExploredCovers(channels: ChannelMap, host: NetworkId, queue: seq<Path>, more: seq<Path>,
      discovered: set<NetworkId>, discovered': set<NetworkId>, d: nat, cur: nat)
    requires Covers(channels, host, queue, discovered, d, cur) && cur > 0
    requires discovered <= discovered'
    requires forall n :: n in discovered' && n !in discovered ==> Queued(more, n)
    requires Closed(channels, discovered', queue[0].network)
    ensures Covers(channels, host, queue[1..] + more, discovered', d, cur - 1)
  {
    var queue', network := queue[1..] + more, queue[0].network;
    forall v | v in discovered' ensures Closed(channels, discovered', v) || Queued(queue', v) {
      if v !in discovered {
        var i :| 0 <= i < |more| && more[i].network == v;
        assert queue'[|queue| - 1 + i].network == v;
      } else if v != network && !Closed(channels, discovered, v) {
        var i :| 0 <= i < |queue| && queue[i].network == v;
        assert queue'[i - 1].network == v;
      }
    }
    forall v | v in Ball(channels, host, d) ensures Closed(channels, discovered', v) || Queued(queue'[..cur - 1], v) {
      if v != network && !Closed(channels, discovered, v) {
        var i :| 0 <= i < cur && queue[..cur][i].network == v;
        assert queue'[..cur - 1][i - 1].network == v;
      }
    }
  }

  lemma Explored(channels: ChannelMap, host: NetworkId, queue: seq<Path>, traversed: set<NetworkId>,
      traversed': set<NetworkId>, d: nat, cur: nat)
    requires Symmetric(channels) && host in channels && cur > 0 && d > 0
    requires QueueOk(channels, host, queue, d, cur)
    requires Covers(channels, host, queue, traversed + channels[host].channel.Keys, d, cur)
    requires forall n :: n in traversed' <==> n in traversed || n in queue[0].connected.order
    ensures Neighbours(channels, queue[0].network, queue[0].connected.order)
    ensures var queue' := queue[1..] + Extended(channels, queue[0], queue[0].connected.order, traversed);
      && QueueOk(channels, host, queue', d, cur - 1)
      && Covers(channels, host, queue', traversed' + channels[host].channel.Keys, d, cur - 1)
  {
    var network, near := queue[0].network, channels[host].channel.Keys;
    assert PathOk(channels, host, queue[0]);
    AllNeighbours(channels, network);
    var more := Extended(channels, queue[0], queue[0].connected.order, traversed);
    ExtendedContents(channels, queue[0], queue[0].connected.order, traversed);
    ExploredQueue(channels, host, queue, more, d, cur);
    ExploredCovers(channels, host, queue, more, traversed + near, traversed' + near, d, cur);
  }

  /** No walk within reach of the explored levels leads to a network not discovered. */
  lemma NoShorterWalk(channels: ChannelMap, host: NetworkId, queue: seq<Path>, discovered: set<NetworkId>, d: nat,
      cur: nat, v: NetworkId)
    requires Symmetric(channels) && Covers(channels, host, queue, discovered, d, cur) && v !in discovered
    ensures forall w :: IsWalk(channels, w, host, v) ==> d + 1 <= |w| - 1
  {
    forall w | IsWalk(channels, w, host, v) ensures d + 1 <= |w| - 1 {
      WalkInBall(channels, host, w, v);
      if |w| - 1 <= d {
        BallGrows(channels, host, |w| - 1, d);
      }
    }
  }

  lemma NothingQueued(channels: ChannelMap, host: NetworkId, discovered: set<NetworkId>, d: nat, cur: nat, v: NetworkId)
    requires Covers(channels, host, [], discovered, d, cur) && v !in discovered
    ensures !Connected(channels, host, v)
  {
    forall u | u in discovered ensures Closed(channels, discovered, u) {
      assert !Queued([], u);
    }
    forall w | IsWalk(channels, w, host, v) ensures false {
      ClosedCutsOff(channels, host, discovered, w, v);
    }
  }

  lemma PathOfQueue(channels: ChannelMap, host: NetworkId, queue: seq<Path>, d: nat, cur: nat)
    requires Symmetric(channels) && QueueOk(channels, host, queue, d, cur) && queue != []
    ensures PathOk(channels, host, queue[0])
    ensures queue[0].network in channels && queue[0].connected == channels[queue[0].network]
  {}

  /** The state of the search between two rounds. */
  ghost predicate Searching(channels: ChannelMap, host: NetworkId, dex: NetworkId, queue: seq<Path>,
      traversed: set<NetworkId>, d: nat, cur: nat)
    requires Symmetric(channels)
  {
    && d > 0 && host in channels && dex !in channels[host].channel
    && traversed <= channels.Keys && host in traversed && (host == dex || dex !in traversed)
    && QueueOk(channels, host, queue, d, cur)
    && Covers(channels, host, queue, traversed + channels[host].channel.Keys, d, cur)
  }

  /** One round of the search: the first queued path is explored. */
  method SearchRound(channels: ChannelMap, host: NetworkId, dex: NetworkId, queue: seq<Path>,
      traversed: set<NetworkId>, ghost d: nat, ghost cur: nat)
    returns (found: Option<seq<Channel>>, queue': seq<Path>, traversed': set<NetworkId>, ghost d': nat, ghost cur': nat)
    requires Symmetric(channels) && Searching(channels, host, dex, queue, traversed, d, cur) && queue != []
    ensures found.Some? ==> host != dex && |found.value| > 0 && ShortestPath(channels, host, dex, found.value)
    ensures found.None? ==>
      && Searching(channels, host, dex, queue', traversed', d', cur')
      && traversed <= traversed'
      && (traversed' == traversed ==> queue' == queue[1..])
  {
    hide Covers, Extended, IsWalk, Hops, PathOk;
    d', cur' := d, cur;
    if cur == 0 {
      NextLevel(channels, host, queue, traversed + channels[host].channel.Keys, d);
      d', cur' := d + 1, |queue|;
    }
    var path := queue[0];
    assert path.network in channels && path.connected == channels[path.network] by {
      PathOfQueue(channels, host, queue, d', cur');
    }
    AllNeighbours(channels, path.network);
    found, queue', traversed' := ExplorePathBreadthFirst(channels, dex, path, queue[1..], traversed);
    if found.Some? {
      ExtendedWalk(channels, host, path, dex);
      NoShorterWalk(channels, host, queue, traversed + channels[host].channel.Keys, d', cur', dex);
    } else {
      Explored(channels, host, queue, traversed, traversed', d', cur');
      ExtendedContents(channels, path, path.connected.order, traversed);
      cur' := cur' - 1;
    }
  }

  method IndirectHostToDexPath(channels: ChannelMap, host: NetworkId, dex: NetworkId)
    returns (r: Result<seq<Channel>, Error>)
    requires Symmetric(channels) && !Edge(channels, host, dex)
    ensures host != dex ==> (r.Success? <==> Connected(channels, host, dex))
    ensures host != dex && r.Success? ==> ShortestPath(channels, host, dex, r.value) && |r.value| > 0
    ensures host == dex ==> r.Failure?
  {
    var initial := InitialHostToDexPaths(channels, host);
    if initial.Failure? {
      if host != dex {
        NoChannels(channels, host, dex);
      }
      return Failure(HostNotConnectedToDex);
    }
    var queue, traversed := initial.value, {host};
    ghost var d: nat, cur: nat := 1, |queue|;
    InitialQueue(channels, host, queue);
    InitialCovers(channels, host, queue);
    while queue != []
      invariant Searching(channels, host, dex, queue, traversed, d, cur)
      decreases channels.Keys - traversed, |queue|
    {
      var found;
      found, queue, traversed, d, cur := SearchRound(channels, host, dex, queue, traversed, d, cur);
      if found.Some? {
        return Success(found.value);
      }
    }
    if host != dex {
      NothingQueued(channels, host, traversed + channels[host].channel.Keys, d, cur, dex);
    }
    return Failure(HostNotConnectedToDex);
  }

  method FindPath(channels: ChannelMap, host: NetworkId, dex: NetworkId) returns (r: Result<seq<Channel>, Error>)
    requires Symmetric(channels)
    ensures r.Success? <==> Reaches(channels, host, dex)
    ensures r.Success? ==> FoundPath(channels, host, dex, r.value)
  {
    var direct := DirectHostToDexPath(channels, host, dex);
    if direct.Some? {
      ghost var w := [host, dex];
      assert IsWalk(channels, w, host, dex);
      HopsAppend(channels, [host], dex);
      assert [host] + [dex] == w;
      return Success([direct.value]);
    }
    r := IndirectHostToDexPath(channels, host, dex);
  }
}
