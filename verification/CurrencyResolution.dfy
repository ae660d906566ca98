/** The resolution of the currencies listed at the DEX network. */
module CurrencyResolution {
  import opened Wrappers
  import opened Sequences
  import opened Channels
  import opened Symbol
  import opened Topology
  import HostToDex

  datatype Error =
    | NetworksNotConnected(source: NetworkId, remote: NetworkId)
    | CycleCreated
    | NoSuchNetwork(network: NetworkId)
    | NoSuchCurrency(currency: CurrencyId)
    | HostCurrencyMismatch  // an assertion of the program that fails
    | HostAlreadyTraversed  // a panic of the program

  datatype HostLocality = Local(definition: CurrencyDefinition) | Remote(definition: CurrencyDefinition)

  /** What `c` points to, when it can be followed from the networks `route` one network further. */
  ghost predicate Follows(t: Topology, route: seq<NetworkId>, c: Currency, next: Currency) {
    && c.Ibc? && c.network != t.host.name && c.network !in route
    && c.network in t.networks && c.currency in t.networks[c.network].currencies
    && next == t.networks[c.network].currencies[c.currency]
  }

  /** `route` are the networks passed when following `currencies` from one to the next. */
  ghost predicate Trace(t: Topology, dex: NetworkId, start: Currency, route: seq<NetworkId>, currencies: seq<Currency>)
  {
    && |route| == |currencies| > 0 && route[0] == dex && currencies[0] == start
    && (forall i :: 0 <= i < |route| - 1 ==> Follows(t, route[..i + 1], currencies[i], currencies[i + 1]))
    && (forall i :: 0 <= i < |route| - 1 ==> currencies[i].Ibc? && route[i + 1] == currencies[i].network)
  }

  /** The trace cannot be prolonged. */
  ghost predicate Complete(t: Topology, route: seq<NetworkId>, last: Currency) {
    forall next :: !Follows(t, route, last, next)
  }

  ghost predicate Joined(channels: ChannelMap, route: seq<NetworkId>, i: nat)
    requires i + 1 < |route|
  {
    Edge(channels, route[i], route[i + 1])
  }

  ghost predicate AllJoined(channels: ChannelMap, route: seq<NetworkId>) {
    forall i: nat :: i + 1 < |route| ==> Joined(channels, route, i)
  }

  /** The first pair of networks from the `i`-th on that are not connected. */
  ghost function FirstBroken(channels: ChannelMap, route: seq<NetworkId>, i: nat): (r: Option<nat>)
    ensures r.None? ==> forall j: nat :: i <= j && j + 1 < |route| ==> Joined(channels, route, j)
    ensures r.Some? ==> i <= r.value && r.value + 1 < |route| && !Joined(channels, route, r.value)
    ensures r.Some? ==> forall j: nat :: i <= j < r.value ==> Joined(channels, route, j)
    decreases |route| - i
  {
    if i + 1 >= |route| then None
    else if Joined(channels, route, i) then FirstBroken(channels, route, i + 1)
    else Some(i)
  }

  /** The channels along the route; a pair of networks that are not connected is passed over. */
  ghost function RouteHops(channels: ChannelMap, route: seq<NetworkId>): seq<ChannelId> {
    if |route| <= 1 then []
    else
      var a, b := route[|route| - 2], route[|route| - 1];
      RouteHops(channels, route[..|route| - 1]) +
      if Edge(channels, a, b) then [channels[a].channel[b]] else []
  }

  lemma RouteHopsAppend(channels: ChannelMap, route: seq<NetworkId>, n: NetworkId)
    requires route != []
    ensures var last := route[|route| - 1];
      RouteHops(channels, route + [n]) ==
      RouteHops(channels, route) + if Edge(channels, last, n) then [channels[last].channel[n]] else []
  {
    assert (route + [n])[..|route|] == route;
  }

  ghost function Ids(path: seq<Channel>): seq<ChannelId> {
    if path == [] then [] else Ids(path[..|path| - 1]) + [path[|path| - 1].id]
  }

  /** What a bank path starts with, unless the networks passed start with the host. */
  ghost function HostSide(host: NetworkId, path: seq<Channel>, route: seq<NetworkId>): seq<ChannelId> {
    if host in route then [] else Ids(path)
  }

  /** The result the complete trace ending at `last` leads to. */
  ghost function Outcome(t: Topology, path: seq<Channel>, ticker: CurrencyId, digest: string -> string,
      route: seq<NetworkId>, last: Currency): Result<HostLocality, Error>
    requires path != []
  {
    var hops := RouteHops(t.channels, route);
    match last
    case Native(native) => (
      match FirstBroken(t.channels, route, 0)
      case None =>
        Success(Remote(CurrencyDefinition(ticker,
          SymbolOf(HostSide(t.host.name, path, route) + hops, native.symbol, digest),
          SymbolOf(hops, native.symbol, digest), native.decimalDigits)))
      case Some(i) => Failure(NetworksNotConnected(route[i], route[i + 1])))
    case Ibc(network, currency) =>
      if network == t.host.name then
        if network in route then Failure(HostAlreadyTraversed)
        else if currency == t.host.currencyId then
          Success(Local(CurrencyDefinition(ticker,
            SymbolOf([], t.host.native.symbol, digest),
            SymbolOf(hops + [path[0].counterpart], t.host.native.symbol, digest), t.host.native.decimalDigits)))
        else Failure(HostCurrencyMismatch)
      else if network in route then Failure(CycleCreated)
      else if network !in t.networks then Failure(NoSuchNetwork(network))
      else Failure(NoSuchCurrency(currency))
  }

  ghost predicate Resolved(t: Topology, dex: NetworkId, path: seq<Channel>, ticker: CurrencyId,
      digest: string -> string, currency: Currency, r: Result<HostLocality, Error>)
    requires path != []
  {
    exists route, currencies :: Trace(t, dex, currency, route, currencies)
      && Complete(t, route, currencies[|route| - 1])
      && r == Outcome(t, path, ticker, digest, route, currencies[|route| - 1])
  }

  datatype DexResolved = DexResolved(traversed: seq<NetworkId>, dexSymbol: Builder, native: NativeCurrency,
                                     hostLocal: bool)

  datatype ResolvedNonHost = ResolvedNonHost(traversed: seq<NetworkId>, currency: Currency)

  method ResolveNonHostIbcCurrency(t: Topology, traversed: seq<NetworkId>, dexSymbol: Builder, network: NetworkId,
      currency: CurrencyId)
    returns (r: Result<ResolvedNonHost, Error>)
    requires traversed != [] && network != t.host.name
    requires dexSymbol.Valid() && dexSymbol.added == RouteHops(t.channels, traversed)
    modifies dexSymbol
    ensures r.Success? ==>
      && Follows(t, traversed, Ibc(network, currency), r.value.currency)
      && r.value.traversed == traversed + [network]
      && dexSymbol.Valid() && dexSymbol.added == RouteHops(t.channels, r.value.traversed)
    ensures r.Failure? ==>
      && Complete(t, traversed, Ibc(network, currency))
      && r.error == if network in traversed then CycleCreated
                    else if network !in t.networks then NoSuchNetwork(network) else NoSuchCurrency(currency)
  {
    hide RouteHops;
    if network in traversed {
      return Failure(CycleCreated);
    }
    RouteHopsAppend(t.channels, traversed, network);
    var last := traversed[|traversed| - 1];
    if last in t.channels && network in t.channels[last].channel {
      dexSymbol.AddChannel(t.channels[last].channel[network]);
    }
    var traversed' := traversed + [network];
    if network !in t.networks {
      return Failure(NoSuchNetwork(network));
    }
    if currency !in t.networks[network].currencies {
      return Failure(NoSuchCurrency(currency));
    }
    return Success(ResolvedNonHost(traversed', t.networks[network].currencies[currency]));
  }

  lemma TraceAppend(t: Topology, dex: NetworkId, start: Currency, route: seq<NetworkId>, currencies: seq<Currency>,
      next: Currency)
    requires Trace(t, dex, start, route, currencies) && Follows(t, route, currencies[|route| - 1], next)
    ensures Trace(t, dex, start, route + [currencies[|route| - 1].network], currencies + [next])
  {
    var c := currencies[|route| - 1];
    var route', currencies' := route + [c.network], currencies + [next];
    forall i | 0 <= i < |route'| - 1
      ensures Follows(t, route'[..i + 1], currencies'[i], currencies'[i + 1]) && route'[i + 1] == currencies'[i].network
    {
      assert route'[..i + 1] == route[..i + 1];
      if i < |route| - 1 {
        assert Follows(t, route[..i + 1], currencies[i], currencies[i + 1]);
      } else {
        assert route[..i + 1] == route;
      }
    }
  }

  lemma InitialTrace(t: Topology, dex: NetworkId, start: Currency)
    ensures Trace(t, dex, start, [dex], [start]) && RouteHops(t.channels, [dex]) == []
  {}

  /** Follows the currency from the DEX network until a native one. Each step passes one more of the
      networks, hence it ends. The host network is never passed, unless it is the DEX network itself. */
  method ResolveDexSide(t: Topology, dex: NetworkId, path: seq<Channel>, currency: Currency)
    returns (r: Result<DexResolved, Error>, ghost route: seq<NetworkId>, ghost currencies: seq<Currency>)
    requires path != []
    ensures Trace(t, dex, currency, route, currencies) && Complete(t, route, currencies[|route| - 1])
    ensures t.host.name !in route[1..]
    ensures var last := currencies[|route| - 1];
      if last.Native? then
        && r.Success? && r.value.native == last.native && !r.value.hostLocal
        && r.value.traversed == route && fresh(r.value.dexSymbol)
        && r.value.dexSymbol.Valid() && r.value.dexSymbol.added == RouteHops(t.channels, route)
      else if last.network == t.host.name && t.host.name !in route && last.currency == t.host.currencyId then
        && r.Success? && r.value.native == t.host.native && r.value.hostLocal
        && r.value.traversed == route + [t.host.name] && fresh(r.value.dexSymbol)
        && r.value.dexSymbol.Valid()
        && r.value.dexSymbol.added == RouteHops(t.channels, route) + [path[0].counterpart]
      else
        && r.Failure?
        && r.error == if last.network == t.host.name
                      then if t.host.name in route then HostAlreadyTraversed else HostCurrencyMismatch
                      else if last.network in route then CycleCreated
                      else if last.network !in t.networks then NoSuchNetwork(last.network)
                      else NoSuchCurrency(last.currency)
  {
    hide Trace, RouteHops;
    InitialTrace(t, dex, currency);
    var dexSymbol := new Builder();
    var traversed, current := [dex], currency;
    currencies := [currency];
    while true
      invariant |traversed| == |currencies| > 0 && current == currencies[|traversed| - 1]
      invariant Trace(t, dex, currency, traversed, currencies)
      invariant t.host.name !in traversed[1..]
      invariant fresh(dexSymbol) && dexSymbol.Valid() && dexSymbol.added == RouteHops(t.channels, traversed)
      decreases t.networks.Keys - set n | n in traversed
    {
      route := traversed;
      match current
      case Native(native) =>
        return Success(DexResolved(traversed, dexSymbol, native, false)), route, currencies;
      case Ibc(network, id) =>
        if network == t.host.name {
          if network in traversed {
            return Failure(HostAlreadyTraversed), route, currencies;
          }
          if id != t.host.currencyId {
            return Failure(HostCurrencyMismatch), route, currencies;
          }
          dexSymbol.AddChannel(path[0].counterpart);
          return Success(DexResolved(traversed + [t.host.name], dexSymbol, t.host.native, true)), route, currencies;
        }
        var next := ResolveNonHostIbcCurrency(t, traversed, dexSymbol, network, id);
        if next.Failure? {
          return Failure(next.error), route, currencies;
        }
        TraceAppend(t, dex, currency, traversed, currencies, next.value.currency);
        assert network in t.networks.Keys - set n | n in traversed;
        assert network in next.value.traversed;
        traversed, current := next.value.traversed, next.value.currency;
        currencies := currencies + [current];
    }
  }

  /** The channels of a route all of whose networks are connected, one after the other. */
  method FoldBankSide(channels: ChannelMap, bankSymbol: Builder, traversed: seq<NetworkId>) returns (r: Option<Error>)
    requires bankSymbol.Valid()
    modifies bankSymbol
    ensures match FirstBroken(channels, traversed, 0)
      case None => r.None? && bankSymbol.Valid() &&
        bankSymbol.added == old(bankSymbol.added) + RouteHops(channels, traversed)
      case Some(i) => r == Some(NetworksNotConnected(traversed[i], traversed[i + 1]))
  {
    if |traversed| == 0 {
      return None;
    }
    var i := 0;
    while i + 1 < |traversed|
      invariant 0 <= i < |traversed| && bankSymbol.Valid()
      invariant FirstBroken(channels, traversed, 0) == FirstBroken(channels, traversed, i)
      invariant bankSymbol.added == old(bankSymbol.added) + RouteHops(channels, traversed[..i + 1])
    {
      var source, remote := traversed[i], traversed[i + 1];
      if !(source in channels && remote in channels[source].channel) {
        return Some(NetworksNotConnected(source, remote));
      }
      bankSymbol.AddChannel(channels[source].channel[remote]);
      assert traversed[..i + 2][..i + 1] == traversed[..i + 1];
      i := i + 1;
    }
    assert traversed[..i + 1] == traversed;
    return None;
  }

  method ResolveBankSide(t: Topology, path: seq<Channel>, ticker: CurrencyId, digest: string -> string,
      resolved: DexResolved)
    returns (r: Result<HostLocality, Error>)
    requires path != [] && resolved.dexSymbol.Valid() && resolved.traversed != []
    requires resolved.hostLocal ==> resolved.traversed[|resolved.traversed| - 1] == t.host.name
    requires resolved.hostLocal ==> t.host.name !in resolved.traversed[..|resolved.traversed| - 1]
    requires !resolved.hostLocal ==> t.host.name !in resolved.traversed[1..]
    ensures resolved.hostLocal ==> r == Success(Local(CurrencyDefinition(ticker,
      SymbolOf([], resolved.native.symbol, digest),
      SymbolOf(resolved.dexSymbol.added, resolved.native.symbol, digest), resolved.native.decimalDigits)))
    ensures !resolved.hostLocal ==> match FirstBroken(t.channels, resolved.traversed, 0)
      case None => r == Success(Remote(CurrencyDefinition(ticker,
        SymbolOf(HostSide(t.host.name, path, resolved.traversed) + RouteHops(t.channels, resolved.traversed),
          resolved.native.symbol, digest),
        SymbolOf(resolved.dexSymbol.added, resolved.native.symbol, digest), resolved.native.decimalDigits)))
      case Some(i) => r == Failure(NetworksNotConnected(resolved.traversed[i], resolved.traversed[i + 1]))
  {
    hide SymbolOf, Denom, FirstBroken;
    var bankSymbol := new Builder();
    var traversed := resolved.traversed;
    // where the host network has been traversed, if it has
    var start := 0;
    while start < |traversed| && traversed[start] != t.host.name
      invariant 0 <= start <= |traversed|
      invariant t.host.name !in traversed[..start]
    {
      start := start + 1;
    }
    if start == |traversed| {
      start := 0;
      for i := 0 to |path|
        invariant fresh(bankSymbol) && bankSymbol.Valid() && bankSymbol.added == Ids(path[..i])
      {
        bankSymbol.AddChannel(path[i].id);
        assert path[..i + 1][..i] == path[..i];
      }
      assert path[..|path|] == path && traversed[..|traversed|] == traversed && traversed[0..] == traversed;
    }
    var failed := FoldBankSide(t.channels, bankSymbol, traversed[start..]);
    if failed.Some? {
      return Failure(failed.value);
    }
    var host := bankSymbol.AddSymbol(resolved.native.symbol, digest);
    var dex := resolved.dexSymbol.AddSymbol(resolved.native.symbol, digest);
    var definition := CurrencyDefinition(ticker, host, dex, resolved.native.decimalDigits);
    return Success(if resolved.hostLocal then Local(definition) else Remote(definition));
  }

  method ResolveCurrency(t: Topology, dex: NetworkId, path: seq<Channel>, ticker: CurrencyId, digest: string -> string,
      currency: Currency)
    returns (r: Result<HostLocality, Error>)
    requires path != []
    ensures Resolved(t, dex, path, ticker, digest, currency, r)
  {
    var resolved, route, currencies := ResolveDexSide(t, dex, path, currency);
    if resolved.Failure? {
      return Failure(resolved.error);
    }
    assert (route + [t.host.name])[..|route|] == route;
    r := ResolveBankSide(t, path, ticker, digest, resolved.value);
  }

  lemma {:induction false} TracesAgree(t: Topology, dex: NetworkId, start: Currency,
      r1: seq<NetworkId>, c1: seq<Currency>, r2: seq<NetworkId>, c2: seq<Currency>, k: nat)
    requires Trace(t, dex, start, r1, c1) && Trace(t, dex, start, r2, c2) && 0 < k <= |r1| && k <= |r2|
    ensures r1[..k] == r2[..k] && c1[k - 1] == c2[k - 1]
  {
    if k == 1 {
      assert r1[..1] == [dex] == r2[..1];
    } else {
      TracesAgree(t, dex, start, r1, c1, r2, c2, k - 1);
      assert Follows(t, r1[..k - 2 + 1], c1[k - 2], c1[k - 2 + 1]) &&
        Follows(t, r2[..k - 2 + 1], c2[k - 2], c2[k - 2 + 1]);
      assert r1[k - 2 + 1] == c1[k - 2].network == r2[k - 2 + 1];
      assert r1[..k] == r1[..k - 1] + [r1[k - 1]] && r2[..k] == r2[..k - 1] + [r2[k - 1]];
    }
  }

  lemma TraceStep(t: Topology, dex: NetworkId, start: Currency, route: seq<NetworkId>, currencies: seq<Currency>,
      i: nat)
    requires Trace(t, dex, start, route, currencies) && i + 1 < |route|
    ensures Follows(t, route[..i + 1], currencies[i], currencies[i + 1])
  {}

  lemma CompleteNotLonger(t: Topology, dex: NetworkId, start: Currency,
      r1: seq<NetworkId>, c1: seq<Currency>, r2: seq<NetworkId>, c2: seq<Currency>)
    requires Trace(t, dex, start, r1, c1) && Trace(t, dex, start, r2, c2)
    requires Complete(t, r1, c1[|r1| - 1])
    ensures |r2| <= |r1|
  {
    assert r1[..|r1|] == r1;
    if |r1| < |r2| {
      TracesAgree(t, dex, start, r1, c1, r2, c2, |r1|);
      TraceStep(t, dex, start, r2, c2, |r1| - 1);
      assert false;
    }
  }

  lemma OutcomeOf(t: Topology, dex: NetworkId, path: seq<Channel>, ticker: CurrencyId, digest: string -> string,
      currency: Currency, r: Result<HostLocality, Error>) returns (route: seq<NetworkId>, currencies: seq<Currency>)
    requires path != [] && Resolved(t, dex, path, ticker, digest, currency, r)
    ensures Trace(t, dex, currency, route, currencies) && Complete(t, route, currencies[|route| - 1])
    ensures r == Outcome(t, path, ticker, digest, route, currencies[|route| - 1])
  {
    hide Complete, Outcome;
    route, currencies :| Trace(t, dex, currency, route, currencies) && Complete(t, route, currencies[|route| - 1])
      && r == Outcome(t, path, ticker, digest, route, currencies[|route| - 1]);
  }

  /** There is exactly one result a currency may resolve to. */
  lemma ResolvedOnce(t: Topology, dex: NetworkId, path: seq<Channel>, ticker: CurrencyId, digest: string -> string,
      currency: Currency, r1: Result<HostLocality, Error>, r2: Result<HostLocality, Error>)
    requires path != []
    requires Resolved(t, dex, path, ticker, digest, currency, r1)
    requires Resolved(t, dex, path, ticker, digest, currency, r2)
    ensures r1 == r2
  {
    hide Complete, Outcome, Resolved;
    var n1, c1 := OutcomeOf(t, dex, path, ticker, digest, currency, r1);
    var n2, c2 := OutcomeOf(t, dex, path, ticker, digest, currency, r2);
    CompleteNotLonger(t, dex, currency, n1, c1, n2, c2);
    CompleteNotLonger(t, dex, currency, n2, c2, n1, c1);
    TracesAgree(t, dex, currency, n1, c1, n2, c2, |n1|);
    assert n1 == n1[..|n1|] == n2[..|n2|] == n2;
  }

  lemma HostPassed(t: Topology, dex: NetworkId, start: Currency, route: seq<NetworkId>, currencies: seq<Currency>)
    requires Trace(t, dex, start, route, currencies)
    ensures t.host.name in route <==> dex == t.host.name
  {
    if i :| 0 <= i < |route| && route[i] == t.host.name {
      if i > 0 {
        TraceStep(t, dex, start, route, currencies, i - 1);
      }
    }
  }

  lemma AllJoinedBut(channels: ChannelMap, route: seq<NetworkId>)
    requires AllJoined(channels, route) && |route| > 1
    ensures AllJoined(channels, route[..|route| - 1]) && Edge(channels, route[|route| - 2], route[|route| - 1])
  {
    var n: nat, shorter := |route| - 2, route[..|route| - 1];
    assert Joined(channels, route, n);
    assert forall i: nat :: i + 1 < |shorter| ==> (Joined(channels, shorter, i) <==> Joined(channels, route, i));
  }

  /** `hops` are the channels along a route of connected networks, each the one a network has to the next. */
  ghost predicate ChannelsAlong(channels: ChannelMap, route: seq<NetworkId>, hops: seq<ChannelId>) {
    && |route| == |hops| + 1
    && forall i :: 0 <= i < |hops| ==>
         Edge(channels, route[i], route[i + 1]) && hops[i] == channels[route[i]].channel[route[i + 1]]
  }

  lemma {:induction false} AllHops(channels: ChannelMap, route: seq<NetworkId>)
    requires AllJoined(channels, route) && route != []
    ensures ChannelsAlong(channels, route, RouteHops(channels, route))
    decreases |route|
  {
    if |route| > 1 {
      AllJoinedBut(channels, route);
      AllHops(channels, route[..|route| - 1]);
    }
  }

  lemma {:induction false} IdsAt(path: seq<Channel>)
    ensures |Ids(path)| == |path| && forall i :: 0 <= i < |path| ==> Ids(path)[i] == path[i].id
  {
    if path != [] {
      IdsAt(path[..|path| - 1]);
    }
  }

  /** The bank path of a currency not native to the host is the channels from the host to the DEX network,
      unless they are the same, followed by exactly the channels of its DEX path, which are those of all the
      networks it came through. */
  lemma RemoteBankPath(t: Topology, dex: NetworkId, path: seq<Channel>, ticker: CurrencyId, digest: string -> string,
      currency: Currency, r: Result<HostLocality, Error>)
    returns (route: seq<NetworkId>, currencies: seq<Currency>, symbol: CurrencyId)
    requires path != [] && Resolved(t, dex, path, ticker, digest, currency, r)
    requires r.Success? && r.value.Remote?
    ensures Trace(t, dex, currency, route, currencies) && AllJoined(t.channels, route)
    ensures |route| == |currencies| > 0 && route[0] == dex
    ensures currencies[|route| - 1].Native? && currencies[|route| - 1].native.symbol == symbol
    ensures var hops := RouteHops(t.channels, route);
      var bankHops := if dex == t.host.name then hops else Ids(path) + hops;
      && |hops| == |route| - 1
      && r.value.definition == CurrencyDefinition(ticker, SymbolOf(bankHops, symbol, digest),
           SymbolOf(hops, symbol, digest), currencies[|route| - 1].native.decimalDigits)
  {
    hide Complete, Resolved, Denom, RouteHops, Ids;
    route, currencies := OutcomeOf(t, dex, path, ticker, digest, currency, r);
    symbol := currencies[|route| - 1].native.symbol;
    HostPassed(t, dex, currency, route, currencies);
    AllHops(t.channels, route);
    assert [] + RouteHops(t.channels, route) == RouteHops(t.channels, route);
  }

  lemma JoinedWalk(channels: ChannelMap, w: seq<NetworkId>, a: NetworkId, b: NetworkId)
    requires IsWalk(channels, w, a, b)
    ensures AllJoined(channels, w)
  {
    forall i: nat | i + 1 < |w| ensures Joined(channels, w, i) {
      assert Edge(channels, w[i], w[i + 1]);
    }
  }

  lemma WalkHops(channels: ChannelMap, w: seq<NetworkId>)
    requires Symmetric(channels) && |w| > 0 && IsWalk(channels, w, w[0], w[|w| - 1])
    ensures AllJoined(channels, w) && RouteHops(channels, w) == Ids(Hops(channels, w))
  {
    hide RouteHops, Ids, AllJoined, Symmetric;
    JoinedWalk(channels, w, w[0], w[|w| - 1]);
    AllHops(channels, w);
    var hops := Hops(channels, w);
    IdsAt(hops);
    forall i: nat | i < |hops| ensures RouteHops(channels, w)[i] == Ids(hops)[i] {
      HopsAt(channels, w, i);
    }
  }

  lemma AllJoinedAppend(channels: ChannelMap, route: seq<NetworkId>, n: NetworkId)
    requires route != []
    ensures AllJoined(channels, route + [n]) <==> AllJoined(channels, route) && Edge(channels, route[|route| - 1], n)
  {
    var whole := route + [n];
    assert forall i: nat :: i + 1 < |route| ==> (Joined(channels, whole, i) <==> Joined(channels, route, i));
    assert Joined(channels, whole, |route| - 1) <==> Edge(channels, route[|route| - 1], n);
  }

  lemma NoHops(channels: ChannelMap, route: seq<NetworkId>)
    requires |route| == 1
    ensures RouteHops(channels, route) == []
  {}

  lemma {:induction false} RouteHopsJoin(channels: ChannelMap, w: seq<NetworkId>, route: seq<NetworkId>)
    requires w != [] && route != [] && w[|w| - 1] == route[0]
    requires AllJoined(channels, w) && AllJoined(channels, route)
    ensures AllJoined(channels, w + route[1..])
    ensures RouteHops(channels, w + route[1..]) == RouteHops(channels, w) + RouteHops(channels, route)
    decreases |route|
  {
    hide RouteHops, AllJoined;
    if |route| == 1 {
      assert w + route[1..] == w;
      NoHops(channels, route);
    } else {
      var shorter, last := route[..|route| - 1], route[|route| - 1];
      AllJoinedBut(channels, route);
      RouteHopsJoin(channels, w, shorter);
      var whole := w + shorter[1..];
      assert whole + [last] == w + route[1..] && shorter + [last] == route;
      assert whole[|whole| - 1] == shorter[|shorter| - 1];
      RouteHopsAppend(channels, whole, last);
      RouteHopsAppend(channels, shorter, last);
      AllJoinedAppend(channels, whole, last);
    }
  }

  lemma ShortestWalk(channels: ChannelMap, host: NetworkId, dex: NetworkId, path: seq<Channel>)
    returns (w: seq<NetworkId>)
    requires Symmetric(channels) && HostToDex.FoundPath(channels, host, dex, path) && dex != host
    ensures |w| > 1 && w[0] == host && w[|w| - 1] == dex && path != []
    ensures IsWalk(channels, w, host, dex) && path == Hops(channels, w)
    ensures forall other :: IsWalk(channels, other, host, dex) ==> |w| <= |other|
  {
    w :| IsWalk(channels, w, host, dex) && path == Hops(channels, w);
    hide Hops;
  }

  /** Seen from the host a currency not native to it came over a shortest walk to the DEX network and the networks
      from there on: its bank path is exactly the channels of the networks on that way, each to the next. */
  lemma RemoteBankPathFromHost(t: Topology, dex: NetworkId, path: seq<Channel>, ticker: CurrencyId,
      digest: string -> string, currency: Currency, r: Result<HostLocality, Error>)
    returns (w: seq<NetworkId>, route: seq<NetworkId>, currencies: seq<Currency>, hops: seq<ChannelId>)
    requires Symmetric(t.channels) && HostToDex.FoundPath(t.channels, t.host.name, dex, path) && dex != t.host.name
    requires Resolved(t, dex, path, ticker, digest, currency, r) && r.Success? && r.value.Remote?
    ensures IsWalk(t.channels, w, t.host.name, dex)
    ensures forall other :: IsWalk(t.channels, other, t.host.name, dex) ==> |w| <= |other|
    ensures Trace(t, dex, currency, route, currencies) && currencies[|route| - 1].Native?
    ensures ChannelsAlong(t.channels, w + route[1..], hops)
    ensures r.value.definition.host.path == Denom(hops, currencies[|route| - 1].native.symbol)
    ensures r.value.definition.host.symbol == digest(r.value.definition.host.path)
  {
    hide Resolved, Denom, RouteHops, AllJoined, Complete, IsWalk, Trace, HostToDex.FoundPath;
    var symbol;
    w := ShortestWalk(t.channels, t.host.name, dex, path);
    route, currencies, symbol := RemoteBankPath(t, dex, path, ticker, digest, currency, r);
    WalkHops(t.channels, w);
    RouteHopsJoin(t.channels, w, route);
    AllHops(t.channels, w + route[1..]);
    hops := RouteHops(t.channels, w + route[1..]);
  }

  /** The program panics over a host network already traversed exactly when the host network is the DEX network
      and a currency followed from there leads back to it. */
  lemma TraversedOnlyAtHost(t: Topology, dex: NetworkId, path: seq<Channel>, ticker: CurrencyId,
      digest: string -> string, currency: Currency, r: Result<HostLocality, Error>)
    returns (route: seq<NetworkId>, currencies: seq<Currency>)
    requires path != [] && Resolved(t, dex, path, ticker, digest, currency, r)
    ensures Trace(t, dex, currency, route, currencies) && Complete(t, route, currencies[|route| - 1])
    ensures var last := currencies[|route| - 1];
      r == Failure(HostAlreadyTraversed) <==> dex == t.host.name && last.Ibc? && last.network == t.host.name
  {
    hide Complete, Resolved, SymbolOf, RouteHops;
    route, currencies := OutcomeOf(t, dex, path, ticker, digest, currency, r);
    HostPassed(t, dex, currency, route, currencies);
  }

  // ----- The DEX path of the currency native to the host -----

  /** The currency with the DEX path `dexPath` has come to the DEX network through the networks of `route`, the
      other way round: they are all connected, and the path is that of the channels between them. */
  ghost predicate CameThrough(channels: ChannelMap, route: seq<NetworkId>, symbol: CurrencyId, dexPath: string) {
    AllJoined(channels, route) && dexPath == Denom(RouteHops(channels, route), symbol)
  }

  lemma ChannelAt(prefix: string, c: ChannelId, rest: string)
    ensures var path, from := prefix + Segment(c) + rest, |prefix| + |PORT|;
      |path| == from + |c.name| + 1 + |rest| && path[from..from + |c.name|] == c.name
  {}

  lemma LastHopOf(hops: seq<ChannelId>, c: ChannelId, d: ChannelId, symbol: CurrencyId)
    ensures Denom(hops + [c], symbol) == Denom(hops + [d], symbol) <==> c == d
  {
    assert (hops + [c])[..|hops|] == hops == (hops + [d])[..|hops|];
    assert Denom(hops + [c], symbol) == Prefix(hops) + Segment(c) + symbol.name;
    assert Denom(hops + [d], symbol) == Prefix(hops) + Segment(d) + symbol.name;
    hide Denom, Prefix, Segment;
    ChannelAt(Prefix(hops), c, symbol.name);
    ChannelAt(Prefix(hops), d, symbol.name);
  }

  lemma CameThroughHost(channels: ChannelMap, host: NetworkId, route: seq<NetworkId>, c: ChannelId,
      symbol: CurrencyId, dexPath: string)
    requires Symmetric(channels) && route != [] && dexPath == Denom(RouteHops(channels, route) + [c], symbol)
    ensures var last := route[|route| - 1];
      CameThrough(channels, route + [host], symbol, dexPath) <==>
      && AllJoined(channels, route) && Edge(channels, host, last) && Edge(channels, last, host)
      && channels[last].channel[host] == c
  {
    hide Denom, RouteHops, AllJoined;
    var last := route[|route| - 1];
    AllJoinedAppend(channels, route, host);
    RouteHopsAppend(channels, route, host);
    assert InverseFilledIn(channels, last, host);
    if Edge(channels, last, host) {
      LastHopOf(RouteHops(channels, route), channels[last].channel[host], c, symbol);
    }
  }

  lemma FirstNetwork(channels: ChannelMap, host: NetworkId, dex: NetworkId, path: seq<Channel>)
    returns (first: NetworkId)
    requires Symmetric(channels) && HostToDex.FoundPath(channels, host, dex, path) && host != dex
    ensures Linked(channels, host, first) && path[0] == Hop(channels, host, first)
    ensures |path| == 1 ==> first == dex
    ensures Edge(channels, host, dex) ==> |path| == 1
  {
    var w :| IsWalk(channels, w, host, dex) && path == Hops(channels, w);
    first := w[1];
    HopsAt(channels, w, 0);
    if Edge(channels, host, dex) {
      assert IsWalk(channels, [host, dex], host, dex);
    }
  }

  lemma LocalOutcome(t: Topology, dex: NetworkId, path: seq<Channel>, ticker: CurrencyId,
      digest: string -> string, currency: Currency, r: Result<HostLocality, Error>)
    returns (route: seq<NetworkId>, currencies: seq<Currency>)
    requires path != [] && Resolved(t, dex, path, ticker, digest, currency, r) && r.Success? && r.value.Local?
    ensures Trace(t, dex, currency, route, currencies) && Complete(t, route, currencies[|route| - 1])
    ensures r.value.definition.dex.path ==
      Denom(RouteHops(t.channels, route) + [path[0].counterpart], t.host.native.symbol)
    ensures dex != t.host.name && route != []
    ensures r.value.definition.ticker == ticker && r.value.definition.decimalDigits == t.host.native.decimalDigits
    ensures r.value.definition.host == Symbol(t.host.native.symbol.name, t.host.native.symbol.name)
  {
    hide Complete, Resolved, Denom, RouteHops, FirstBroken, Ids;
    route, currencies := OutcomeOf(t, dex, path, ticker, digest, currency, r);
    HostPassed(t, dex, currency, route, currencies);
    DenomFormat([], t.host.native.symbol);
  }

  /** When a currency resolves to the one native to the host, its DEX path is the path it came over if and only
      if the networks passed are all connected, the last of them is connected to the host, and the channel to
      the host there has the id of the one at the first network from the host to the DEX network. The
      resolution checks none of this. */
  lemma LocalDexPathExact(t: Topology, dex: NetworkId, path: seq<Channel>, ticker: CurrencyId,
      digest: string -> string, currency: Currency, r: Result<HostLocality, Error>)
    returns (route: seq<NetworkId>, currencies: seq<Currency>, first: NetworkId)
    requires Symmetric(t.channels) && HostToDex.FoundPath(t.channels, t.host.name, dex, path)
    requires Resolved(t, dex, path, ticker, digest, currency, r) && r.Success? && r.value.Local?
    ensures Trace(t, dex, currency, route, currencies) && Complete(t, route, currencies[|route| - 1])
    ensures Linked(t.channels, t.host.name, first) && path[0] == Hop(t.channels, t.host.name, first)
    ensures |path| == 1 ==> first == dex
    ensures r.value.definition.ticker == ticker && r.value.definition.decimalDigits == t.host.native.decimalDigits
    ensures r.value.definition.host == Symbol(t.host.native.symbol.name, t.host.native.symbol.name)
    ensures var last, host := route[|route| - 1], t.host.name;
      CameThrough(t.channels, route + [host], t.host.native.symbol, r.value.definition.dex.path) <==>
      && AllJoined(t.channels, route) && Edge(t.channels, host, last) && Edge(t.channels, last, host)
      && t.channels[last].channel[host] == t.channels[first].channel[host]
  {
    hide Trace, Complete, Resolved, Denom, RouteHops, CameThrough, HostToDex.ShortestPath;
    route, currencies := LocalOutcome(t, dex, path, ticker, digest, currency, r);
    first := FirstNetwork(t.channels, t.host.name, dex, path);
    CameThroughHost(t.channels, t.host.name, route, path[0].counterpart, t.host.native.symbol,
      r.value.definition.dex.path);
  }

  lemma DirectResolved(t: Topology, dex: NetworkId, path: seq<Channel>, ticker: CurrencyId, digest: string -> string)
    returns (r: Result<HostLocality, Error>)
    requires path != [] && dex != t.host.name
    ensures Resolved(t, dex, path, ticker, digest, Ibc(t.host.name, t.host.currencyId), r)
    ensures r.Success? && r.value.Local?
  {
    hide SymbolOf, RouteHops;
    var currency := Ibc(t.host.name, t.host.currencyId);
    assert Trace(t, dex, currency, [dex], [currency]) && Complete(t, [dex], currency);
    r := Outcome(t, path, ticker, digest, [dex], currency);
    assert [currency][|[dex]| - 1] == currency;
  }

  /** The DEX path of the host currency listed directly at the DEX network is right if and only if the two
      networks are connected. */
  lemma LocalDexPathDirect(t: Topology, dex: NetworkId, path: seq<Channel>, ticker: CurrencyId,
      digest: string -> string, r: Result<HostLocality, Error>)
    requires Symmetric(t.channels) && HostToDex.FoundPath(t.channels, t.host.name, dex, path) && dex != t.host.name
    requires Resolved(t, dex, path, ticker, digest, Ibc(t.host.name, t.host.currencyId), r)
    ensures r.Success? && r.value.Local?
    ensures CameThrough(t.channels, [dex, t.host.name], t.host.native.symbol, r.value.definition.dex.path)
      <==> Edge(t.channels, t.host.name, dex)
  {
    hide Complete, Resolved, CameThrough, RouteHops, IsWalk, HostToDex.ShortestPath;
    var host, currency := t.host.name, Ibc(t.host.name, t.host.currencyId);
    var direct := DirectResolved(t, dex, path, ticker, digest);
    ResolvedOnce(t, dex, path, ticker, digest, currency, r, direct);
    var route, currencies, first := LocalDexPathExact(t, dex, path, ticker, digest, currency, r);
    if |route| > 1 {
      TraceStep(t, dex, currency, route, currencies, 0);
    }
    assert route == [dex] && route + [host] == [dex, host];
    assert AllJoined(t.channels, [dex]) && InverseFilledIn(t.channels, host, dex);
    var again := FirstNetwork(t.channels, host, dex, path);
  }

  lemma NotOneHop(channels: ChannelMap, a: NetworkId, b: NetworkId)
    requires a != b && !Edge(channels, a, b)
    ensures forall w :: IsWalk(channels, w, a, b) ==> |w| >= 3
  {}

  lemma TwoHops(h: NetworkId, m: NetworkId, d: NetworkId, c: seq<ChannelId>)
    returns (channels: ChannelMap, path: seq<Channel>)
    requires h != m && m != d && d != h && |c| == 4
    ensures Symmetric(channels) && HostToDex.ShortestPath(channels, h, d, path) && path != []
    ensures d in channels && !Edge(channels, d, h)
  {
    channels := map[
      h := ConnectedNetworks([m], map[m := c[0]]),
      m := ConnectedNetworks([h, d], map[h := c[1], d := c[2]]),
      d := ConnectedNetworks([m], map[m := c[3]])];
    forall a, b ensures InverseFilledIn(channels, a, b) {}
    hide Distinct;
    var w := [h, m] + [d];
    HopsAppend(channels, [h], m);
    assert [h] + [m] == [h, m];
    HopsAppend(channels, [h, m], d);
    path := Hops(channels, w);
    NotOneHop(channels, h, d);
  }

  /** A topology for which the DEX path of the host currency is not the path it could have come over: the
      DEX network listing it is not connected to the host network. */
  lemma LocalDexPathOfUnconnected(digest: string -> string)
    returns (t: Topology, dex: NetworkId, path: seq<Channel>, r: Result<HostLocality, Error>)
    ensures Symmetric(t.channels) && HostToDex.FoundPath(t.channels, t.host.name, dex, path)
    ensures dex in t.networks && t.networks[dex].Valid() && t.networks[dex].order == [t.host.currencyId]
    ensures t.networks[dex].currencies[t.host.currencyId] == Ibc(t.host.name, t.host.currencyId)
    ensures Resolved(t, dex, path, t.host.currencyId, digest, Ibc(t.host.name, t.host.currencyId), r)
    ensures r.Success? && r.value.Local?
    ensures !CameThrough(t.channels, [dex, t.host.name], t.host.native.symbol, r.value.definition.dex.path)
  {
    var h, m, id := NetworkId("h"), NetworkId("m"), CurrencyId("c");
    dex := NetworkId("d");
    assert h.name[0] != m.name[0] && m.name[0] != dex.name[0] && dex.name[0] != h.name[0];
    var channels;
    channels, path := TwoHops(h, m, dex, [ChannelId("0"), ChannelId("1"), ChannelId("2"), ChannelId("3")]);
    var currency := Ibc(h, id);
    t := Topology(Host(h, id, NativeCurrency(id, 6)), map[dex := Network([id], map[id := currency])], channels);
    hide SymbolOf, AllJoined, RouteHops, CameThrough, Trace, Complete, Resolved, HostToDex.ShortestPath;
    assert InverseFilledIn(channels, h, dex);
    r := DirectResolved(t, dex, path, id, digest);
    LocalDexPathDirect(t, dex, path, id, digest, r);
  }
}
