/** The definitions of all the currencies listed at a DEX network. */
module CurrencyDefinitions {
  import opened Wrappers
  import opened Sequences
  import opened Channels
  import opened Topology
  import opened CurrencyResolution
  import HostToDex

  datatype DefinitionsError =
    | NonExistentDexNetwork
    | HostNotConnectedToDex
    | Unresolved(error: CurrencyResolution.Error)
    | HostCurrencyAlreadyDefined
    | HostCurrencyNotDefined

  datatype Definitions = Definitions(hostCurrency: CurrencyDefinition, dexCurrencies: seq<CurrencyDefinition>)

  ghost function Locals(ls: seq<HostLocality>): seq<CurrencyDefinition> {
    if ls == [] then []
    else
      var last := ls[|ls| - 1];
      Locals(ls[..|ls| - 1]) + if last.Local? then [last.definition] else []
  }

  ghost function Remotes(ls: seq<HostLocality>): seq<CurrencyDefinition> {
    if ls == [] then []
    else
      var last := ls[|ls| - 1];
      Remotes(ls[..|ls| - 1]) + if last.Remote? then [last.definition] else []
  }

  ghost predicate ResolvesAt(t: Topology, dex: NetworkId, digest: string -> string, path: seq<Channel>, i: nat,
      r: Result<HostLocality, CurrencyResolution.Error>)
    requires dex in t.networks && t.networks[dex].Valid() && path != []
  {
    var network := t.networks[dex];
    i < |network.order| && Resolved(t, dex, path, network.order[i], digest, network.currencies[network.order[i]], r)
  }

  /** `path` is one found to the DEX network, and the first currencies it lists resolve, in their
      order, to `ls`. */
  ghost predicate Listed(t: Topology, dex: NetworkId, digest: string -> string, path: seq<Channel>,
      ls: seq<HostLocality>)
    requires Symmetric(t.channels) && dex in t.networks && t.networks[dex].Valid()
  {
    && HostToDex.FoundPath(t.channels, t.host.name, dex, path)
    && |ls| <= |t.networks[dex].order|
    && forall i :: 0 <= i < |ls| ==> ResolvesAt(t, dex, digest, path, i, Success(ls[i]))
  }

  /** What the definitions, or the lack of them, come to after the currencies resolved to `ls`. */
  ghost predicate Defined(t: Topology, dex: NetworkId, digest: string -> string, path: seq<Channel>,
      ls: seq<HostLocality>, r: Result<Definitions, DefinitionsError>)
    requires Symmetric(t.channels) && dex in t.networks && t.networks[dex].Valid()
  {
    && Listed(t, dex, digest, path, ls)
    && match r
       case Success(definitions) =>
         |ls| == |t.networks[dex].order| && Locals(ls) == [definitions.hostCurrency] &&
           Remotes(ls) == definitions.dexCurrencies
       case Failure(HostCurrencyNotDefined) => |ls| == |t.networks[dex].order| && Locals(ls) == []
       case Failure(HostCurrencyAlreadyDefined) => |Locals(ls)| == 2 && ls[|ls| - 1].Local?
       case Failure(Unresolved(error)) => |Locals(ls)| <= 1 && ResolvesAt(t, dex, digest, path, |ls|, Failure(error))
       case _ => false
  }

  lemma PanicOnlyAtHost(t: Topology, dex: NetworkId, digest: string -> string, path: seq<Channel>,
      ls: seq<HostLocality>, r: Result<Definitions, DefinitionsError>)
    requires Symmetric(t.channels) && dex in t.networks && t.networks[dex].Valid()
    requires Defined(t, dex, digest, path, ls, r) && r == Failure(Unresolved(HostAlreadyTraversed))
    ensures dex == t.host.name
  {
    hide Resolved, HostToDex.ShortestPath;
    var network := t.networks[dex];
    var ticker := network.order[|ls|];
    var error := Failure(HostAlreadyTraversed);
    var route, currencies := TraversedOnlyAtHost(t, dex, path, ticker, digest, network.currencies[ticker], error);
  }

  lemma ListedAppend(t: Topology, dex: NetworkId, digest: string -> string, path: seq<Channel>, ls: seq<HostLocality>,
      l: HostLocality)
    requires Symmetric(t.channels) && dex in t.networks && t.networks[dex].Valid()
    requires Listed(t, dex, digest, path, ls) && ResolvesAt(t, dex, digest, path, |ls|, Success(l))
    ensures Listed(t, dex, digest, path, ls + [l])
  {
    hide Resolved;
    hide HostToDex.ShortestPath;
    forall i | 0 <= i < |ls + [l]| ensures ResolvesAt(t, dex, digest, path, i, Success((ls + [l])[i])) {
      if i < |ls| {
        assert ResolvesAt(t, dex, digest, path, i, Success(ls[i]));
      }
    }
  }

  lemma SplitAppend(ls: seq<HostLocality>, l: HostLocality)
    ensures Locals(ls + [l]) == Locals(ls) + if l.Local? then [l.definition] else []
    ensures Remotes(ls + [l]) == Remotes(ls) + if l.Remote? then [l.definition] else []
  {
    assert (ls + [l])[..|ls|] == ls;
  }

  ghost function LocalsAt(ls: seq<HostLocality>): set<nat> {
    set i: nat | i < |ls| && ls[i].Local?
  }

  ghost function RemotesAt(ls: seq<HostLocality>): set<nat> {
    set i: nat | i < |ls| && ls[i].Remote?
  }

  lemma LastAt(ls: seq<HostLocality>)
    requires ls != []
    ensures var n: nat, init := |ls| - 1, ls[..|ls| - 1];
      && LocalsAt(ls) == LocalsAt(init) + (if ls[n].Local? then {n} else {})
      && RemotesAt(ls) == RemotesAt(init) + (if ls[n].Remote? then {n} else {})
      && (forall i :: i in LocalsAt(init) ==> i < n) && (forall i :: i in RemotesAt(init) ==> i < n)
  {}

  lemma {:induction false} LocalsInOrder(ls: seq<HostLocality>) returns (at: seq<nat>)
    ensures Lists(at, LocalsAt(ls)) && |Locals(ls)| == |at|
    ensures forall j :: 0 <= j < |at| ==> at[j] < |ls| && Locals(ls)[j] == ls[at[j]].definition
  {
    if ls == [] {
      at := [];
    } else {
      var n: nat, init := |ls| - 1, ls[..|ls| - 1];
      at := LocalsInOrder(init);
      LastAt(ls);
      hide Lists, LocalsAt, RemotesAt;
      if ls[n].Local? {
        ListsMore(at, LocalsAt(init), n);
        at := at + [n];
      } else {
        assert LocalsAt(init) + {} == LocalsAt(init);
      }
    }
  }

  lemma {:induction false} RemotesInOrder(ls: seq<HostLocality>) returns (at: seq<nat>)
    ensures Lists(at, RemotesAt(ls)) && |Remotes(ls)| == |at|
    ensures forall j :: 0 <= j < |at| ==> at[j] < |ls| && Remotes(ls)[j] == ls[at[j]].definition
  {
    if ls == [] {
      at := [];
    } else {
      var n: nat, init := |ls| - 1, ls[..|ls| - 1];
      at := RemotesInOrder(init);
      LastAt(ls);
      hide Lists, LocalsAt, RemotesAt;
      if ls[n].Remote? {
        ListsMore(at, RemotesAt(init), n);
        at := at + [n];
      } else {
        assert RemotesAt(init) + {} == RemotesAt(init);
      }
    }
  }

  /** The definitions are split by the locality of the currencies, keeping their order. */
  lemma SplitInOrder(ls: seq<HostLocality>) returns (local: seq<nat>, remote: seq<nat>)
    ensures Lists(local, LocalsAt(ls)) && |Locals(ls)| == |local|
    ensures forall j :: 0 <= j < |local| ==> local[j] < |ls| && Locals(ls)[j] == ls[local[j]].definition
    ensures Lists(remote, RemotesAt(ls)) && |Remotes(ls)| == |remote|
    ensures forall j :: 0 <= j < |remote| ==> remote[j] < |ls| && Remotes(ls)[j] == ls[remote[j]].definition
  {
    hide Lists, Locals, Remotes, LocalsAt, RemotesAt;
    local := LocalsInOrder(ls);
    remote := RemotesInOrder(ls);
  }

  lemma NoneListed(t: Topology, dex: NetworkId, digest: string -> string, path: seq<Channel>)
    requires Symmetric(t.channels) && dex in t.networks && t.networks[dex].Valid()
    requires HostToDex.FoundPath(t.channels, t.host.name, dex, path)
    ensures Listed(t, dex, digest, path, []) && Locals([]) == [] && Remotes([]) == []
  {}

  method DefineAll(t: Topology, dex: NetworkId, digest: string -> string, path: seq<Channel>)
    returns (r: Result<Definitions, DefinitionsError>)
    requires Symmetric(t.channels) && dex in t.networks && t.networks[dex].Valid()
    requires HostToDex.FoundPath(t.channels, t.host.name, dex, path)
    ensures exists ls :: Defined(t, dex, digest, path, ls, r)
  {
    hide Resolved, Listed, Locals, Remotes;
    hide HostToDex.ShortestPath;
    NoneListed(t, dex, digest, path);
    var network := t.networks[dex];
    var hostCurrency: Option<CurrencyDefinition>, dexCurrencies := None, [];
    ghost var ls: seq<HostLocality> := [];
    for i := 0 to |network.order|
      invariant |ls| == i && Listed(t, dex, digest, path, ls)
      invariant Locals(ls) == (if hostCurrency.Some? then [hostCurrency.value] else []) && Remotes(ls) == dexCurrencies
    {
      var ticker := network.order[i];
      var resolved := ResolveCurrency(t, dex, path, ticker, digest, network.currencies[ticker]);
      if resolved.Failure? {
        assert Defined(t, dex, digest, path, ls, Failure(Unresolved(resolved.error)));
        return Failure(Unresolved(resolved.error));
      }
      ListedAppend(t, dex, digest, path, ls, resolved.value);
      SplitAppend(ls, resolved.value);
      ls := ls + [resolved.value];
      match resolved.value
      case Local(definition) =>
        if hostCurrency.Some? {
          assert Defined(t, dex, digest, path, ls, Failure(HostCurrencyAlreadyDefined));
          return Failure(HostCurrencyAlreadyDefined);
        }
        hostCurrency := Some(definition);
      case Remote(definition) =>
        dexCurrencies := dexCurrencies + [definition];
    }
    if hostCurrency.None? {
      assert Defined(t, dex, digest, path, ls, Failure(HostCurrencyNotDefined));
      return Failure(HostCurrencyNotDefined);
    }
    assert Defined(t, dex, digest, path, ls, Success(Definitions(hostCurrency.value, dexCurrencies)));
    return Success(Definitions(hostCurrency.value, dexCurrencies));
  }

  method CurrencyDefinitions(t: Topology, dex: NetworkId, digest: string -> string)
    returns (r: Result<Definitions, DefinitionsError>)
    requires Symmetric(t.channels)
    requires forall n :: n in t.networks ==> t.networks[n].Valid()
    ensures r == Failure(NonExistentDexNetwork) <==> dex !in t.networks
    ensures dex in t.networks ==>
      (r == Failure(HostNotConnectedToDex) <==> !HostToDex.Reaches(t.channels, t.host.name, dex))
    ensures dex in t.networks && r != Failure(HostNotConnectedToDex) ==>
      exists path, ls :: Defined(t, dex, digest, path, ls, r)
    ensures r == Failure(Unresolved(HostAlreadyTraversed)) ==>
      dex == t.host.name && Edge(t.channels, t.host.name, t.host.name)
  {
    if dex !in t.networks {
      return Failure(NonExistentDexNetwork);
    }
    var path := HostToDex.FindPath(t.channels, t.host.name, dex);
    if path.Failure? {
      return Failure(HostNotConnectedToDex);
    }
    r := DefineAll(t, dex, digest, path.value);
    if r == Failure(Unresolved(HostAlreadyTraversed)) {
      ghost var ls :| Defined(t, dex, digest, path.value, ls, r);
      PanicOnlyAtHost(t, dex, digest, path.value, ls, r);
    }
  }
}
