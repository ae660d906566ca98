/** The channel map of a topology and the walks through it. */
module Channels {
  import opened Sequences

  datatype NetworkId = NetworkId(name: string)
  datatype ChannelId = ChannelId(name: string)

  /** The ordered map of the networks one network is connected to: `order` is the order in which
      the entries are iterated, `channel` the channel leading to each of them. */
  datatype ConnectedNetworks = ConnectedNetworks(order: seq<NetworkId>, channel: map<NetworkId, ChannelId>) {
    ghost predicate Valid() {
      && (forall n :: n in order <==> n in channel)
      && Distinct(order)
    }
  }

  type ChannelMap = map<NetworkId, ConnectedNetworks>

  /** One hop: the channel at its near end and the counterpart at its far end. */
  datatype Channel = Channel(id: ChannelId, counterpart: ChannelId)

  ghost predicate Edge(channels: ChannelMap, a: NetworkId, b: NetworkId) {
    a in channels && b in channels[a].channel
  }

  ghost predicate InverseFilledIn(channels: ChannelMap, a: NetworkId, b: NetworkId) {
    Edge(channels, a, b) ==> Edge(channels, b, a)
  }

  /** What the code assumes of the map: the inverse endpoint of every channel is filled in. */
  ghost predicate Symmetric(channels: ChannelMap) {
    && (forall a {:trigger channels[a].Valid()} :: a in channels ==> channels[a].Valid())
    && (forall a, b :: InverseFilledIn(channels, a, b))
  }

  ghost predicate Linked(channels: ChannelMap, a: NetworkId, b: NetworkId) {
    Edge(channels, a, b) && Edge(channels, b, a)
  }

  function Hop(channels: ChannelMap, a: NetworkId, b: NetworkId): Channel
    requires Linked(channels, a, b)
  {
    Channel(channels[a].channel[b], channels[b].channel[a])
  }

  ghost predicate IsWalk(channels: ChannelMap, w: seq<NetworkId>, from: NetworkId, to: NetworkId) {
    && |w| > 0 && w[0] == from && w[|w| - 1] == to
    && forall i :: 0 <= i < |w| - 1 ==> Edge(channels, w[i], w[i + 1])
  }

  /** The hops of a walk, each with its own pair of channel endpoints. */
  ghost function Hops(channels: ChannelMap, w: seq<NetworkId>): (hops: seq<Channel>)
    requires Symmetric(channels)
    requires |w| > 0 && IsWalk(channels, w, w[0], w[|w| - 1])
    ensures |hops| == |w| - 1
  {
    if |w| == 1 then []
    else
      assert Edge(channels, w[|w| - 2], w[|w| - 2 + 1]) && InverseFilledIn(channels, w[|w| - 2], w[|w| - 1]);
      Hops(channels, w[..|w| - 1]) + [Hop(channels, w[|w| - 2], w[|w| - 1])]
  }

  lemma HopsAppend(channels: ChannelMap, w: seq<NetworkId>, n: NetworkId)
    requires Symmetric(channels) && |w| > 0 && IsWalk(channels, w, w[0], w[|w| - 1])
    requires Edge(channels, w[|w| - 1], n)
    ensures IsWalk(channels, w + [n], w[0], n)
    ensures Linked(channels, w[|w| - 1], n)
    ensures Hops(channels, w + [n]) == Hops(channels, w) + [Hop(channels, w[|w| - 1], n)]
  {
    assert InverseFilledIn(channels, w[|w| - 1], n);
    assert (w + [n])[..|w|] == w;
  }

  /** Each hop is the channel of the network it leaves, and at its counterpart that of the network it enters. */
  lemma {:induction false} HopsAt(channels: ChannelMap, w: seq<NetworkId>, i: nat)
    requires Symmetric(channels) && i + 1 < |w| && IsWalk(channels, w, w[0], w[|w| - 1])
    ensures Linked(channels, w[i], w[i + 1])
    ensures Hops(channels, w)[i].id == channels[w[i]].channel[w[i + 1]]
    ensures Hops(channels, w)[i].counterpart == channels[w[i + 1]].channel[w[i]]
    decreases |w|
  {
    assert Edge(channels, w[i], w[i + 1]) && InverseFilledIn(channels, w[i], w[i + 1]);
    var shorter := w[..|w| - 1];
    assert IsWalk(channels, shorter, w[0], shorter[|shorter| - 1]);
    if i + 1 < |shorter| {
      HopsAt(channels, shorter, i);
    }
  }
}
