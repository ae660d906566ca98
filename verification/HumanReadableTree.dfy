/** The nested form of a tree, and the way between it and the flat form. */
module HumanReadableTree {
  import opened Wrappers
  import opened Sequences
  import opened Tree

  datatype HrtNode<T> = Leaf(value: T) | Branch(value: T, children: seq<HrtNode<T>>)

  /** What deserialization makes of a tree: a branch without children is a leaf. */
  ghost function Normalized<T>(h: HrtNode<T>): HrtNode<T> {
    match h
    case Leaf(_) => h
    case Branch(value, children) =>
      if children == [] then Leaf(value) else Branch(value, NormalizedAll(children))
  }

  ghost function NormalizedAll<T>(cs: seq<HrtNode<T>>): (ns: seq<HrtNode<T>>)
    ensures |ns| == |cs|
  {
    if cs == [] then [] else [Normalized(cs[0])] + NormalizedAll(cs[1..])
  }

  ghost predicate NoEmptyBranch<T>(h: HrtNode<T>) {
    h.Branch? ==> h.children != [] && forall c :: c in h.children ==> NoEmptyBranch(c)
  }

  ghost function Size<T>(h: HrtNode<T>): nat {
    match h
    case Leaf(_) => 1
    case Branch(_, children) => 1 + SizeAll(children)
  }

  ghost function SizeAll<T>(cs: seq<HrtNode<T>>): nat {
    if cs == [] then 0 else Size(cs[0]) + SizeAll(cs[1..])
  }

  /** With `h` placed at `at`, the indices of its branches, on which others refer to them, fit their type. */
  ghost predicate Indexed<T>(h: HrtNode<T>, at: nat) {
    h.Branch? ==> at < INDEX_LIMIT && IndexedAll(h.children, at + 1)
  }

  ghost predicate IndexedAll<T>(cs: seq<HrtNode<T>>, at: nat) {
    cs != [] ==> Indexed(cs[0], at) && IndexedAll(cs[1..], at + Size(cs[0]))
  }

  /** The nodes of `h` placed at index `at`. */
  ghost function Flattened<T>(h: HrtNode<T>, parent: NodeIndex, at: nat): (nodes: seq<Node<T>>)
    requires Indexed(h, at)
    ensures |nodes| == Size(h) && nodes[0] == Node(parent, h.value)
  {
    match h
    case Leaf(value) => [Node(parent, value)]
    case Branch(value, children) => [Node(parent, value)] + FlattenedAll(children, at, at + 1)
  }

  /** The nodes of the siblings `cs` placed from index `at` on. */
  ghost function FlattenedAll<T>(cs: seq<HrtNode<T>>, parent: NodeIndex, at: nat): (nodes: seq<Node<T>>)
    requires parent < at && IndexedAll(cs, at)
    ensures |nodes| == SizeAll(cs)
  {
    if cs == [] then []
    else Flattened(cs[0], parent, at) + FlattenedAll(cs[1..], parent, at + Size(cs[0]))
  }

  /** Every parent among `nodes` placed at `at` is `parent` or one of the nodes before. */
  ghost predicate ParentsBefore<T>(nodes: seq<Node<T>>, parent: nat, at: nat) {
    forall k :: 0 <= k < |nodes| ==> nodes[k].parent == parent || at <= nodes[k].parent < at + k
  }

  lemma ParentsBeforeJoin<T>(a: seq<Node<T>>, b: seq<Node<T>>, parent: nat, at: nat)
    requires ParentsBefore(a, parent, at) && ParentsBefore(b, parent, at + |a|)
    ensures ParentsBefore(a + b, parent, at)
  {}

  lemma {:induction false} FlattenedParents<T>(h: HrtNode<T>, parent: NodeIndex, at: nat)
    requires Indexed(h, at)
    ensures ParentsBefore(Flattened(h, parent, at), parent, at)
    ensures |Flattened(h, parent, at)| == Size(h) > 0 && Flattened(h, parent, at)[0].parent == parent
    ensures forall k :: 1 <= k < Size(h) ==> at <= Flattened(h, parent, at)[k].parent < at + k
    decreases h
  {
    if h.Branch? {
      var rest := FlattenedAll(h.children, at, at + 1);
      FlattenedAllParents(h.children, at, at + 1);
      assert Flattened(h, parent, at) == [Node(parent, h.value)] + rest;
    }
  }

  lemma {:induction false} FlattenedAllParents<T>(cs: seq<HrtNode<T>>, parent: NodeIndex, at: nat)
    requires parent < at && IndexedAll(cs, at)
    ensures ParentsBefore(FlattenedAll(cs, parent, at), parent, at)
    decreases cs
  {
    if cs != [] {
      var first, rest := Flattened(cs[0], parent, at), FlattenedAll(cs[1..], parent, at + Size(cs[0]));
      FlattenedParents(cs[0], parent, at);
      FlattenedAllParents(cs[1..], parent, at + Size(cs[0]));
      assert FlattenedAll(cs, parent, at) == first + rest;
      ParentsBeforeJoin(first, rest, parent, at);
    }
  }

  /** The nested form of the subtree of node `i`. */
  ghost function Built<T>(nodes: seq<Node<T>>, i: nat): HrtNode<T>
    requires Ordered(nodes) && i < |nodes|
    decreases |nodes| - i, 0
  {
    var children := BuiltChildren(nodes, i, i + 1);
    if children == [] then Leaf(nodes[i].value) else Branch(nodes[i].value, children)
  }

  /** The children of `p` among the nodes from index `k` on, in the order of their indices. */
  ghost function BuiltChildren<T>(nodes: seq<Node<T>>, p: nat, k: nat): seq<HrtNode<T>>
    requires Ordered(nodes) && p < k <= |nodes|
    decreases |nodes| - k, 1
  {
    if k == |nodes| then []
    else (if nodes[k].parent == p then [Built(nodes, k)] else []) + BuiltChildren(nodes, p, k + 1)
  }

  ghost function ChildrenAt<T>(nodes: seq<Node<T>>, p: nat, k: nat): set<nat> {
    set i: nat | k <= i < |nodes| && nodes[i].parent == p
  }

  lemma ChildrenAtStep<T>(nodes: seq<Node<T>>, p: nat, k: nat)
    requires k < |nodes|
    ensures var more := ChildrenAt(nodes, p, k + 1);
      && ChildrenAt(nodes, p, k) == (if nodes[k].parent == p then more + {k} else more)
      && forall i :: i in more ==> k < i
  {}

  lemma NoChildrenAt<T>(nodes: seq<Node<T>>, p: nat)
    ensures Lists([], ChildrenAt(nodes, p, |nodes|))
  {}

  lemma BuiltChildrenStep<T>(nodes: seq<Node<T>>, p: nat, k: nat)
    requires Ordered(nodes) && p < k < |nodes|
    ensures var rest := BuiltChildren(nodes, p, k + 1);
      BuiltChildren(nodes, p, k) == if nodes[k].parent == p then [Built(nodes, k)] + rest else rest
  {
    hide Built;
  }

  lemma NoSiblings<T>(nodes: seq<Node<T>>, p: nat)
    requires Ordered(nodes) && p < |nodes|
    ensures BuiltChildren(nodes, p, |nodes|) == []
  {}

  lemma {:induction false} BuiltChildrenInOrder<T>(nodes: seq<Node<T>>, p: nat, k: nat) returns (at: seq<nat>)
    requires Ordered(nodes) && p < k <= |nodes|
    ensures Lists(at, ChildrenAt(nodes, p, k)) && |BuiltChildren(nodes, p, k)| == |at|
    ensures forall j :: 0 <= j < |at| ==>
      k <= at[j] < |nodes| && BuiltChildren(nodes, p, k)[j] == Built(nodes, at[j])
    decreases |nodes| - k
  {
    hide Built, BuiltChildren, Lists, ChildrenAt;
    if k == |nodes| {
      NoChildrenAt(nodes, p);
      NoSiblings(nodes, p);
      at := [];
    } else {
      at := BuiltChildrenInOrder(nodes, p, k + 1);
      ChildrenAtStep(nodes, p, k);
      BuiltChildrenStep(nodes, p, k);
      if nodes[k].parent == p {
        ListsMore(at, ChildrenAt(nodes, p, k + 1), k);
        at := [k] + at;
      }
    }
  }

  /** The subtree built of a node has its value and, in the order of their indices, the subtrees of exactly the
      nodes with it as their parent. */
  lemma BuiltInOrder<T>(nodes: seq<Node<T>>, i: nat) returns (at: seq<nat>)
    requires Ordered(nodes) && i < |nodes|
    ensures Lists(at, ChildrenAt(nodes, i, i + 1))
    ensures var h := Built(nodes, i);
      && h.value == nodes[i].value && (h.Leaf? <==> at == [])
      && (h.Branch? ==> |h.children| == |at| && forall j :: 0 <= j < |at| ==>
           at[j] < |nodes| && h.children[j] == Built(nodes, at[j]))
  {
    at := BuiltChildrenInOrder(nodes, i, i + 1);
  }

  lemma {:induction false} SkipOthers<T>(nodes: seq<Node<T>>, p: nat, k: nat, end: nat)
    requires Ordered(nodes) && p < k <= end <= |nodes|
    requires forall j :: k <= j < end ==> nodes[j].parent != p
    ensures BuiltChildren(nodes, p, k) == BuiltChildren(nodes, p, end)
    decreases end - k
  {
    if k < end {
      SkipOthers(nodes, p, k + 1, end);
    }
  }

  ghost predicate PlacedAt<T>(nodes: seq<Node<T>>, at: nat, part: seq<Node<T>>) {
    at + |part| <= |nodes| && forall k :: 0 <= k < |part| ==> nodes[at + k] == part[k]
  }

  lemma PlacedSplit<T>(nodes: seq<Node<T>>, at: nat, a: seq<Node<T>>, b: seq<Node<T>>)
    requires PlacedAt(nodes, at, a + b)
    ensures PlacedAt(nodes, at, a) && PlacedAt(nodes, at + |a|, b)
  {
    assert forall k :: 0 <= k < |a| ==> (a + b)[k] == a[k];
    assert forall k :: 0 <= k < |b| ==> (a + b)[|a| + k] == b[k];
  }

  /** No node from index `end` on has a parent among the nodes from `at` to `end`. */
  ghost predicate Sealed<T>(nodes: seq<Node<T>>, at: nat, end: nat) {
    forall j :: end <= j < |nodes| ==> !(at <= nodes[j].parent < end)
  }

  lemma FirstChildTo<T>(nodes: seq<Node<T>>, parent: nat, at: nat, end: nat)
    requires Ordered(nodes) && parent < at < end <= |nodes| && nodes[at].parent == parent
    requires forall j :: at < j < end ==> nodes[j].parent != parent
    ensures BuiltChildren(nodes, parent, at) == [Built(nodes, at)] + BuiltChildren(nodes, parent, end)
  {
    hide Built, BuiltChildren;
    BuiltChildrenStep(nodes, parent, at);
    SkipOthers(nodes, parent, at + 1, end);
  }

  lemma FirstChild<T>(nodes: seq<Node<T>>, first: seq<Node<T>>, parent: nat, at: nat)
    requires Ordered(nodes) && parent < at && PlacedAt(nodes, at, first)
    requires |first| > 0 && first[0].parent == parent && forall k :: 1 <= k < |first| ==> at <= first[k].parent
    ensures BuiltChildren(nodes, parent, at) == [Built(nodes, at)] + BuiltChildren(nodes, parent, at + |first|)
  {
    hide Built, BuiltChildren;
    assert nodes[at + 0] == first[0];
    forall j | at < j < at + |first| ensures nodes[j].parent != parent {
      assert nodes[at + (j - at)] == first[j - at];
    }
    FirstChildTo(nodes, parent, at, at + |first|);
  }

  /** Unfolds the siblings from the `i`-th on. */
  lemma SiblingsFrom<T>(cs: seq<HrtNode<T>>, i: nat, parent: NodeIndex, at: nat)
    requires i < |cs| && parent < at && IndexedAll(cs[i..], at)
    ensures SizeAll(cs[i..]) == Size(cs[i]) + SizeAll(cs[i + 1..])
    ensures Indexed(cs[i], at) && IndexedAll(cs[i + 1..], at + Size(cs[i]))
    ensures FlattenedAll(cs[i..], parent, at) ==
      Flattened(cs[i], parent, at) + FlattenedAll(cs[i + 1..], parent, at + Size(cs[i]))
    ensures NormalizedAll(cs[i..]) == [Normalized(cs[i])] + NormalizedAll(cs[i + 1..])
    ensures cs[i].Leaf? ==> Size(cs[i]) == 1 && Flattened(cs[i], parent, at) == [Node(parent, cs[i].value)]
  {
    assert cs[i..][1..] == cs[i + 1..];
  }

  /** The siblings after the first one seal its nodes. */
  lemma SealedByRest<T>(nodes: seq<Node<T>>, rest: seq<Node<T>>, parent: nat, at: nat, n: nat)
    requires parent < at && PlacedAt(nodes, at + n, rest) && Sealed(nodes, at, at + n + |rest|)
    requires forall k :: 0 <= k < |rest| ==> rest[k].parent == parent || at + n <= rest[k].parent
    ensures Sealed(nodes, at, at + n) && Sealed(nodes, at + n, at + n + |rest|)
  {
    forall j | at + n <= j < |nodes| ensures !(at <= nodes[j].parent < at + n) {
      if j < at + n + |rest| {
        assert nodes[at + n + (j - (at + n))] == rest[j - (at + n)];
      }
    }
  }

  /** The nodes of `h` placed at `at` in a larger tree are built back, up to empty branches. */
  lemma {:induction false} BuiltOfFlattened<T>(nodes: seq<Node<T>>, h: HrtNode<T>, parent: NodeIndex, at: nat)
    requires Ordered(nodes) && Indexed(h, at) && at + Size(h) <= |nodes|
    requires PlacedAt(nodes, at, Flattened(h, parent, at)) && Sealed(nodes, at, at + Size(h))
    ensures Built(nodes, at) == Normalized(h)
    decreases h
  {
    assert nodes[at + 0] == Flattened(h, parent, at)[0];
    match h
    case Leaf(_) =>
      SkipOthers(nodes, at, at + 1, |nodes|);
    case Branch(value, children) =>
      PlacedSplit(nodes, at, [Node(parent, value)], FlattenedAll(children, at, at + 1));
      BuiltOfFlattenedAll(nodes, children, at, at + 1);
  }

  lemma {:induction false} BuiltOfFlattenedAll<T>(nodes: seq<Node<T>>, cs: seq<HrtNode<T>>, parent: NodeIndex, at: nat)
    requires Ordered(nodes) && parent < at && IndexedAll(cs, at) && at + SizeAll(cs) <= |nodes|
    requires PlacedAt(nodes, at, FlattenedAll(cs, parent, at)) && Sealed(nodes, at, at + SizeAll(cs))
    requires forall j :: at + SizeAll(cs) <= j < |nodes| ==> nodes[j].parent != parent
    ensures BuiltChildren(nodes, parent, at) == NormalizedAll(cs)
    decreases cs
  {
    hide Flattened, FlattenedAll, Size, Built, BuiltChildren, Normalized, PlacedAt, Sealed;
    if cs == [] {
      SkipOthers(nodes, parent, at, |nodes|);
      NoSiblings(nodes, parent);
    } else {
      var n := Size(cs[0]);
      assert cs[0..] == cs;
      SiblingsFrom(cs, 0, parent, at);
      var first, rest := Flattened(cs[0], parent, at), FlattenedAll(cs[1..], parent, at + n);
      PlacedSplit(nodes, at, first, rest);
      FlattenedAllParents(cs[1..], parent, at + n);
      SealedByRest(nodes, rest, parent, at, n);
      BuiltOfFlattened(nodes, cs[0], parent, at);
      BuiltOfFlattenedAll(nodes, cs[1..], parent, at + n);
      FlattenedParents(cs[0], parent, at);
      FirstChild(nodes, first, parent, at);
    }
  }

  /** `part` placed at `at` keeps the nodes between a node and its parent below that parent. */
  ghost predicate Nested<T>(part: seq<Node<T>>, at: nat) {
    forall j, k :: 0 <= k < j < |part| && part[j].parent < at + k ==> part[j].parent <= part[k].parent
  }

  lemma NestedJoin<T>(a: seq<Node<T>>, b: seq<Node<T>>, at: nat)
    requires Nested(a, at) && Nested(b, at + |a|)
    requires forall j, k :: 0 <= j < |b| && 0 <= k < |a| && b[j].parent < at + k ==> b[j].parent <= a[k].parent
    ensures Nested(a + b, at)
  {}

  lemma {:induction false} FlattenedNested<T>(h: HrtNode<T>, parent: NodeIndex, at: nat)
    requires Indexed(h, at) && parent <= at
    ensures Nested(Flattened(h, parent, at), at)
    decreases h
  {
    if h.Branch? {
      FlattenedAllNested(h.children, at, at + 1);
      FlattenedAllParents(h.children, at, at + 1);
      NestedJoin([Node(parent, h.value)], FlattenedAll(h.children, at, at + 1), at);
    }
  }

  lemma {:induction false} FlattenedAllNested<T>(cs: seq<HrtNode<T>>, parent: NodeIndex, at: nat)
    requires parent < at && IndexedAll(cs, at)
    ensures Nested(FlattenedAll(cs, parent, at), at)
    decreases cs
  {
    if cs != [] {
      var n := Size(cs[0]);
      FlattenedNested(cs[0], parent, at);
      FlattenedAllNested(cs[1..], parent, at + n);
      FlattenedParents(cs[0], parent, at);
      FlattenedAllParents(cs[1..], parent, at + n);
      NestedJoin(Flattened(cs[0], parent, at), FlattenedAll(cs[1..], parent, at + n), at);
    }
  }

  /** A flattened tree is in pre-order: every node comes after its parent, and the descendants of a node
      follow it without a gap. */
  lemma IntoTreePreOrder<T>(h: HrtNode<T>)
    requires Indexed(h, 0)
    ensures PreOrder(Flattened(h, 0, 0))
    ensures forall i :: 0 <= i < Size(h) ==> RunIsSubtree(Flattened(h, 0, 0), i)
  {
    var nodes := Flattened(h, 0, 0);
    FlattenedNested(h, 0, 0);
    FlattenedParents(h, 0, 0);
    RunsAreSubtrees(nodes);
  }

  /** Flattening a tree and building it back yields the same tree, up to empty branches. */
  lemma RoundTrip<T>(h: HrtNode<T>)
    requires Indexed(h, 0)
    ensures Ordered(Flattened(h, 0, 0)) && Built(Flattened(h, 0, 0), 0) == Normalized(h)
  {
    var nodes := Flattened(h, 0, 0);
    FlattenedParents(h, 0, 0);
    BuiltOfFlattened(nodes, h, 0, 0);
  }

  lemma EqualHeadTail<T>(a: seq<T>, b: seq<T>)
    requires |a| == |b| > 0
    ensures a == b <==> a[0] == b[0] && a[1..] == b[1..]
  {
    assert a == [a[0]] + a[1..] && b == [b[0]] + b[1..];
  }

  lemma {:induction false} NormalizedSame<T>(h: HrtNode<T>)
    ensures Normalized(h) == h <==> NoEmptyBranch(h)
  {
    if h.Branch? && h.children != [] {
      NormalizedAllSame(h.children);
    }
  }

  lemma {:induction false} NormalizedAllSame<T>(cs: seq<HrtNode<T>>)
    ensures NormalizedAll(cs) == cs <==> forall c :: c in cs ==> NoEmptyBranch(c)
  {
    if cs != [] {
      NormalizedSame(cs[0]);
      NormalizedAllSame(cs[1..]);
      var ns := NormalizedAll(cs);
      assert ns[0] == Normalized(cs[0]) && ns[1..] == NormalizedAll(cs[1..]);
      hide Normalized, NormalizedAll, NoEmptyBranch;
      EqualHeadTail(ns, cs);
      assert cs == [cs[0]] + cs[1..];
    }
  }

  /** The two ways undo each other exactly for the trees without an empty branch. */
  lemma RoundTripExact<T>(h: HrtNode<T>)
    requires Indexed(h, 0)
    ensures Ordered(Flattened(h, 0, 0)) && (Built(Flattened(h, 0, 0), 0) == h <==> NoEmptyBranch(h))
  {
    RoundTrip(h);
    NormalizedSame(h);
  }

  lemma NoneFlattened<T>(parent: NodeIndex, at: nat)
    requires parent < at
    ensures IndexedAll<T>([], at) && FlattenedAll<T>([], parent, at) == [] && SizeAll<T>([]) == 0
  {}

  /** The subtree of a child is followed by the next child, or ends together with the subtree of the parent. */
  lemma NextSibling<T>(nodes: seq<Node<T>>, p: nat, k: nat)
    requires PreOrder(nodes) && p < k < |nodes| && nodes[k].parent == p && k < RunEnd(nodes, p, p + 1)
    ensures var e := RunEnd(nodes, k, k + 1);
      && e <= RunEnd(nodes, p, p + 1) && (e < RunEnd(nodes, p, p + 1) ==> nodes[e].parent == p)
      && forall j :: k < j < e ==> nodes[j].parent != p
  {}

  lemma FlattenedCons<T>(first: HrtNode<T>, rest: seq<HrtNode<T>>, parent: NodeIndex, at: nat)
    requires parent < at && Indexed(first, at) && IndexedAll(rest, at + Size(first))
    ensures SizeAll([first] + rest) == Size(first) + SizeAll(rest) && IndexedAll([first] + rest, at)
    ensures FlattenedAll([first] + rest, parent, at) ==
      Flattened(first, parent, at) + FlattenedAll(rest, parent, at + Size(first))
  {}

  lemma FlattenedChildren<T>(nodes: seq<Node<T>>, p: nat, k: nat, e: nat, end: nat)
    requires Ordered(nodes) && p < INDEX_LIMIT && p < k < e <= end <= |nodes|
    requires BuiltChildren(nodes, p, k) == [Built(nodes, k)] + BuiltChildren(nodes, p, e)
    requires Indexed(Built(nodes, k), k) && IndexedAll(BuiltChildren(nodes, p, e), e)
    requires k + Size(Built(nodes, k)) == e && Flattened(Built(nodes, k), p, k) == nodes[k..e]
    requires e + SizeAll(BuiltChildren(nodes, p, e)) == end
    requires FlattenedAll(BuiltChildren(nodes, p, e), p, e) == nodes[e..end]
    ensures IndexedAll(BuiltChildren(nodes, p, k), k)
    ensures k + SizeAll(BuiltChildren(nodes, p, k)) == end
    ensures FlattenedAll(BuiltChildren(nodes, p, k), p, k) == nodes[k..end]
  {
    hide Built, BuiltChildren, Flattened, FlattenedAll, Size, SizeAll;
    FlattenedCons(Built(nodes, k), BuiltChildren(nodes, p, e), p, k);
    assert nodes[k..end] == nodes[k..e] + nodes[e..end];
  }

  lemma NoneAfterRun<T>(nodes: seq<Node<T>>, p: nat)
    requires PreOrder(nodes) && p < |nodes|
    ensures forall j :: RunEnd(nodes, p, p + 1) <= j < |nodes| ==> nodes[j].parent != p
  {}

  lemma ChildrenFrom<T>(nodes: seq<Node<T>>, p: nat, k: nat)
    requires PreOrder(nodes) && p < k < |nodes| && nodes[k].parent == p && k < RunEnd(nodes, p, p + 1)
    ensures var e := RunEnd(nodes, k, k + 1);
      && e <= RunEnd(nodes, p, p + 1) && (e < RunEnd(nodes, p, p + 1) ==> nodes[e].parent == p)
      && BuiltChildren(nodes, p, k) == [Built(nodes, k)] + BuiltChildren(nodes, p, e)
  {
    NextSibling(nodes, p, k);
    FirstChildTo(nodes, p, k, RunEnd(nodes, k, k + 1));
  }

  lemma {:induction false} FlattenedOfBuilt<T>(nodes: seq<Node<T>>, i: nat)
    requires PreOrder(nodes) && i < |nodes|
    ensures Indexed(Built(nodes, i), i)
    ensures i + Size(Built(nodes, i)) == RunEnd(nodes, i, i + 1)
    ensures Flattened(Built(nodes, i), nodes[i].parent, i) == nodes[i..RunEnd(nodes, i, i + 1)]
    decreases |nodes| - i, 0
  {
    hide BuiltChildren, FlattenedAll, SizeAll, IndexedAll;
    var end := RunEnd(nodes, i, i + 1);
    assert nodes[i..end] == [nodes[i]] + nodes[i + 1..end];
    if i < INDEX_LIMIT {
      FlattenedOfBuiltChildren(nodes, i, i + 1);
      NoneFlattened<T>(i, i + 1);
    } else {
      SkipOthers(nodes, i, i + 1, |nodes|);
      NoSiblings(nodes, i);
    }
  }

  lemma {:induction false} FlattenedOfBuiltChildren<T>(nodes: seq<Node<T>>, p: nat, k: nat)
    requires PreOrder(nodes) && p < |nodes| && p < INDEX_LIMIT && p < k <= RunEnd(nodes, p, p + 1)
    requires k < RunEnd(nodes, p, p + 1) ==> nodes[k].parent == p
    ensures IndexedAll(BuiltChildren(nodes, p, k), k)
    ensures k + SizeAll(BuiltChildren(nodes, p, k)) == RunEnd(nodes, p, p + 1)
    ensures FlattenedAll(BuiltChildren(nodes, p, k), p, k) == nodes[k..RunEnd(nodes, p, p + 1)]
    decreases |nodes| - k, 1
  {
    var end := RunEnd(nodes, p, p + 1);
    if k == end {
      NoneAfterRun(nodes, p);
      SkipOthers(nodes, p, k, |nodes|);
      assert BuiltChildren(nodes, p, k) == [] && nodes[k..end] == [];
    } else {
      NextSibling(nodes, p, k);
      FlattenedOfBuilt(nodes, k);
      FlattenedOfBuiltChildren(nodes, p, RunEnd(nodes, k, k + 1));
      ChildrenFrom(nodes, p, k);
      FlattenedChildren(nodes, p, k, RunEnd(nodes, k, k + 1), end);
    }
  }

  /** The vectors in pre-order are exactly the flattened trees. */
  lemma PreOrderIffFlattened<T>(nodes: seq<Node<T>>)
    ensures PreOrder(nodes) <==> exists h: HrtNode<T> :: Indexed(h, 0) && Flattened(h, 0, 0) == nodes
    ensures PreOrder(nodes) ==> Indexed(Built(nodes, 0), 0) && Flattened(Built(nodes, 0), 0, 0) == nodes
  {
    if PreOrder(nodes) {
      FlattenedOfBuilt(nodes, 0);
      assert nodes[0..|nodes|] == nodes;
    }
    if h: HrtNode<T> :| Indexed(h, 0) && Flattened(h, 0, 0) == nodes {
      IntoTreePreOrder(h);
    }
  }

  lemma FlattenedUnfold<T>(h: HrtNode<T>, parent: NodeIndex, at: NodeIndex)
    ensures h.Leaf? ==> Indexed(h, at) && Flattened(h, parent, at) == [Node(parent, h.value)]
    ensures h.Branch? ==> (Indexed(h, at) <==> IndexedAll(h.children[0..], at + 1))
    ensures h.Branch? && Indexed(h, at) ==>
      Flattened(h, parent, at) == [Node(parent, h.value)] + FlattenedAll(h.children[0..], at, at + 1)
  {
    assert h.Branch? ==> h.children[0..] == h.children;
  }

  lemma IndexedFrom<T>(cs: seq<HrtNode<T>>, i: nat, at: nat)
    requires i < |cs|
    ensures IndexedAll(cs[i..], at) <==> Indexed(cs[i], at) && IndexedAll(cs[i + 1..], at + Size(cs[i]))
    ensures cs[i].Leaf? ==> Size(cs[i]) == 1 && Indexed(cs[i], at)
    ensures cs[i].Branch? && Indexed(cs[i], at) ==> at < INDEX_LIMIT
  {
    assert cs[i..][1..] == cs[i + 1..];
  }

  /** Appends the nodes one subtree after the other. It panics, here it yields nothing, exactly when the index
      of a branch does not fit its type. */
  method Flatten<T>(h: HrtNode<T>, parent: NodeIndex, at: NodeIndex) returns (r: Option<seq<Node<T>>>)
    ensures r.Some? <==> Indexed(h, at)
    ensures r.Some? ==> r.value == Flattened(h, parent, at)
    decreases h
  {
    FlattenedUnfold(h, parent, at);
    hide Flattened, FlattenedAll, Size, Indexed, IndexedAll;
    match h
    case Leaf(value) =>
      return Some([Node(parent, value)]);
    case Branch(value, children) =>
      var nodes := [Node(parent, value)];
      for i := 0 to |children|
        invariant |nodes| > 0 && (Indexed(h, at) <==> IndexedAll(children[i..], at + |nodes|))
        invariant Indexed(h, at) ==>
          nodes + FlattenedAll(children[i..], at, at + |nodes|) == Flattened(h, parent, at)
      {
        IndexedFrom(children, i, at + |nodes|);
        if Indexed(h, at) {
          SiblingsFrom(children, i, at, at + |nodes|);
        }
        ghost var before := nodes;
        if children[i].Leaf? {
          nodes := nodes + [Node(at, children[i].value)];
        } else {
          if at + |nodes| >= INDEX_LIMIT {
            return None;
          }
          var more := Flatten(children[i], at, at + |nodes|);
          if more.None? {
            return None;
          }
          nodes := nodes + more.value;
        }
        if Indexed(h, at) {
          var first := Flattened(children[i], at, at + |before|);
          ConcatAssoc(before, first, FlattenedAll(children[i + 1..], at, at + |nodes|));
        }
      }
      assert children[|children|..] == [];
      NoneFlattened<T>(at, at + |nodes|);
      return Some(nodes);
  }

  method IntoTree<T>(h: HrtNode<T>) returns (r: Option<seq<Node<T>>>)
    ensures r.Some? <==> Indexed(h, 0)
    ensures r.Some? ==> r.value == Flattened(h, 0, 0)
    ensures r.Some? ==> PreOrder(r.value) && Built(r.value, 0) == Normalized(h)
  {
    r := Flatten(h, 0, 0);
    if r.Some? {
      IntoTreePreOrder(h);
      RoundTrip(h);
    }
  }

  /** The children of `p` from index `k` on that are not among the nodes `left`, built. */
  ghost function Pending<T>(nodes: seq<Node<T>>, left: set<nat>, p: nat, k: nat): seq<HrtNode<T>>
    requires Ordered(nodes) && p < k <= |nodes|
    decreases |nodes| - k
  {
    if k == |nodes| then []
    else if nodes[k].parent == p && k !in left then [Built(nodes, k)] + Pending(nodes, left, p, k + 1)
    else Pending(nodes, left, p, k + 1)
  }

  ghost function Reversed<T>(s: seq<T>): seq<T> {
    if s == [] then [] else Reversed(s[1..]) + [s[0]]
  }

  lemma {:induction false} ReversedAppend<T>(s: seq<T>, x: T)
    ensures Reversed(s + [x]) == [x] + Reversed(s)
  {
    if s == [] {
      assert [x][1..] == [];
    } else {
      ReversedAppend(s[1..], x);
      assert (s + [x])[1..] == s[1..] + [x];
    }
  }

  lemma {:induction false} ReversedTwice<T>(s: seq<T>)
    ensures Reversed(Reversed(s)) == s && |Reversed(s)| == |s|
  {
    if s != [] {
      ReversedTwice(s[1..]);
      ReversedAppend(Reversed(s[1..]), s[0]);
    }
  }

  lemma ReversedCons<T>(x: T, s: seq<T>)
    ensures Reversed([x] + s) == Reversed(s) + [x]
    ensures s == [] ==> Reversed(s) == []
  {}

  method Reverse<T>(s: seq<T>) returns (r: seq<T>)
    ensures r == Reversed(s)
  {
    r := [];
    for i := 0 to |s|
      invariant Reversed(s) == Reversed(s[i..]) + r
    {
      assert s[i..][1..] == s[i + 1..];
      r := [s[i]] + r;
    }
  }

  lemma {:induction false} AllPending<T>(nodes: seq<Node<T>>, left: set<nat>, p: nat, k: nat)
    requires Ordered(nodes) && p < k <= |nodes|
    requires forall j :: k <= j < |nodes| && nodes[j].parent == p ==> j !in left
    ensures Pending(nodes, left, p, k) == BuiltChildren(nodes, p, k)
    decreases |nodes| - k
  {
    hide Built;
    if k < |nodes| {
      AllPending(nodes, left, p, k + 1);
      var child := if nodes[k].parent == p then [Built(nodes, k)] else [];
      assert Pending(nodes, left, p, k) == child + Pending(nodes, left, p, k + 1);
      assert BuiltChildren(nodes, p, k) == child + BuiltChildren(nodes, p, k + 1);
    }
  }

  /** Taking the child `x` out of the nodes left puts it before the children taken out earlier, provided
      those come after it. */
  lemma {:induction false} PendingTaken<T>(nodes: seq<Node<T>>, left: set<nat>, p: nat, k: nat, x: nat)
    requires Ordered(nodes) && p < k <= |nodes| && x < |nodes| && x in left
    requires nodes[x].parent == p ==> forall j :: k <= j < x && nodes[j].parent == p ==> j in left
    ensures Pending(nodes, left - {x}, p, k) ==
      if nodes[x].parent == p && k <= x then [Built(nodes, x)] + Pending(nodes, left, p, k)
      else Pending(nodes, left, p, k)
    decreases |nodes| - k
  {
    hide Built;
    if k < |nodes| {
      PendingTaken(nodes, left, p, k + 1, x);
    }
  }

  ghost function Elements(s: seq<nat>): set<nat> {
    set i | i in s
  }

  /** The nodes with the largest parents, and among siblings the last ones, are taken out first. */
  ghost predicate TakenLater<T>(nodes: seq<Node<T>>, i: nat, r: nat)
    requires i < |nodes| && r < |nodes|
  {
    nodes[i].parent < nodes[r].parent || (nodes[i].parent == nodes[r].parent && i < r)
  }

  /** The state of the rebuilding: `left` are the indices of the nodes not taken out yet, `rest` those
      nodes. */
  ghost predicate Taken<T>(nodes: seq<Node<T>>, left: seq<nat>, rest: seq<Node<T>>)
    requires Ordered(nodes)
  {
    && |left| == |rest| > 0 && left[0] == 0
    && (forall i, j :: 0 <= i < j < |left| ==> left[i] < left[j])
    && (forall i :: 0 <= i < |left| ==> left[i] < |nodes| && rest[i] == nodes[left[i]])
    && (forall i, r :: 1 <= i < |left| && 0 < r < |nodes| && r !in left ==> TakenLater(nodes, left[i], r))
  }

  ghost predicate KeptAt<T>(nodes: seq<Node<T>>, left: set<nat>, childNodes: map<nat, seq<HrtNode<T>>>, p: nat)
    requires Ordered(nodes) && p < |nodes|
  {
    var pending := Pending(nodes, left, p, p + 1);
    if p in childNodes then pending != [] && childNodes[p] == Reversed(pending) else pending == []
  }

  /** What is kept of the nodes taken out: for each parent still left its built children, last to first. */
  ghost predicate Kept<T>(nodes: seq<Node<T>>, left: set<nat>, childNodes: map<nat, seq<HrtNode<T>>>)
    requires Ordered(nodes)
  {
    && (forall p :: p in childNodes ==> p in left)
    && (forall p: nat :: p in left && p < |nodes| ==> KeptAt(nodes, left, childNodes, p))
  }

  function WithChild<T>(childNodes: map<nat, seq<HrtNode<T>>>, parent: nat, hrt: HrtNode<T>)
    : map<nat, seq<HrtNode<T>>>
  {
    childNodes[parent := (if parent in childNodes then childNodes[parent] else []) + [hrt]]
  }

  method ConvertNodeToHrt<T>(childNodes: map<nat, seq<HrtNode<T>>>, node: Node<T>, indexMapping: nat)
    returns (hrt: HrtNode<T>, childNodes': map<nat, seq<HrtNode<T>>>)
    ensures childNodes' == childNodes - {indexMapping}
    ensures indexMapping in childNodes ==> hrt == Branch(node.value, Reversed(childNodes[indexMapping]))
    ensures indexMapping !in childNodes ==> hrt == Leaf(node.value)
  {
    if indexMapping in childNodes {
      var children := Reverse(childNodes[indexMapping]);
      return Branch(node.value, children), childNodes - {indexMapping};
    }
    return Leaf(node.value), childNodes;
  }

  ghost predicate LastOfLargest<T>(rest: seq<Node<T>>, best: nat) {
    && 1 <= best < |rest|
    && forall i :: 1 <= i < |rest| ==>
       rest[i].parent < rest[best].parent || (rest[i].parent == rest[best].parent && i <= best)
  }

  /** The last one among the nodes past the root with the largest parent. */
  method LastOfMaxParent<T>(rest: seq<Node<T>>) returns (best: nat)
    requires |rest| > 1
    ensures LastOfLargest(rest, best)
  {
    best := 1;
    for i := 2 to |rest|
      invariant 1 <= best < i
      invariant forall j :: 1 <= j < i ==>
        rest[j].parent < rest[best].parent || (rest[j].parent == rest[best].parent && j <= best)
    {
      if rest[i].parent >= rest[best].parent {
        best := i;
      }
    }
  }

  function Without<T>(s: seq<T>, i: nat): seq<T>
    requires i < |s|
  {
    s[..i] + s[i + 1..]
  }

  lemma WithoutElements(left: seq<nat>, best: nat)
    requires best < |left| && forall i, j :: 0 <= i < j < |left| ==> left[i] < left[j]
    ensures Elements(Without(left, best)) == Elements(left) - {left[best]}
    ensures forall j :: j in Without(left, best) <==> j in left && j != left[best]
  {}

  lemma TakenWithout<T>(nodes: seq<Node<T>>, left: seq<nat>, rest: seq<Node<T>>, best: nat)
    requires Ordered(nodes) && Taken(nodes, left, rest) && LastOfLargest(rest, best)
    ensures Taken(nodes, Without(left, best), Without(rest, best))
  {
    var left' := Without(left, best);
    WithoutElements(left, best);
    forall i, r | 1 <= i < |left'| && 0 < r < |nodes| && r !in left' ensures TakenLater(nodes, left'[i], r) {
      var k := if i < best then i else i + 1;
      assert left'[i] == left[k] && rest[k] == nodes[left[k]];
      assert r in left ==> r == left[best];
    }
  }

  /** When a node is taken out its children are all out already, and neither its parent nor its siblings
      before it are. */
  lemma TakeOut<T>(nodes: seq<Node<T>>, left: seq<nat>, rest: seq<Node<T>>, best: nat)
    requires Ordered(nodes) && Taken(nodes, left, rest) && LastOfLargest(rest, best)
    ensures nodes[left[best]].parent in left
    ensures forall j :: left[best] < j < |nodes| && nodes[j].parent == left[best] ==> j !in left
    ensures forall j :: 0 < j < left[best] && nodes[j].parent == nodes[left[best]].parent ==> j in left
  {}

  lemma KeptBuilds<T>(nodes: seq<Node<T>>, left: set<nat>, childNodes: map<nat, seq<HrtNode<T>>>, x: nat)
    requires Ordered(nodes) && Kept(nodes, left, childNodes) && x in left && x < |nodes|
    requires forall j :: x < j < |nodes| && nodes[j].parent == x ==> j !in left
    ensures Built(nodes, x) ==
      if x in childNodes then Branch(nodes[x].value, Reversed(childNodes[x])) else Leaf(nodes[x].value)
  {
    AllPending(nodes, left, x, x + 1);
    ReversedTwice(Pending(nodes, left, x, x + 1));
  }

  lemma KeptAtTakeOut<T>(nodes: seq<Node<T>>, left: set<nat>, childNodes: map<nat, seq<HrtNode<T>>>, x: nat, q: nat)
    requires Ordered(nodes) && 0 < x < |nodes| && x in left && q in left - {x} && q < |nodes|
    requires KeptAt(nodes, left, childNodes, q)
    requires forall j :: 0 < j < x && nodes[j].parent == nodes[x].parent ==> j in left
    ensures KeptAt(nodes, left - {x}, WithChild(childNodes - {x}, nodes[x].parent, Built(nodes, x)), q)
  {
    hide Built, BuiltChildren, Pending, Reversed;
    PendingTaken(nodes, left, q, q + 1, x);
    var hrt, pending, pending' := Built(nodes, x), Pending(nodes, left, q, q + 1), Pending(nodes, left - {x}, q, q + 1);
    ReversedCons(hrt, pending);
    var childNodes' := WithChild(childNodes - {x}, nodes[x].parent, hrt);
    if nodes[x].parent == q {
      assert pending' == [hrt] + pending;
      assert q in childNodes';
      assert childNodes'[q] == Reversed(pending) + [hrt];
    } else {
      assert pending' == pending;
      assert q in childNodes <==> q in childNodes';
    }
  }

  lemma KeptTakeOut<T>(nodes: seq<Node<T>>, left: set<nat>, childNodes: map<nat, seq<HrtNode<T>>>, x: nat)
    requires Ordered(nodes) && Kept(nodes, left, childNodes) && 0 < x < |nodes| && x in left
    requires nodes[x].parent in left
    requires forall j :: 0 < j < x && nodes[j].parent == nodes[x].parent ==> j in left
    ensures Kept(nodes, left - {x}, WithChild(childNodes - {x}, nodes[x].parent, Built(nodes, x)))
  {
    var childNodes' := WithChild(childNodes - {x}, nodes[x].parent, Built(nodes, x));
    forall q: nat | q in left - {x} && q < |nodes| ensures KeptAt(nodes, left - {x}, childNodes', q) {
      KeptAtTakeOut(nodes, left, childNodes, x, q);
    }
    hide Built, Pending, KeptAt;
  }

  lemma {:induction false} NonePending<T>(nodes: seq<Node<T>>, left: set<nat>, p: nat, k: nat)
    requires Ordered(nodes) && p < k <= |nodes| && forall j :: 0 <= j < |nodes| ==> j in left
    ensures Pending(nodes, left, p, k) == []
    decreases |nodes| - k
  {
    if k < |nodes| {
      NonePending(nodes, left, p, k + 1);
    }
  }

  lemma InitiallyKept<T>(nodes: seq<Node<T>>, left: seq<nat>)
    requires Ordered(nodes) && |left| == |nodes| && forall i :: 0 <= i < |left| ==> left[i] == i
    ensures Taken(nodes, left, nodes) && Kept(nodes, Elements(left), map[])
  {
    forall j | 0 <= j < |nodes| ensures j in left {
      assert left[j] == j;
    }
    forall p: nat | p < |nodes| ensures KeptAt(nodes, Elements(left), map[], p) {
      NonePending(nodes, Elements(left), p, p + 1);
    }
    hide KeptAt;
  }

  /** Rebuilds the nested tree by repeatedly taking out the last node with the largest parent index. */
  method FromTree<T>(nodes: seq<Node<T>>) returns (root: HrtNode<T>)
    requires Ordered(nodes)
    ensures root == Built(nodes, 0)
  {
    var rest, indexesMapping: seq<nat> := nodes, seq(|nodes|, i => i);
    var childNodes: map<nat, seq<HrtNode<T>>> := map[];
    InitiallyKept(nodes, indexesMapping);
    while |rest| > 1
      invariant Taken(nodes, indexesMapping, rest) && Kept(nodes, Elements(indexesMapping), childNodes)
      decreases |rest|
    {
      var best := LastOfMaxParent(rest);
      TakeOut(nodes, indexesMapping, rest, best);
      TakenWithout(nodes, indexesMapping, rest, best);
      var node, indexMapping := rest[best], indexesMapping[best];
      KeptBuilds(nodes, Elements(indexesMapping), childNodes, indexMapping);
      KeptTakeOut(nodes, Elements(indexesMapping), childNodes, indexMapping);
      WithoutElements(indexesMapping, best);
      rest, indexesMapping := Without(rest, best), Without(indexesMapping, best);
      var hrt;
      hrt, childNodes := ConvertNodeToHrt(childNodes, node, indexMapping);
      childNodes := WithChild(childNodes, node.parent, hrt);
    }
    assert indexesMapping == [0];
    KeptBuilds(nodes, Elements(indexesMapping), childNodes, 0);
    root, childNodes := ConvertNodeToHrt(childNodes, rest[0], 0);
    assert childNodes == map[];
  }
}
