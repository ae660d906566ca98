/** Trees kept flat, as a vector of nodes each knowing the index of its parent. */
module Tree {
  import opened Wrappers

  const INDEX_LIMIT: nat := 0x1_0000

  type NodeIndex = n: nat | n < INDEX_LIMIT

  datatype Node<T> = Node(parent: NodeIndex, value: T)

  /** The root comes first and is its own parent; every other node comes after its parent. */
  ghost predicate Ordered<T>(nodes: seq<Node<T>>) {
    && |nodes| > 0 && nodes[0].parent == 0
    && forall j :: 1 <= j < |nodes| ==> nodes[j].parent < j
  }

  /** Between a node and its parent there are only nodes whose parents do not come before that parent. */
  ghost predicate PreOrder<T>(nodes: seq<Node<T>>) {
    && Ordered(nodes)
    && forall j, k :: 1 <= j < |nodes| && nodes[j].parent < k < j ==> nodes[j].parent <= nodes[k].parent
  }

  ghost predicate Descends<T>(nodes: seq<Node<T>>, i: nat, j: nat)
    requires Ordered(nodes) && j < |nodes|
    decreases j
  {
    j == i || (j > 0 && Descends(nodes, i, nodes[j].parent))
  }

  /** Where the run of nodes past `k` whose parents do not come before `i` ends. */
  ghost function RunEnd<T>(nodes: seq<Node<T>>, i: nat, k: nat): (end: nat)
    requires k <= |nodes|
    ensures k <= end <= |nodes|
    ensures forall j :: k <= j < end ==> i <= nodes[j].parent
    ensures end < |nodes| ==> nodes[end].parent < i
    decreases |nodes| - k
  {
    if k < |nodes| && i <= nodes[k].parent then RunEnd(nodes, i, k + 1) else k
  }

  lemma {:induction false} BeforeDescends<T>(nodes: seq<Node<T>>, i: nat, j: nat)
    requires Ordered(nodes) && j < i && j < |nodes|
    ensures !Descends(nodes, i, j)
    decreases j
  {
    if j > 0 {
      BeforeDescends(nodes, i, nodes[j].parent);
    }
  }

  lemma {:induction false} DescendsIffRun<T>(nodes: seq<Node<T>>, i: nat, j: nat)
    requires PreOrder(nodes) && i <= j < |nodes|
    ensures Descends(nodes, i, j) <==> forall k :: i < k <= j ==> i <= nodes[k].parent
    decreases j
  {
    if i < j {
      var p := nodes[j].parent;
      if i <= p {
        DescendsIffRun(nodes, i, p);
      } else {
        BeforeDescends(nodes, i, p);
      }
    }
  }

  /** The run of nodes starting at `i` is the subtree of `i`. */
  ghost predicate RunIsSubtree<T>(nodes: seq<Node<T>>, i: nat)
    requires Ordered(nodes) && i < |nodes|
  {
    forall j :: 0 <= j < |nodes| ==> (Descends(nodes, i, j) <==> i <= j < RunEnd(nodes, i, i + 1))
  }

  /** The runs are the subtrees exactly in the vectors in pre-order. */
  lemma RunsAreSubtrees<T>(nodes: seq<Node<T>>)
    requires Ordered(nodes)
    ensures PreOrder(nodes) <==> forall i :: 0 <= i < |nodes| ==> RunIsSubtree(nodes, i)
  {
    if PreOrder(nodes) {
      forall i, j | 0 <= i < |nodes| && 0 <= j < |nodes|
        ensures Descends(nodes, i, j) <==> i <= j < RunEnd(nodes, i, i + 1)
      {
        if i <= j {
          DescendsIffRun(nodes, i, j);
        } else {
          BeforeDescends(nodes, i, j);
        }
      }
    }
    if forall i :: 0 <= i < |nodes| ==> RunIsSubtree(nodes, i) {
      forall j, k | 1 <= j < |nodes| && nodes[j].parent < k < j ensures nodes[j].parent <= nodes[k].parent {
        var p := nodes[j].parent;
        assert RunIsSubtree(nodes, p) && Descends(nodes, p, p) && Descends(nodes, p, j);
      }
    }
  }

  datatype Subtree<T> = Subtree(nodes: seq<Node<T>>, root: NodeIndex, length: NodeIndex)

  /** Counts the nodes past `at` for as long as they do not leave its run. It panics, here it yields nothing,
      exactly when an index or the length does not fit the type of indices. */
  method SubtreeFromNode<T>(nodes: seq<Node<T>>, at: NodeIndex) returns (r: Option<Subtree<T>>)
    requires Ordered(nodes) && at < |nodes|
    ensures r.None? <==> at + 1 == INDEX_LIMIT || RunEnd(nodes, at, at + 1) - at >= INDEX_LIMIT
    ensures r.Some? ==> r.value.nodes == nodes && r.value.root == at
    ensures r.Some? ==> at + r.value.length == RunEnd(nodes, at, at + 1)
    ensures r.Some? && PreOrder(nodes) ==>
      forall j :: 0 <= j < |nodes| ==> (Descends(nodes, at, j) <==> at <= j < at + r.value.length)
  {
    hide Descends, PreOrder;
    RunsAreSubtrees(nodes);
    assert PreOrder(nodes) ==> RunIsSubtree(nodes, at);
    if at + 1 == INDEX_LIMIT {
      return None;
    }
    var length: NodeIndex := 1;
    while at + length < |nodes| && at <= nodes[at + length].parent
      invariant at + length <= |nodes|
      invariant RunEnd(nodes, at, at + 1) == RunEnd(nodes, at, at + length)
    {
      if length + 1 == INDEX_LIMIT {
        return None;
      }
      length := length + 1;
    }
    return Some(Subtree(nodes, at, length));
  }

  /** In a vector not in pre-order the run of a node may miss some of its descendants. */
  lemma RunMissesDescendant() returns (nodes: seq<Node<()>>)
    ensures Ordered(nodes) && !PreOrder(nodes)
    ensures |nodes| == 4 && Descends(nodes, 1, 3) && RunEnd(nodes, 1, 2) == 2
  {
    nodes := [Node(0, ()), Node(0, ()), Node(0, ()), Node(1, ())];
    assert nodes[3].parent == 1 < 2 < 3 && nodes[2].parent == 0;
  }
}
