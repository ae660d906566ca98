/** The combinations of features, enumerated with a stack. */
module Combinations {
  import opened Wrappers
  import opened Sequences
  import opened Bits

  type Feature = string

  /** The state kept on the stack: what the outputs start with, and the features still to be combined. */
  datatype Frame = Frame(buffer: string, rest: seq<Feature>)

  /** The simple enumeration: the first feature alone, the first feature with each combination of the others,
      then the combinations of the others. */
  ghost function Enumerated(prefix: string, rest: seq<Feature>): seq<string>
    decreases |rest|
  {
    if rest == [] then []
    else [prefix + rest[0]] + Enumerated(prefix + rest[0] + ",", rest[1..]) + Enumerated(prefix, rest[1..])
  }

  ghost function Remaining(stack: seq<Frame>): seq<string> {
    if stack == [] then []
    else
      var top := stack[|stack| - 1];
      Enumerated(top.buffer, top.rest) + Remaining(stack[..|stack| - 1])
  }

  lemma RemainingPush(stack: seq<Frame>, frame: Frame)
    ensures Remaining(stack + [frame]) == Enumerated(frame.buffer, frame.rest) + Remaining(stack)
  {}

  lemma Assoc4(a: seq<string>, b: seq<string>, c: seq<string>, d: seq<string>)
    ensures ((a + b) + c) + d == a + (b + (c + d))
  {}

  lemma RemainingTop(stack: seq<Frame>)
    requires stack != [] && stack[|stack| - 1].rest != []
    ensures var top, init := stack[|stack| - 1], stack[..|stack| - 1];
      var feature := top.rest[0];
      Remaining(stack) == [top.buffer + feature] +
        Remaining(init + [Frame(top.buffer, top.rest[1..])] + [Frame(top.buffer + feature + ",", top.rest[1..])])
  {
    hide Remaining;
    var top, init := stack[|stack| - 1], stack[..|stack| - 1];
    var rest, feature := top.rest[1..], top.rest[0];
    assert stack == init + [top];
    RemainingPush(init, top);
    RemainingPush(init, Frame(top.buffer, rest));
    RemainingPush(init + [Frame(top.buffer, rest)], Frame(top.buffer + feature + ",", rest));
    Assoc4([top.buffer + feature], Enumerated(top.buffer + feature + ",", rest), Enumerated(top.buffer, rest),
      Remaining(init));
  }

  class CombinationIterator {
    var stack: seq<Frame>

    constructor (features: seq<Feature>)
      ensures Remaining(stack) == Enumerated("", features)
    {
      stack := [Frame("", features)];
      new;
      RemainingPush([], Frame("", features));
      assert [] + stack == stack;
    }

    method Next() returns (r: Option<string>)
      modifies this
      ensures old(Remaining(stack)) == [] ==> r.None? && Remaining(stack) == []
      ensures old(Remaining(stack)) != [] ==>
        r == Some(old(Remaining(stack))[0]) && Remaining(stack) == old(Remaining(stack))[1..]
    {
      while stack != []
        invariant Remaining(stack) == old(Remaining(stack))
        decreases |stack|
      {
        var top := stack[|stack| - 1];
        if top.rest != [] {
          RemainingTop(stack);
          var nextFeature := top.rest[0];
          var rest := top.rest[1..];
          stack := stack[..|stack| - 1] + [Frame(top.buffer, rest)];
          var buffer := top.buffer + nextFeature;
          var output := buffer;
          buffer := buffer + ",";
          stack := stack + [Frame(buffer, rest)];
          return Some(output);
        }
        stack := stack[..|stack| - 1];
      }
      return None;
    }
  }

  ghost function Prepended(x: nat, ps: seq<seq<nat>>): (r: seq<seq<nat>>)
    ensures |r| == |ps| && forall i :: 0 <= i < |ps| ==> r[i] == [x] + ps[i]
  {
    if ps == [] then [] else [[x] + ps[0]] + Prepended(x, ps[1..])
  }

  ghost function Picks(from: nat, n: nat): seq<seq<nat>>
    decreases n - from
  {
    if from >= n then []
    else [[from]] + Prepended(from, Picks(from + 1, n)) + Picks(from + 1, n)
  }

  /** A choice of some of the indices from `from` to `n`, in ascending order. */
  ghost predicate IsPick(p: seq<nat>, from: nat, n: nat) {
    && |p| > 0
    && (forall i :: 0 <= i < |p| ==> from <= p[i] < n)
    && (forall i, j :: 0 <= i < j < |p| ==> p[i] < p[j])
  }

  lemma PickCons(q: seq<nat>, from: nat, n: nat)
    requires IsPick(q, from + 1, n)
    ensures IsPick([from] + q, from, n) && IsPick(q, from, n)
  {
    assert from < q[0] < n;
  }

  lemma {:induction false} PicksOnly(from: nat, n: nat)
    ensures forall i :: 0 <= i < |Picks(from, n)| ==> IsPick(Picks(from, n)[i], from, n)
    decreases n - from
  {
    if from < n {
      PicksOnly(from + 1, n);
      var tail, rest, all := Picks(from + 1, n), Prepended(from, Picks(from + 1, n)), Picks(from, n);
      forall i | 0 <= i < |all| ensures IsPick(all[i], from, n) {
        if 0 < i {
          var q := tail[if i <= |rest| then i - 1 else i - 1 - |rest|];
          PickCons(q, from, n);
        }
      }
    }
  }

  /** The features picked, separated by commas. */
  ghost function Joined(features: seq<Feature>, p: seq<nat>): string
    requires |p| > 0 && forall i :: 0 <= i < |p| ==> p[i] < |features|
  {
    if |p| == 1 then features[p[0]] else features[p[0]] + "," + Joined(features, p[1..])
  }

  ghost predicate ArePicks(ps: seq<seq<nat>>, n: nat) {
    forall i :: 0 <= i < |ps| ==> IsPick(ps[i], 0, n)
  }

  ghost function Rendered(prefix: string, features: seq<Feature>, ps: seq<seq<nat>>): (r: seq<string>)
    requires ArePicks(ps, |features|)
    ensures |r| == |ps| && forall i :: 0 <= i < |ps| ==> r[i] == prefix + Joined(features, ps[i])
  {
    if ps == [] then [] else [prefix + Joined(features, ps[0])] + Rendered(prefix, features, ps[1..])
  }

  /** The combinations of the features, one for each subset of their indices. */
  ghost function AllCombinations(features: seq<Feature>): seq<string> {
    PicksOnly(0, |features|);
    Rendered("", features, Picks(0, |features|))
  }

  lemma PicksFrom(from: nat, n: nat)
    ensures ArePicks(Picks(from, n), n) && ArePicks(Picks(from + 1, n), n)
    ensures from < n ==> ArePicks(Prepended(from, Picks(from + 1, n)), n)
  {
    PicksOnly(from, n);
    PicksOnly(from + 1, n);
    var tail := Picks(from + 1, n);
    if from < n {
      forall i | 0 <= i < |tail| ensures IsPick([from] + tail[i], 0, n) {
        PickCons(tail[i], from, n);
      }
    }
  }

  lemma RenderedPrepended(prefix: string, features: seq<Feature>, from: nat, ps: seq<seq<nat>>)
    requires from < |features| && ArePicks(ps, |features|) && ArePicks(Prepended(from, ps), |features|)
    ensures Rendered(prefix, features, Prepended(from, ps)) == Rendered(prefix + features[from] + ",", features, ps)
  {
    var l, r := Rendered(prefix, features, Prepended(from, ps)), Rendered(prefix + features[from] + ",", features, ps);
    forall i | 0 <= i < |ps| ensures l[i] == r[i] {
      var f, rest := features[from], Joined(features, ps[i]);
      assert ([from] + ps[i])[1..] == ps[i];
      assert Joined(features, [from] + ps[i]) == f + "," + rest;
      assert prefix + (f + "," + rest) == prefix + f + "," + rest;
    }
  }

  lemma RenderedJoin(prefix: string, features: seq<Feature>, a: seq<seq<nat>>, b: seq<seq<nat>>)
    requires ArePicks(a, |features|) && ArePicks(b, |features|)
    ensures ArePicks(a + b, |features|)
    ensures Rendered(prefix, features, a + b) == Rendered(prefix, features, a) + Rendered(prefix, features, b)
  {
    var l, r := Rendered(prefix, features, a + b), Rendered(prefix, features, a) + Rendered(prefix, features, b);
    forall i | 0 <= i < |l| ensures l[i] == r[i] {
      assert (a + b)[i] == if i < |a| then a[i] else b[i - |a|];
    }
  }

  lemma RenderedOne(prefix: string, features: seq<Feature>, from: nat)
    requires from < |features|
    ensures ArePicks([[from]], |features|)
    ensures Rendered(prefix, features, [[from]]) == [prefix + features[from]]
  {}

  lemma RenderedThree(prefix: string, features: seq<Feature>, from: nat, a: seq<seq<nat>>, b: seq<seq<nat>>)
    requires from < |features| && ArePicks(a, |features|) && ArePicks(b, |features|)
    ensures ArePicks([[from]] + a + b, |features|)
    ensures Rendered(prefix, features, [[from]] + a + b) ==
      [prefix + features[from]] + Rendered(prefix, features, a) + Rendered(prefix, features, b)
  {
    RenderedOne(prefix, features, from);
    hide ArePicks, Rendered;
    RenderedJoin(prefix, features, [[from]], a);
    RenderedJoin(prefix, features, [[from]] + a, b);
  }

  lemma {:induction false} EnumeratedIsRendered(prefix: string, features: seq<Feature>, from: nat)
    requires from <= |features| && ArePicks(Picks(from, |features|), |features|)
    ensures Enumerated(prefix, features[from..]) == Rendered(prefix, features, Picks(from, |features|))
    decreases |features| - from
  {
    if from < |features| {
      var n, f := |features|, features[from];
      var tail := Picks(from + 1, n);
      PicksFrom(from, n);
      assert features[from..][1..] == features[from + 1..];
      EnumeratedIsRendered(prefix + f + ",", features, from + 1);
      EnumeratedIsRendered(prefix, features, from + 1);
      RenderedPrepended(prefix, features, from, tail);
      RenderedThree(prefix, features, from, Prepended(from, tail), tail);
    }
  }

  /** All the non-empty combinations. */
  method BuildCombinationsWithAtLeastOne(features: seq<Feature>) returns (outputs: seq<string>)
    ensures outputs == Enumerated("", features)
    ensures outputs == AllCombinations(features)
  {
    var combinations := new CombinationIterator(features);
    outputs := [];
    var exhausted := false;
    while !exhausted
      invariant outputs + Remaining(combinations.stack) == Enumerated("", features)
      invariant exhausted ==> Remaining(combinations.stack) == []
      decreases if exhausted then 0 else 1 + |Remaining(combinations.stack)|
    {
      ghost var remaining := Remaining(combinations.stack);
      var next := combinations.Next();
      match next
      case None => exhausted := true;
      case Some(output) =>
        assert remaining == [output] + Remaining(combinations.stack);
        outputs := outputs + [output];
    }
    PicksFrom(0, |features|);
    EnumeratedIsRendered("", features, 0);
    assert features[0..] == features;
  }

  /** The empty combination first. */
  method BuildCombinations(features: seq<Feature>) returns (outputs: seq<string>)
    ensures outputs == [""] + AllCombinations(features)
  {
    var some := BuildCombinationsWithAtLeastOne(features);
    outputs := [""] + some;
  }

  lemma PickTail(p: seq<nat>, from: nat, n: nat)
    requires IsPick(p, from, n)
    ensures p[0] > from ==> IsPick(p, from + 1, n)
    ensures p[0] == from && |p| > 1 ==> IsPick(p[1..], from + 1, n) && p == [from] + p[1..]
    ensures p[0] == from && |p| == 1 ==> p == [from]
  {}

  lemma {:induction false} PicksAll(p: seq<nat>, from: nat, n: nat)
    requires IsPick(p, from, n)
    ensures p in Picks(from, n)
    decreases n - from
  {
    PickTail(p, from, n);
    var tail, rest := Picks(from + 1, n), Prepended(from, Picks(from + 1, n));
    if p[0] > from {
      PicksAll(p, from + 1, n);
    } else if |p| > 1 {
      PicksAll(p[1..], from + 1, n);
      var i :| 0 <= i < |tail| && tail[i] == p[1..];
      assert rest[i] == p;
    }
  }

  lemma PrependedDiffer(from: nat, tail: seq<seq<nat>>)
    requires Distinct(tail)
    ensures Distinct(Prepended(from, tail))
  {
    var rest := Prepended(from, tail);
    forall i, j | 0 <= i < j < |rest| ensures rest[i] != rest[j] {
      assert ([from] + tail[i])[1..] == tail[i] && ([from] + tail[j])[1..] == tail[j];
    }
  }

  lemma JoinDiffer(a: seq<seq<nat>>, b: seq<seq<nat>>)
    requires Distinct(a) && Distinct(b) && forall i, j :: 0 <= i < |a| && 0 <= j < |b| ==> a[i] != b[j]
    ensures Distinct(a + b)
  {
    var all := a + b;
    forall i, j | 0 <= i < j < |all| ensures all[i] != all[j] {
      if j < |a| {
        assert all[i] == a[i] && all[j] == a[j];
      } else if i < |a| {
        assert all[i] == a[i] && all[j] == b[j - |a|];
      } else {
        assert all[i] == b[i - |a|] && all[j] == b[j - |a|];
      }
    }
  }

  lemma OneDiffers(p: seq<nat>)
    ensures Distinct([p])
  {}

  /** The choice of `from` alone, those with it and others, and those without it. */
  lemma ThreeDiffer(from: nat, n: nat, tail: seq<seq<nat>>)
    requires Distinct(tail) && forall i :: 0 <= i < |tail| ==> IsPick(tail[i], from + 1, n)
    ensures Distinct([[from]] + Prepended(from, tail) + tail)
  {
    hide Distinct;
    var rest := Prepended(from, tail);
    PrependedDiffer(from, tail);
    assert forall i :: 0 <= i < |rest| ==> |rest[i]| > 1 && rest[i][0] == from;
    assert forall i :: 0 <= i < |tail| ==> tail[i][0] > from;
    OneDiffers([from]);
    JoinDiffer([[from]], rest);
    JoinDiffer([[from]] + rest, tail);
  }

  lemma {:induction false} PicksOnce(from: nat, n: nat)
    ensures Distinct(Picks(from, n))
    decreases n - from
  {
    if from < n {
      PicksOnce(from + 1, n);
      PicksOnly(from + 1, n);
      ThreeDiffer(from, n, Picks(from + 1, n));
    }
  }

  /** The order of the words in a dictionary, the indices being the letters. */
  ghost predicate Before(p: seq<nat>, q: seq<nat>) {
    q != [] && (p == [] || p[0] < q[0] || (p[0] == q[0] && Before(p[1..], q[1..])))
  }

  ghost predicate InOrder(ps: seq<seq<nat>>) {
    forall i, j :: 0 <= i < j < |ps| ==> Before(ps[i], ps[j])
  }

  lemma JoinInOrder(a: seq<seq<nat>>, b: seq<seq<nat>>)
    requires InOrder(a) && InOrder(b) && forall i, j :: 0 <= i < |a| && 0 <= j < |b| ==> Before(a[i], b[j])
    ensures InOrder(a + b)
  {
    var all := a + b;
    hide Before;
    forall i, j | 0 <= i < j < |all| ensures Before(all[i], all[j]) {
      assert all[i] == if i < |a| then a[i] else b[i - |a|];
      assert all[j] == if j < |a| then a[j] else b[j - |a|];
    }
  }

  lemma PrependedInOrder(from: nat, tail: seq<seq<nat>>)
    requires InOrder(tail)
    ensures InOrder(Prepended(from, tail))
  {
    var rest := Prepended(from, tail);
    forall i, j | 0 <= i < j < |rest| ensures Before(rest[i], rest[j]) {
      assert ([from] + tail[i])[1..] == tail[i] && ([from] + tail[j])[1..] == tail[j];
    }
  }

  /** The choices come in the order of a dictionary. */
  lemma {:induction false} PicksInOrder(from: nat, n: nat)
    ensures InOrder(Picks(from, n))
    decreases n - from
  {
    if from < n {
      var tail, rest := Picks(from + 1, n), Prepended(from, Picks(from + 1, n));
      PicksInOrder(from + 1, n);
      PicksOnly(from + 1, n);
      PrependedInOrder(from, tail);
      forall j | 0 <= j < |rest| ensures Before([from], rest[j]) {
        assert rest[j][1..] == tail[j] && [from][1..] == [];
      }
      JoinInOrder([[from]], rest);
      JoinInOrder([[from]] + rest, tail);
    }
  }

  lemma {:induction false} PicksCount(from: nat, n: nat)
    requires from <= n
    ensures |Picks(from, n)| == Pow2(n - from) - 1
    decreases n - from
  {
    if from < n {
      PicksCount(from + 1, n);
    }
  }

  /** Every non-empty subset of the features is enumerated exactly once. */
  lemma PicksExact(n: nat)
    ensures forall p :: p in Picks(0, n) <==> IsPick(p, 0, n)
    ensures Distinct(Picks(0, n)) && InOrder(Picks(0, n))
    ensures |Picks(0, n)| == Pow2(n) - 1
  {
    PicksOnly(0, n);
    PicksOnce(0, n);
    PicksInOrder(0, n);
    PicksCount(0, n);
    forall p | IsPick(p, 0, n) ensures p in Picks(0, n) {
      PicksAll(p, 0, n);
    }
  }

  /** The parts of a string between its commas. */
  ghost function Parts(s: string): (parts: seq<string>)
    ensures |parts| > 0
  {
    if s == "" then [""]
    else
      var rest := Parts(s[1..]);
      if s[0] == ',' then [""] + rest else [[s[0]] + rest[0]] + rest[1..]
  }

  lemma {:induction false} PartsAfter(f: string, rest: string)
    requires ',' !in f
    ensures Parts(f) == [f] && Parts(f + "," + rest) == [f] + Parts(rest)
  {
    if f == "" {
      assert ("" + "," + rest)[1..] == rest;
    } else {
      PartsAfter(f[1..], rest);
      assert (f + "," + rest)[1..] == f[1..] + "," + rest;
      assert [f[0]] + f[1..] == f;
    }
  }

  /** The features of a combination, without commas themselves, are read back from it. */
  lemma {:induction false} JoinedParts(features: seq<Feature>, p: seq<nat>)
    requires forall i :: 0 <= i < |features| ==> ',' !in features[i]
    requires |p| > 0 && forall i :: 0 <= i < |p| ==> p[i] < |features|
    ensures |Parts(Joined(features, p))| == |p|
    ensures forall i :: 0 <= i < |p| ==> Parts(Joined(features, p))[i] == features[p[i]]
    decreases |p|
  {
    if |p| == 1 {
      PartsAfter(features[p[0]], "");
    } else {
      JoinedParts(features, p[1..]);
      PartsAfter(features[p[0]], Joined(features, p[1..]));
    }
  }

  lemma CommaAt(a: string, x: string)
    requires ',' !in a
    ensures var s := a + "," + x;
      s[|a|] == ',' && s[..|a|] == a && s[|a| + 1..] == x && forall i :: 0 <= i < |a| ==> s[i] != ','
  {}

  /** Features without commas, no two of them the same, never join to the same combination. */
  lemma {:induction false} JoinedInjective(features: seq<Feature>, p: seq<nat>, q: seq<nat>)
    requires Distinct(features)
    requires forall i :: 0 <= i < |features| ==> ',' !in features[i]
    requires |p| > 0 && forall i :: 0 <= i < |p| ==> p[i] < |features|
    requires |q| > 0 && forall i :: 0 <= i < |q| ==> q[i] < |features|
    requires Joined(features, p) == Joined(features, q)
    ensures p == q
    decreases |p|
  {
    var f, g := features[p[0]], features[q[0]];
    if |p| > 1 {
      CommaAt(f, Joined(features, p[1..]));
    }
    if |q| > 1 {
      CommaAt(g, Joined(features, q[1..]));
    }
    assert |p| > 1 <==> ',' in Joined(features, p);
    assert |q| > 1 <==> ',' in Joined(features, q);
    if |p| > 1 {
      assert |f| == |g|;
      JoinedInjective(features, p[1..], q[1..]);
    }
    assert p == [p[0]] + p[1..] && q == [q[0]] + q[1..];
  }

  lemma RenderedDiffer(features: seq<Feature>, ps: seq<seq<nat>>)
    requires Distinct(features)
    requires forall i :: 0 <= i < |features| ==> ',' !in features[i]
    requires ArePicks(ps, |features|) && Distinct(ps)
    ensures Distinct(Rendered("", features, ps))
  {
    forall i, j | 0 <= i < j < |ps| ensures Rendered("", features, ps)[i] != Rendered("", features, ps)[j] {
      var p, q := ps[i], ps[j];
      assert "" + Joined(features, p) == Joined(features, p) && "" + Joined(features, q) == Joined(features, q);
      if Joined(features, p) == Joined(features, q) {
        JoinedInjective(features, p, q);
      }
    }
  }

  /** The combinations are as many as the non-empty subsets of the features, and pairwise different. */
  lemma CombinationsDiffer(features: seq<Feature>)
    requires Distinct(features)
    requires forall i :: 0 <= i < |features| ==> ',' !in features[i]
    ensures |AllCombinations(features)| == Pow2(|features|) - 1
    ensures Distinct(AllCombinations(features))
  {
    PicksExact(|features|);
    PicksOnly(0, |features|);
    RenderedDiffer(features, Picks(0, |features|));
  }
}
