/** Facts about sequences shared by the components. */
module Sequences {

  ghost predicate Distinct<T>(s: seq<T>) {
    forall i, j :: 0 <= i < j < |s| ==> s[i] != s[j]
  }

  lemma ConcatAssoc<T>(a: seq<T>, b: seq<T>, c: seq<T>)
    ensures (a + b) + c == a + (b + c)
  {}

  /** `at` lists the numbers of `s` in ascending order. */
  ghost predicate Lists(at: seq<nat>, s: set<nat>) {
    && (forall i, j :: 0 <= i < j < |at| ==> at[i] < at[j])
    && (forall n :: n in at <==> n in s)
  }

  lemma ListsMore(at: seq<nat>, s: set<nat>, n: nat)
    requires Lists(at, s)
    ensures (forall i :: i in s ==> i < n) ==> Lists(at + [n], s + {n})
    ensures (forall i :: i in s ==> n < i) ==> Lists([n] + at, s + {n})
  {
    assert forall i :: 0 <= i < |at| ==> at[i] in s;
  }
}
