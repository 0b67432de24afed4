/** Merging the workers' partial counts into the shared total. Each worker adds
    its count once; the order in which the workers reach the lock is up to the
    scheduler and is given here as a sequence of block indices. */
module Reduction {

  /** Sum of all partial counts, in index order. */
  function Total(cs: seq<nat>): nat {
    if cs == [] then 0 else Total(cs[..|cs| - 1]) + cs[|cs| - 1]
  }

  /** The index order `0, 1, …, n-1`. */
  function Indices(n: nat): (s: seq<nat>)
    ensures |s| == n && forall i :: 0 <= i < n ==> s[i] == i
  {
    seq(n, i => i)
  }

  /** Every index of `order` names one of `n` partial counts. */
  predicate InRange(order: seq<nat>, n: nat) {
    forall k :: 0 <= k < |order| ==> order[k] < n
  }

  /** A merge order for `n` workers: each worker merges exactly once. */
  predicate IsSchedule(order: seq<nat>, n: nat) {
    multiset(order) == multiset(Indices(n))
  }

  /** Value of the total after the partial counts have been added in `order`. */
  function SumInOrder(cs: seq<nat>, order: seq<nat>): nat
    requires InRange(order, |cs|)
  {
    if order == [] then 0
    else SumInOrder(cs, order[..|order| - 1]) + cs[order[|order| - 1]]
  }

  /** A merge order names each worker once, so it has one entry per worker. */
  lemma ScheduleInRange(order: seq<nat>, n: nat)
    requires IsSchedule(order, n)
    ensures |order| == n && InRange(order, n)
  {
    assert |order| == |multiset(order)| == |multiset(Indices(n))| == n;
    forall k | 0 <= k < |order|
      ensures order[k] < n
    {
      assert order[k] in multiset(order);
      assert order[k] in Indices(n);
    }
  }

  /** Merging two batches one after the other adds their sums. */
  lemma {:induction false} SumInOrderAppend(cs: seq<nat>, a: seq<nat>, b: seq<nat>)
    requires InRange(a, |cs|) && InRange(b, |cs|)
    ensures InRange(a + b, |cs|)
    ensures SumInOrder(cs, a + b) == SumInOrder(cs, a) + SumInOrder(cs, b)
    decreases |b|
  {
    if b == [] {
      assert a + b == a;
    } else {
      var b' := b[..|b| - 1];
      assert (a + b)[..|a + b| - 1] == a + b';
      assert (a + b)[|a + b| - 1] == b[|b| - 1];
      SumInOrderAppend(cs, a, b');
    }
  }

  /** Taking one worker out of a merge order removes its partial count from the sum. */
  lemma RemoveOne(cs: seq<nat>, b: seq<nat>, p: nat)
    requires InRange(b, |cs|) && p < |b|
    ensures InRange(b[..p] + b[p + 1..], |cs|)
    ensures multiset(b) == multiset(b[..p] + b[p + 1..]) + multiset{b[p]}
    ensures SumInOrder(cs, b) == SumInOrder(cs, b[..p] + b[p + 1..]) + cs[b[p]]
  {
    var u, v := b[..p], b[p + 1..];
    assert b == u + [b[p]] + v;
    SumInOrderAppend(cs, u, [b[p]]);
    SumInOrderAppend(cs, u + [b[p]], v);
    SumInOrderAppend(cs, u, v);
  }

  /** Reordering the merges does not change the total: integer addition is
      commutative and associative. */
  lemma {:induction false} SumInOrderPermutation(cs: seq<nat>, a: seq<nat>, b: seq<nat>)
    requires InRange(a, |cs|)
    requires multiset(a) == multiset(b)
    ensures InRange(b, |cs|)
    ensures SumInOrder(cs, a) == SumInOrder(cs, b)
    decreases |a|
  {
    forall k | 0 <= k < |b|
      ensures b[k] < |cs|
    {
      assert b[k] in multiset(a);
    }
    if a != [] {
      var x := a[|a| - 1];
      var a' := a[..|a| - 1];
      assert a == a' + [x];
      assert x in multiset(b);
      var p :| 0 <= p < |b| && b[p] == x;
      RemoveOne(cs, b, p);
      var b' := b[..p] + b[p + 1..];
      assert multiset(a) == multiset(a') + multiset{x};
      assert multiset(a') == multiset(a) - multiset{x};
      assert multiset(b') == multiset(b) - multiset{x};
      SumInOrderPermutation(cs, a', b');
    }
  }

  /** Merging in index order gives the total of the merged prefix. */
  lemma {:induction false} SumInIndexOrder(cs: seq<nat>, n: nat)
    requires n <= |cs|
    ensures InRange(Indices(n), |cs|)
    ensures SumInOrder(cs, Indices(n)) == Total(cs[..n])
  {
    if n > 0 {
      assert Indices(n)[..n - 1] == Indices(n - 1);
      assert cs[..n][..n - 1] == cs[..n - 1];
      SumInIndexOrder(cs, n - 1);
    }
  }

  /** Whatever order the workers merge in, the shared total ends as the sum
      of all partial counts. */
  lemma MergeOrderIrrelevant(cs: seq<nat>, order: seq<nat>)
    requires IsSchedule(order, |cs|)
    ensures |order| == |cs| && InRange(order, |cs|)
    ensures SumInOrder(cs, order) == Total(cs)
  {
    ScheduleInRange(order, |cs|);
    SumInIndexOrder(cs, |cs|);
    assert cs[..|cs|] == cs;
    SumInOrderPermutation(cs, Indices(|cs|), order);
  }
}
