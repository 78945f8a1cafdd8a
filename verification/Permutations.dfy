/** Removing an element from a sequence, the step by which facts about permutations are proved. */
module Permutations {

  function RemoveAt<A>(xs: seq<A>, p: nat): (r: seq<A>)
    requires p < |xs|
    ensures |r| == |xs| - 1
  {
    xs[..p] + xs[p + 1..]
  }

  /** Removing from all but the last element, then adding the last element back. */
  lemma RemoveBeforeLast<A>(xs: seq<A>, p: nat)
    requires p < |xs| - 1
    ensures RemoveAt(xs, p)[..|xs| - 2] == RemoveAt(xs[..|xs| - 1], p)
    ensures RemoveAt(xs, p)[|xs| - 2] == xs[|xs| - 1]
  {
  }

  /** The last element of `xs` sits somewhere in any permutation of `xs`; removing it leaves a permutation. */
  lemma LastElsewhere<A>(xs: seq<A>, ys: seq<A>) returns (p: nat)
    requires |xs| > 0 && multiset(xs) == multiset(ys)
    ensures p < |ys| && ys[p] == xs[|xs| - 1]
    ensures multiset(xs[..|xs| - 1]) == multiset(RemoveAt(ys, p))
  {
    var k := |xs| - 1;
    assert xs[k] in multiset(ys);
    p :| p < |ys| && ys[p] == xs[k];
    assert xs == xs[..k] + [xs[k]];
    assert ys == ys[..p] + [ys[p]] + ys[p + 1..];
    assert multiset(ys) == multiset(RemoveAt(ys, p)) + multiset{ys[p]};
    assert multiset(xs) == multiset(xs[..k]) + multiset{xs[k]};
    assert multiset(xs[..k]) == multiset(xs) - multiset{xs[k]};
  }
}
