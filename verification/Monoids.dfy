/** Folding with a commutative monoid: what a reduction means, whatever order or grouping computes it. */
module Monoids {
  import opened Permutations

  datatype Monoid<!T> = Monoid(id: T, op: (T, T) -> T)

  ghost predicate Lawful<T(!new)>(m: Monoid<T>) {
    && (forall a, b, c :: m.op(m.op(a, b), c) == m.op(a, m.op(b, c)))
    && (forall a, b :: m.op(a, b) == m.op(b, a))
    && (forall a :: m.op(m.id, a) == a)
  }

  /** The left fold, in order. */
  function Fold<T>(m: Monoid<T>, s: seq<T>): T {
    if |s| == 0 then m.id else m.op(Fold(m, s[..|s| - 1]), s[|s| - 1])
  }

  lemma FoldSnoc<T>(m: Monoid<T>, s: seq<T>, x: T)
    ensures Fold(m, s + [x]) == m.op(Fold(m, s), x)
  {
    assert (s + [x])[..|s|] == s;
  }

  lemma {:induction false} FoldConcat<T(!new)>(m: Monoid<T>, a: seq<T>, b: seq<T>)
    requires Lawful(m)
    ensures Fold(m, a + b) == m.op(Fold(m, a), Fold(m, b))
  {
    if |b| == 0 {
      assert a + b == a;
    } else {
      var k := |b| - 1;
      assert (a + b)[..|a + b| - 1] == a + b[..k];
      FoldConcat(m, a, b[..k]);
    }
  }

  lemma {:induction false} FoldRemove<T(!new)>(m: Monoid<T>, s: seq<T>, p: nat)
    requires Lawful(m) && p < |s|
    ensures Fold(m, s) == m.op(Fold(m, RemoveAt(s, p)), s[p])
  {
    var k := |s| - 1;
    if p == k {
      assert RemoveAt(s, p) == s[..k];
    } else {
      FoldRemove(m, s[..k], p);
      RemoveBeforeLast(s, p);
    }
  }

  /** The order of the elements does not matter. */
  lemma {:induction false} FoldPermutation<T(!new)>(m: Monoid<T>, xs: seq<T>, ys: seq<T>)
    requires Lawful(m) && multiset(xs) == multiset(ys)
    ensures Fold(m, xs) == Fold(m, ys)
  {
    if |xs| == 0 {
      assert |multiset(ys)| == 0;
    } else {
      var p := LastElsewhere(xs, ys);
      FoldPermutation(m, xs[..|xs| - 1], RemoveAt(ys, p));
      FoldRemove(m, ys, p);
    }
  }

  /** Combining one more element into any accumulator combines it into the whole. */
  lemma {:induction false} FoldUpdate<T(!new)>(m: Monoid<T>, s: seq<T>, p: nat, x: T)
    requires Lawful(m) && p < |s|
    ensures Fold(m, s[p := m.op(s[p], x)]) == m.op(Fold(m, s), x)
  {
    var k := |s| - 1;
    if p == k {
      assert s[p := m.op(s[p], x)][..k] == s[..k];
    } else {
      FoldUpdate(m, s[..k], p, x);
      assert s[p := m.op(s[p], x)][..k] == s[..k][p := m.op(s[p], x)];
    }
  }

  lemma {:induction false} FoldIdentities<T(!new)>(m: Monoid<T>, s: seq<T>)
    requires Lawful(m) && forall i :: 0 <= i < |s| ==> s[i] == m.id
    ensures Fold(m, s) == m.id
  {
    if |s| > 0 {
      FoldIdentities(m, s[..|s| - 1]);
    }
  }

  // ----- accumulators -----

  function Joined<T>(parts: seq<seq<T>>): seq<T> {
    if |parts| == 0 then [] else Joined(parts[..|parts| - 1]) + parts[|parts| - 1]
  }

  function Folds<T>(m: Monoid<T>, parts: seq<seq<T>>): (r: seq<T>)
    ensures |r| == |parts| && forall c :: 0 <= c < |parts| ==> r[c] == Fold(m, parts[c])
  {
    seq(|parts|, c requires 0 <= c < |parts| => Fold(m, parts[c]))
  }

  /** Folding the accumulators is folding everything they accumulated. */
  lemma {:induction false} FoldJoined<T(!new)>(m: Monoid<T>, parts: seq<seq<T>>)
    requires Lawful(m)
    ensures Fold(m, Folds(m, parts)) == Fold(m, Joined(parts))
  {
    if |parts| > 0 {
      var k := |parts| - 1;
      FoldsSnoc(m, parts);
      JoinedSnoc(parts);
      hide *;
      FoldJoined(m, parts[..k]);
      FoldConcat(m, Joined(parts[..k]), parts[k]);
      FoldSnoc(m, Folds(m, parts[..k]), Fold(m, parts[k]));
    }
  }

  lemma FoldsSnoc<T>(m: Monoid<T>, parts: seq<seq<T>>)
    requires |parts| > 0
    ensures Folds(m, parts) == Folds(m, parts[..|parts| - 1]) + [Fold(m, parts[|parts| - 1])]
  {
  }

  lemma JoinedSnoc<T>(parts: seq<seq<T>>)
    requires |parts| > 0
    ensures Joined(parts) == Joined(parts[..|parts| - 1]) + parts[|parts| - 1]
  {
  }

  /** Giving one more element to some accumulator adds exactly that element to what they hold together. */
  lemma {:induction false} JoinedGrows<T>(parts: seq<seq<T>>, c: nat, x: T)
    requires c < |parts|
    ensures multiset(Joined(parts[c := parts[c] + [x]])) == multiset(Joined(parts)) + multiset{x}
  {
    var k := |parts| - 1;
    var more := parts[c := parts[c] + [x]];
    if c == k {
      assert more[..k] == parts[..k];
      assert Joined(more) == Joined(parts) + [x];
    } else {
      assert more[..k] == parts[..k][c := parts[c] + [x]];
      JoinedGrows(parts[..k], c, x);
      assert Joined(more) == Joined(more[..k]) + parts[k] && Joined(parts) == Joined(parts[..k]) + parts[k];
    }
  }

  lemma {:induction false} JoinedEmpty<T>(parts: seq<seq<T>>)
    requires forall c :: 0 <= c < |parts| ==> parts[c] == []
    ensures Joined(parts) == []
  {
    if |parts| > 0 {
      JoinedEmpty(parts[..|parts| - 1]);
    }
  }

  /** Accumulators that together hold exactly the elements of `xs`, each once, fold to the fold of `xs`. */
  lemma PartsFold<T(!new)>(m: Monoid<T>, parts: seq<seq<T>>, xs: seq<T>)
    requires Lawful(m) && multiset(Joined(parts)) == multiset(xs)
    ensures Fold(m, Folds(m, parts)) == Fold(m, xs)
  {
    FoldJoined(m, parts);
    FoldPermutation(m, Joined(parts), xs);
  }
}
