/**
 * Loop nests over several operands at once: what reordering dimensions and merging neighbours do to
 * the offsets every operand visits (planner step 4 of iteration_plan.h).
 */
module Nests {
  import opened Arith
  import opened Layout
  import opened Permutations

  /** One dimension of the nest: its size, and the stride of every operand along it. */
  datatype Dim = Dim(size: nat, strides: seq<int>)

  function SizesOf(dims: seq<Dim>): (s: seq<nat>)
    ensures |s| == |dims| && forall d :: 0 <= d < |dims| ==> s[d] == dims[d].size
  {
    seq(|dims|, d requires 0 <= d < |dims| => dims[d].size)
  }

  /** Every dimension has a stride for each of `n` operands. */
  predicate Uniform(dims: seq<Dim>, n: nat) {
    forall d :: 0 <= d < |dims| ==> |dims[d].strides| == n
  }

  function StridesOf(dims: seq<Dim>, n: nat, op: nat): (s: seq<int>)
    requires Uniform(dims, n) && op < n
    ensures |s| == |dims| && forall d :: 0 <= d < |dims| ==> s[d] == dims[d].strides[op]
  {
    seq(|dims|, d requires 0 <= d < |dims| => dims[d].strides[op])
  }

  predicate PositiveDims(dims: seq<Dim>) {
    forall d :: 0 <= d < |dims| ==> dims[d].size > 0
  }

  /** Offset of operand `op` at the `g`-th iteration of the nest. */
  function OffsetAt(dims: seq<Dim>, n: nat, op: nat, g: nat): int
    requires Uniform(dims, n) && op < n && PositiveDims(dims)
  {
    FlatOffset(SizesOf(dims), StridesOf(dims, n, op), g)
  }

  lemma OffsetSnoc(dims: seq<Dim>, d: Dim, n: nat, op: nat, g: nat)
    requires Uniform(dims, n) && |d.strides| == n && op < n && PositiveDims(dims) && d.size > 0
    ensures Uniform(dims + [d], n) && PositiveDims(dims + [d])
    ensures OffsetAt(dims + [d], n, op, g) == OffsetAt(dims, n, op, g / d.size) + Times(d.strides[op], g % d.size)
  {
    assert SizesOf(dims + [d])[..|dims|] == SizesOf(dims);
    assert StridesOf(dims + [d], n, op)[..|dims|] == StridesOf(dims, n, op);
  }

  // ----- merging neighbours -----

  /** Stepping the outer dimension once is, for every operand, stepping off the end of the inner one. */
  predicate Mergeable(outer: Dim, inner: Dim) {
    && |outer.strides| == |inner.strides|
    && forall op :: 0 <= op < |inner.strides| ==> outer.strides[op] == Times(inner.strides[op], inner.size)
  }

  /** The kept dimensions after one more: absorbed by the last one when that is possible. */
  function Folded(kept: seq<Dim>, d: Dim): (r: seq<Dim>)
    ensures 0 < |r| <= |kept| + 1
  {
    var k := |kept| - 1;
    if |kept| > 0 && Mergeable(kept[k], d) then kept[..k] + [Dim(kept[k].size * d.size, d.strides)] else kept + [d]
  }

  lemma FoldedIs(kept: seq<Dim>, d: Dim)
    requires |kept| > 0
    ensures var k := |kept| - 1;
            Folded(kept, d) == if Mergeable(kept[k], d) then kept[..k] + [Dim(kept[k].size * d.size, d.strides)] else kept + [d]
  {
    hide Mergeable;
  }

  /** The nest after folding each dimension, outermost first, into the last kept one where possible. */
  function Merge(dims: seq<Dim>): (r: seq<Dim>)
    ensures |r| <= |dims| && (|dims| > 0 ==> |r| > 0)
  {
    if |dims| == 0 then [] else Folded(Merge(dims[..|dims| - 1]), dims[|dims| - 1])
  }

  lemma MergeSnoc(dims: seq<Dim>, d: Dim)
    ensures Merge(dims + [d]) == Folded(Merge(dims), d) && Merge([]) == [] && Folded([], d) == [d]
  {
    assert (dims + [d])[..|dims|] == dims;
    hide Mergeable;
  }

  /** No dimension could be merged into the one before it. */
  ghost predicate MergedOut(dims: seq<Dim>) {
    forall d :: 0 < d < |dims| ==> !Mergeable(dims[d - 1], dims[d])
  }

  /** Absorbing `d` leaves the dimension before `a` as unmergeable as it was. */
  lemma AbsorbedStaysOut(b: Dim, a: Dim, d: Dim)
    requires Mergeable(a, d) && !Mergeable(b, a)
    ensures !Mergeable(b, Dim(a.size * d.size, d.strides))
  {
    if |b.strides| == |a.strides| {
      var op :| 0 <= op < |a.strides| && b.strides[op] != Times(a.strides[op], a.size);
      assert a.strides[op] == Times(d.strides[op], d.size);
      assert d.strides[op] * d.size * a.size == d.strides[op] * (a.size * d.size);
    }
  }

  lemma {:induction false} MergeEnds(dims: seq<Dim>)
    ensures MergedOut(Merge(dims))
  {
    if |dims| > 0 {
      var k := |dims| - 1;
      MergeUnfold(dims);
      hide *;
      MergeEnds(dims[..k]);
      FoldedOut(Merge(dims[..k]), dims[k]);
    }
  }

  lemma FoldedOut(kept: seq<Dim>, d: Dim)
    requires MergedOut(kept)
    ensures MergedOut(Folded(kept, d))
  {
    var n := |kept| - 1;
    if n >= 0 && Mergeable(kept[n], d) {
      if n > 0 {
        AbsorbedStaysOut(kept[n - 1], kept[n], d);
      }
    }
    hide Mergeable;
  }

  /** Sizes other than one stay so. */
  lemma {:induction false} MergeStaysWide(dims: seq<Dim>)
    requires forall d :: d in dims ==> d.size != 1
    ensures forall d :: d in Merge(dims) ==> d.size != 1
  {
    if |dims| > 0 {
      var k := |dims| - 1;
      MergeStaysWide(dims[..k]);
      var kept, d := Merge(dims[..k]), dims[k];
      assert d in dims;
      if |kept| > 0 {
        WideProduct(kept[|kept| - 1].size, d.size);
      }
      hide Merge, Mergeable;
    }
  }

  lemma WideProduct(a: nat, b: nat)
    requires a != 1 && b != 1
    ensures a * b != 1
  {
    if a > 1 && b > 1 { MulMono(2, a, b); }
  }

  lemma NumelSnoc(dims: seq<Dim>, d: Dim)
    ensures Numel(SizesOf(dims + [d])) == Numel(SizesOf(dims)) * d.size
  {
    assert SizesOf(dims + [d])[..|dims|] == SizesOf(dims);
  }

  /** One step of the merge: the last kept dimension absorbs `d`, or `d` is kept. */
  lemma MergeStep(dims: seq<Dim>, d: Dim) returns (merged: bool, rest: seq<Dim>, a: Dim)
    ensures merged ==> Mergeable(a, d) && Merge(dims) == rest + [a]
                       && Merge(dims + [d]) == rest + [Dim(a.size * d.size, d.strides)]
    ensures !merged ==> Merge(dims + [d]) == Merge(dims) + [d]
  {
    MergeSnoc(dims, d);
    var m := Merge(dims);
    hide Merge;
    merged := |m| > 0 && Mergeable(m[|m| - 1], d);
    rest, a := m, d;
    if merged {
      rest, a := m[..|m| - 1], m[|m| - 1];
    }
  }

  lemma ProductStep(r: nat, a: nat, n: nat)
    ensures r * (a * n) == (r * a) * n
    ensures a > 0 && n > 0 ==> a * n > 0
  {
    if a > 0 && n > 0 { MulMono(1, a, n); }
  }

  lemma UniformSnoc(dims: seq<Dim>, d: Dim, n: nat)
    ensures Uniform(dims + [d], n) <==> Uniform(dims, n) && |d.strides| == n
    ensures PositiveDims(dims + [d]) <==> PositiveDims(dims) && d.size > 0
  {
    assert (dims + [d])[|dims|] == d;
    assert forall i :: 0 <= i < |dims| ==> dims[i] == (dims + [d])[i];
  }

  /** The merged nest is as wide as the original and has as many iterations. */
  ghost predicate SameShape(m: seq<Dim>, dims: seq<Dim>, n: nat) {
    Uniform(m, n) && PositiveDims(m) && Numel(SizesOf(m)) == Numel(SizesOf(dims))
  }

  lemma MergeShapeStep(dims: seq<Dim>, d: Dim, n: nat)
    requires SameShape(Merge(dims), dims, n) && |d.strides| == n && d.size > 0
    ensures SameShape(Merge(dims + [d]), dims + [d], n)
  {
    var merged, rest, a := MergeStep(dims, d);
    hide Merge, Numel, Uniform, PositiveDims, SizesOf;
    NumelSnoc(dims, d);
    if merged {
      var b := Dim(a.size * d.size, d.strides);
      UniformSnoc(rest, a, n);
      UniformSnoc(rest, b, n);
      NumelSnoc(rest, a);
      NumelSnoc(rest, b);
      ProductStep(Numel(SizesOf(rest)), a.size, d.size);
    } else {
      UniformSnoc(Merge(dims), d, n);
      NumelSnoc(Merge(dims), d);
    }
  }

  lemma {:induction false} MergeShape(dims: seq<Dim>, n: nat)
    requires Uniform(dims, n) && PositiveDims(dims)
    ensures SameShape(Merge(dims), dims, n)
  {
    hide *;
    if |dims| == 0 {
      NothingMerged(dims, n);
    } else {
      InnerDims(dims, n);
      MergeShape(dims[..|dims| - 1], n);
      MergeShapeStep(dims[..|dims| - 1], dims[|dims| - 1], n);
    }
  }

  lemma NothingMerged(dims: seq<Dim>, n: nat)
    requires |dims| == 0
    ensures Merge(dims) == dims && SameShape(Merge(dims), dims, n)
  {
  }

  lemma MergedStep(a: int, n: int, s: int, x: nat)
    requires a > 0 && n > 0
    ensures a * n > 0
    ensures Times(s, x % (a * n)) == Times(Times(s, n), (x / n) % a) + Times(s, x % n)
  {
    DivModProduct(x, a, n);
    var y := x % (a * n);
    assert y == y / n * n + y % n;
    assert s * (y / n * n) == s * n * (y / n);
    assert s * (y / n * n + y % n) == s * (y / n * n) + s * (y % n);
  }

  lemma MergeOffsetStep(dims: seq<Dim>, d: Dim, n: nat, op: nat, g: nat)
    requires Uniform(dims, n) && PositiveDims(dims) && op < n && |d.strides| == n && d.size > 0
    requires SameShape(Merge(dims), dims, n) && OffsetAt(Merge(dims), n, op, g / d.size) == OffsetAt(dims, n, op, g / d.size)
    ensures SameShape(Merge(dims + [d]), dims + [d], n) && Uniform(dims + [d], n) && PositiveDims(dims + [d])
    ensures OffsetAt(Merge(dims + [d]), n, op, g) == OffsetAt(dims + [d], n, op, g)
  {
    MergeShapeStep(dims, d, n);
    var merged, rest, a := MergeStep(dims, d);
    hide *;
    OffsetSnoc(dims, d, n, op, g);
    if merged {
      MergedOffset(rest, a, d, n, op, g);
    } else {
      OffsetSnoc(Merge(dims), d, n, op, g);
    }
  }

  /** Merging changes no offset of any operand at any iteration. */
  lemma {:induction false} MergeKeepsOffsets(dims: seq<Dim>, n: nat, op: nat, g: nat)
    requires Uniform(dims, n) && PositiveDims(dims) && op < n
    ensures SameShape(Merge(dims), dims, n)
    ensures OffsetAt(Merge(dims), n, op, g) == OffsetAt(dims, n, op, g)
    decreases |dims|
  {
    hide *;
    if |dims| == 0 {
      NothingMerged(dims, n);
    } else {
      var k := |dims| - 1;
      var rest, d := dims[..k], dims[k];
      InnerDims(dims, n);
      MergeKeepsOffsets(rest, n, op, g / d.size);
      MergeOffsetStep(rest, d, n, op, g);
    }
  }

  lemma InnerDims(dims: seq<Dim>, n: nat)
    requires Uniform(dims, n) && PositiveDims(dims) && |dims| > 0
    ensures var k := |dims| - 1;
            && Uniform(dims[..k], n) && PositiveDims(dims[..k]) && dims[k].size > 0 && |dims[k].strides| == n
            && dims == dims[..k] + [dims[k]]
  {
  }

  lemma MergedOffset(rest: seq<Dim>, a: Dim, d: Dim, n: nat, op: nat, g: nat)
    requires Uniform(rest + [a], n) && PositiveDims(rest + [a]) && |d.strides| == n && d.size > 0 && op < n
    requires Mergeable(a, d)
    ensures Uniform(rest + [Dim(a.size * d.size, d.strides)], n) && PositiveDims(rest + [Dim(a.size * d.size, d.strides)])
    ensures OffsetAt(rest + [Dim(a.size * d.size, d.strides)], n, op, g)
         == OffsetAt(rest + [a], n, op, g / d.size) + Times(d.strides[op], g % d.size)
  {
    assert a == (rest + [a])[|rest|];
    assert forall i :: 0 <= i < |rest| ==> rest[i] == (rest + [a])[i];
    assert a.strides[op] == Times(d.strides[op], d.size);
    MergedStep(a.size, d.size, d.strides[op], g);
    hide OffsetAt, Times;
    OffsetSnoc(rest, a, n, op, g / d.size);
    OffsetSnoc(rest, Dim(a.size * d.size, d.strides), n, op, g);
    DivModProduct(g, a.size, d.size);
  }

  // ----- choosing an order -----

  /** Lexicographic comparison of strides from operand `op` on; the destination is operand 0. */
  predicate OuterFrom(x: Dim, y: Dim, op: nat)
    requires |x.strides| == |y.strides|
    decreases |x.strides| - op
  {
    if op >= |x.strides| then false
    else if x.strides[op] != y.strides[op] then x.strides[op] > y.strides[op]
    else OuterFrom(x, y, op + 1)
  }

  /** `dim_outer_than`: larger destination stride first, ties broken by the sources' strides. */
  predicate OuterThan(x: Dim, y: Dim)
    requires |x.strides| == |y.strides|
  {
    OuterFrom(x, y, 0)
  }

  lemma {:induction false} OuterTrichotomy(x: Dim, y: Dim, op: nat)
    requires |x.strides| == |y.strides|
    ensures !(OuterFrom(x, y, op) && OuterFrom(y, x, op))
    ensures !OuterFrom(x, y, op) && !OuterFrom(y, x, op) <==>
              forall k :: op <= k < |x.strides| ==> x.strides[k] == y.strides[k]
    decreases |x.strides| - op
  {
    if op < |x.strides| {
      OuterTrichotomy(x, y, op + 1);
    }
  }

  lemma {:induction false} OuterTransitive(x: Dim, y: Dim, z: Dim, op: nat)
    requires |x.strides| == |y.strides| == |z.strides|
    requires OuterFrom(x, y, op) && OuterFrom(y, z, op)
    ensures OuterFrom(x, z, op)
    decreases |x.strides| - op
  {
    if op < |x.strides| && x.strides[op] == y.strides[op] == z.strides[op] {
      OuterTransitive(x, y, z, op + 1);
    }
  }

  lemma {:induction false} OuterSameStrides(x: Dim, y: Dim, z: Dim, op: nat)
    requires |x.strides| == |y.strides| == |z.strides| && x.strides == y.strides
    ensures OuterFrom(x, z, op) == OuterFrom(y, z, op) && OuterFrom(z, x, op) == OuterFrom(z, y, op)
    decreases |x.strides| - op
  {
    if op < |x.strides| {
      OuterSameStrides(x, y, z, op + 1);
    }
  }

  /** At the first operand whose strides differ, that of `x` is the larger. */
  ghost predicate Descends(x: seq<int>, y: seq<int>) {
    |x| == |y| && forall op :: 0 <= op < |x| && x[..op] == y[..op] ==> x[op] >= y[op]
  }

  lemma PrefixAgrees(x: seq<int>, y: seq<int>, k: nat)
    requires k <= |x| == |y| && x[..k] == y[..k]
    ensures forall i :: 0 <= i < k ==> x[i] == y[i]
  {
    assert forall i :: 0 <= i < k ==> x[i] == x[..k][i] == y[..k][i];
  }

  /** The comparison is the lexicographic one, larger strides outside. */
  lemma {:induction false} OuterMeans(x: Dim, y: Dim, op: nat)
    requires |x.strides| == |y.strides| && op <= |x.strides| && x.strides[..op] == y.strides[..op]
    ensures OuterFrom(x, y, op) <==> x.strides != y.strides && Descends(x.strides, y.strides)
    decreases |x.strides| - op
  {
    if op == |x.strides| {
      assert x.strides == x.strides[..op] == y.strides[..op] == y.strides;
    } else if x.strides[op] == y.strides[op] {
      assert x.strides[..op + 1] == x.strides[..op] + [x.strides[op]] == y.strides[..op + 1];
      OuterMeans(x, y, op + 1);
    } else {
      forall k | 0 <= k < |x.strides| && x.strides[..k] == y.strides[..k] ensures k <= op {
        PrefixAgrees(x.strides, y.strides, k);
      }
      PrefixAgrees(x.strides, y.strides, op);
    }
  }

  /** The order a stable sort produces: outer dimensions first, equal ones in their original order. */
  predicate Before(dims: seq<Dim>, n: nat, a: nat, b: nat)
    requires Uniform(dims, n) && a < |dims| && b < |dims|
  {
    OuterThan(dims[a], dims[b]) || (dims[a].strides == dims[b].strides && a < b)
  }

  lemma BeforeTransitive(dims: seq<Dim>, n: nat, a: nat, b: nat, c: nat)
    requires Uniform(dims, n) && a < |dims| && b < |dims| && c < |dims|
    requires Before(dims, n, a, b) && Before(dims, n, b, c)
    ensures Before(dims, n, a, c)
  {
    if OuterThan(dims[a], dims[b]) && OuterThan(dims[b], dims[c]) {
      OuterTransitive(dims[a], dims[b], dims[c], 0);
    } else if OuterThan(dims[a], dims[b]) {
      OuterSameStrides(dims[b], dims[c], dims[a], 0);
    } else if OuterThan(dims[b], dims[c]) {
      OuterSameStrides(dims[a], dims[b], dims[c], 0);
    }
  }

  lemma BeforeMeans(dims: seq<Dim>, n: nat, a: nat, b: nat)
    requires Uniform(dims, n) && a < |dims| && b < |dims|
    ensures Before(dims, n, a, b) <==>
              Descends(dims[a].strides, dims[b].strides) && (dims[a].strides == dims[b].strides ==> a < b)
  {
    OuterMeans(dims[a], dims[b], 0);
  }

  predicate Indices(dims: seq<Dim>, order: seq<nat>) {
    forall i :: 0 <= i < |order| ==> order[i] < |dims|
  }

  predicate SortedOrder(dims: seq<Dim>, n: nat, order: seq<nat>)
    requires Uniform(dims, n) && Indices(dims, order)
  {
    forall i, j :: 0 <= i < j < |order| ==> Before(dims, n, order[i], order[j])
  }

  /** `order` lists outer dimensions first, and those with the same strides in their original order. */
  ghost predicate OuterFirst(dims: seq<Dim>, order: seq<nat>)
    requires Indices(dims, order)
  {
    forall i, j :: 0 <= i < j < |order| ==>
      Descends(dims[order[i]].strides, dims[order[j]].strides)
      && (dims[order[i]].strides == dims[order[j]].strides ==> order[i] < order[j])
  }

  lemma SortedOuterFirst(dims: seq<Dim>, n: nat, order: seq<nat>)
    requires Uniform(dims, n) && Indices(dims, order)
    ensures SortedOrder(dims, n, order) <==> OuterFirst(dims, order)
  {
    forall i, j | 0 <= i < j < |order| {
      BeforeMeans(dims, n, order[i], order[j]);
    }
    hide Before, Descends;
  }

  predicate Distinct(order: seq<nat>) {
    forall i, j :: 0 <= i < j < |order| ==> order[i] != order[j]
  }

  function Select(dims: seq<Dim>, order: seq<nat>): (r: seq<Dim>)
    requires Indices(dims, order)
    ensures |r| == |order| && forall i :: 0 <= i < |order| ==> r[i] == dims[order[i]]
  {
    seq(|order|, i requires 0 <= i < |order| => dims[order[i]])
  }

  // ----- the coordinates behind an iteration -----

  /** Coordinate of the original nest whose selected dimensions, in order, have the coordinates `c`. */
  function Scatter(rank: nat, order: seq<nat>, c: seq<int>): (r: seq<int>)
    requires |c| == |order| && forall i :: 0 <= i < |order| ==> order[i] < rank
    ensures |r| == rank
  {
    if |order| == 0 then Zeros(rank)
    else var k := |order| - 1; Scatter(rank, order[..k], c[..k])[order[k] := c[k]]
  }

  ghost predicate ScattersTo(rank: nat, order: seq<nat>, c: seq<int>, r: seq<int>) {
    && |order| == |c| && |r| == rank
    && (forall i :: 0 <= i < |order| ==> order[i] < rank && r[order[i]] == c[i])
    && (forall d :: 0 <= d < rank && d !in order ==> r[d] == 0)
  }

  lemma {:induction false} ScatterAt(rank: nat, order: seq<nat>, c: seq<int>)
    requires |c| == |order| && forall i :: 0 <= i < |order| ==> order[i] < rank
    requires Distinct(order)
    ensures ScattersTo(rank, order, c, Scatter(rank, order, c))
  {
    if |order| > 0 {
      var k := |order| - 1;
      ScatterUnfold(rank, order, c);
      ScatterAt(rank, order[..k], c[..k]);
      var inner := Scatter(rank, order[..k], c[..k]);
      hide *;
      ScatterMore(rank, order, c, inner);
    }
  }

  lemma ScatterMore(rank: nat, order: seq<nat>, c: seq<int>, inner: seq<int>)
    requires |c| == |order| > 0 && Distinct(order) && order[|order| - 1] < rank
    requires ScattersTo(rank, order[..|order| - 1], c[..|order| - 1], inner)
    ensures ScattersTo(rank, order, c, inner[order[|order| - 1] := c[|order| - 1]])
  {
    var k := |order| - 1;
    assert forall i :: 0 <= i < k ==> order[i] == order[..k][i] && order[i] != order[k];
    assert order == order[..k] + [order[k]];
  }

  lemma NothingScattered(dims: seq<Dim>, n: nat, order: seq<nat>, c: seq<int>, op: nat)
    requires Uniform(dims, n) && |c| == |order| == 0 && op < n
    ensures Uniform(Select(dims, order), n)
    ensures Dot(StridesOf(dims, n, op), Scatter(|dims|, order, c)) == Dot(StridesOf(Select(dims, order), n, op), c)
  {
    forall d | 0 <= d < |dims| ensures Times(StridesOf(dims, n, op)[d], Scatter(|dims|, order, c)[d]) == 0 {
      TimesAdd(StridesOf(dims, n, op)[d], 0, 0);
    }
    DotZeros(StridesOf(dims, n, op), Scatter(|dims|, order, c));
  }

  /** Every operand has the same offset at a selected coordinate and at the coordinate it stands for. */
  lemma {:induction false} ScatterKeepsOffset(dims: seq<Dim>, n: nat, order: seq<nat>, c: seq<int>, op: nat)
    requires Uniform(dims, n) && Indices(dims, order) && Distinct(order) && |c| == |order| && op < n
    ensures Uniform(Select(dims, order), n)
    ensures Dot(StridesOf(dims, n, op), Scatter(|dims|, order, c)) == Dot(StridesOf(Select(dims, order), n, op), c)
  {
    hide *;
    if |order| == 0 {
      NothingScattered(dims, n, order, c, op);
    } else {
      var k := |order| - 1;
      EarlierOrder(dims, order);
      var inner := Scatter(|dims|, order[..k], c[..k]);
      ScatterStep(dims, n, order, c, op);
      var all, chosen := StridesOf(dims, n, op), StridesOf(Select(dims, order[..k]), n, op);
      ScatterKeepsOffset(dims, n, order[..k], c[..k], op);
      DotUpdate(all, inner, order[k], c[k]);
      DotSnoc(chosen, all[order[k]], c[..k], c[k]);
      assert c == c[..k] + [c[k]];
    }
  }

  /** The last selected dimension, taken apart from the others. */
  lemma ScatterStep(dims: seq<Dim>, n: nat, order: seq<nat>, c: seq<int>, op: nat)
    requires Uniform(dims, n) && Indices(dims, order) && Distinct(order) && |c| == |order| > 0 && op < n
    ensures var k := |order| - 1;
            var inner := Scatter(|dims|, order[..k], c[..k]);
            && Uniform(Select(dims, order), n) && Indices(dims, order[..k]) && Distinct(order[..k])
            && Uniform(Select(dims, order[..k]), n)
            && Scatter(|dims|, order, c) == inner[order[k] := c[k]] && inner[order[k]] == 0
            && StridesOf(Select(dims, order), n, op)
            == StridesOf(Select(dims, order[..k]), n, op) + [StridesOf(dims, n, op)[order[k]]]
  {
    hide *;
    EarlierOrder(dims, order);
    ScatterUnfold(|dims|, order, c);
    ScatterElsewhere(dims, order[..|order| - 1], c[..|order| - 1], order[|order| - 1]);
    SelectedStrides(dims, n, order, op);
  }

  lemma EarlierOrder(dims: seq<Dim>, order: seq<nat>)
    requires Indices(dims, order) && Distinct(order) && |order| > 0
    ensures var k := |order| - 1;
            && Indices(dims, order[..k]) && Distinct(order[..k]) && order[k] !in order[..k] && order[k] < |dims|
            && (forall i :: 0 <= i < |order| ==> order[i] < |dims|) && (forall i :: 0 <= i < k ==> order[..k][i] < |dims|)
  {
  }

  lemma ScatterUnfold(rank: nat, order: seq<nat>, c: seq<int>)
    requires |c| == |order| > 0 && forall i :: 0 <= i < |order| ==> order[i] < rank
    ensures var k := |order| - 1;
            Scatter(rank, order, c) == Scatter(rank, order[..k], c[..k])[order[k] := c[k]]
  {
  }

  lemma ScatterElsewhere(dims: seq<Dim>, order: seq<nat>, c: seq<int>, d: nat)
    requires |c| == |order| && Indices(dims, order) && Distinct(order) && d !in order && d < |dims|
    ensures Scatter(|dims|, order, c)[d] == 0
  {
    ScatterAt(|dims|, order, c);
  }

  lemma SelectedStrides(dims: seq<Dim>, n: nat, order: seq<nat>, op: nat)
    requires Uniform(dims, n) && Indices(dims, order) && |order| > 0 && op < n
    ensures var k := |order| - 1;
            && Indices(dims, order[..k]) && Uniform(Select(dims, order), n) && Uniform(Select(dims, order[..k]), n)
            && StridesOf(Select(dims, order), n, op)
            == StridesOf(Select(dims, order[..k]), n, op) + [StridesOf(dims, n, op)[order[k]]]
  {
  }

  // ----- the planned nest visits every coordinate once -----

  /** `order` lists, once each, exactly the dimensions whose size is not one. */
  ghost predicate KeepsWide(dims: seq<Dim>, order: seq<nat>) {
    && Indices(dims, order) && Distinct(order)
    && forall d :: 0 <= d < |dims| ==> (d in order <==> dims[d].size != 1)
  }

  lemma {:induction false} NumelRemove(sizes: seq<nat>, p: nat)
    requires p < |sizes|
    ensures Numel(sizes) == Numel(RemoveAt(sizes, p)) * sizes[p]
  {
    var k := |sizes| - 1;
    if p == k {
      assert RemoveAt(sizes, p) == sizes[..k];
    } else {
      NumelRemove(sizes[..k], p);
      RemoveBeforeLast(sizes, p);
      var m := Numel(RemoveAt(sizes[..k], p));
      SwapFactors(m, sizes[p], sizes[k]);
    }
  }

  lemma SwapFactors(m: nat, a: nat, b: nat)
    ensures m * a * b == m * b * a
  {
  }

  lemma SelectWithout(dims: seq<Dim>, order: seq<nat>, p: nat)
    requires 0 < |dims| && KeepsWide(dims, order) && p < |order| && order[p] == |dims| - 1
    ensures KeepsWide(dims[..|dims| - 1], RemoveAt(order, p))
    ensures Numel(SizesOf(Select(dims, order)))
         == Numel(SizesOf(Select(dims[..|dims| - 1], RemoveAt(order, p)))) * dims[|dims| - 1].size
  {
    OrderWithout(dims, order, p);
    var rest, fewer, all := dims[..|dims| - 1], RemoveAt(order, p), SizesOf(Select(dims, order));
    assert SizesOf(Select(rest, fewer)) == RemoveAt(all, p);
    hide *;
    NumelRemove(all, p);
  }

  /** Dropping dimensions of size one and reordering the rest keeps the number of iterations. */
  lemma {:induction false} SelectKeepsNumel(dims: seq<Dim>, order: seq<nat>)
    requires KeepsWide(dims, order)
    ensures Numel(SizesOf(Select(dims, order))) == Numel(SizesOf(dims))
    decreases |dims|
  {
    hide *;
    if |dims| == 0 {
      NothingSelected(dims, order);
    } else {
      var k := |dims| - 1;
      LastSize(dims);
      if k in order {
        var p :| 0 <= p < |order| && order[p] == k;
        SelectWithout(dims, order, p);
        SelectKeepsNumel(dims[..k], RemoveAt(order, p));
      } else {
        LastUnselected(dims, order);
        SelectKeepsNumel(dims[..k], order);
      }
    }
  }

  lemma SelectedSome(dims: seq<Dim>, order: seq<nat>)
    requires Indices(dims, order)
    ensures |order| > 0 ==> |dims| > 0
  {
    if |order| > 0 {
      var d := dims[order[0]];
    }
  }

  lemma NothingSelected(dims: seq<Dim>, order: seq<nat>)
    requires |dims| == 0 && KeepsWide(dims, order)
    ensures Numel(SizesOf(Select(dims, order))) == Numel(SizesOf(dims))
  {
    SelectedSome(dims, order);
    assert SizesOf(Select(dims, order)) == SizesOf(dims);
  }

  lemma LastSize(dims: seq<Dim>)
    requires |dims| > 0
    ensures Numel(SizesOf(dims)) == Numel(SizesOf(dims[..|dims| - 1])) * dims[|dims| - 1].size
  {
    assert SizesOf(dims)[..|dims| - 1] == SizesOf(dims[..|dims| - 1]);
  }

  lemma LastUnselected(dims: seq<Dim>, order: seq<nat>)
    requires 0 < |dims| && KeepsWide(dims, order) && |dims| - 1 !in order
    ensures var k := |dims| - 1;
            && KeepsWide(dims[..k], order) && dims[k].size == 1
            && Select(dims[..k], order) == Select(dims, order)
  {
    OrderBelow(dims, order);
  }

  lemma OrderWithout(dims: seq<Dim>, order: seq<nat>, p: nat)
    requires 0 < |dims| && KeepsWide(dims, order) && p < |order| && order[p] == |dims| - 1
    ensures KeepsWide(dims[..|dims| - 1], RemoveAt(order, p))
  {
    var k, fewer := |dims| - 1, RemoveAt(order, p);
    forall i | 0 <= i < |fewer| ensures fewer[i] < k {
      var j := if i < p then i else i + 1;
      assert fewer[i] == order[j] && order[j] != order[p];
    }
    forall d | 0 <= d < k ensures d in fewer <==> dims[d].size != 1 {
      RemovedOther(order, p, d);
    }
    assert Distinct(fewer);
    hide Distinct, RemoveAt;
  }

  /** Taking out entry `p` takes out no other value. */
  lemma RemovedOther(order: seq<nat>, p: nat, d: nat)
    requires p < |order| && d != order[p]
    ensures d in RemoveAt(order, p) <==> d in order
  {
    var fewer := RemoveAt(order, p);
    if d in order {
      var j :| 0 <= j < |order| && order[j] == d;
      assert fewer[if j < p then j else j - 1] == d;
    }
    if d in fewer {
      var i :| 0 <= i < |fewer| && fewer[i] == d;
      assert order[if i < p then i else i + 1] == d;
    }
  }

  lemma OrderBelow(dims: seq<Dim>, order: seq<nat>)
    requires 0 < |dims| && KeepsWide(dims, order) && |dims| - 1 !in order
    ensures KeepsWide(dims[..|dims| - 1], order)
  {
    forall i | 0 <= i < |order| ensures order[i] < |dims| - 1 {
      assert order[i] in order;
    }
  }

  /** The nest that is run: the merged dimensions, or a single iteration when every size is one. */
  function PlannedDims(dims: seq<Dim>, n: nat, order: seq<nat>): seq<Dim>
    requires Indices(dims, order)
  {
    if |order| == 0 then [Dim(1, Zeros(n))] else Merge(Select(dims, order))
  }

  /** The coordinate of the original nest behind iteration `g` of the planned one. */
  function PlanCoord(dims: seq<Dim>, order: seq<nat>, g: nat): (c: seq<int>)
    requires PositiveDims(dims) && Indices(dims, order)
    ensures |c| == |dims|
  {
    Scatter(|dims|, order, Unflatten(SizesOf(Select(dims, order)), g))
  }

  lemma PlanCoordInBox(dims: seq<Dim>, order: seq<nat>, g: nat)
    requires PositiveDims(dims) && KeepsWide(dims, order) && g < Numel(SizesOf(dims))
    ensures InBox(SizesOf(dims), PlanCoord(dims, order, g))
  {
    var sel := SizesOf(Select(dims, order));
    SelectKeepsNumel(dims, order);
    UnflattenInBox(sel, g);
    var u := Unflatten(sel, g);
    ScatteredInBox(dims, order, u);
  }

  lemma ScatteredInBox(dims: seq<Dim>, order: seq<nat>, u: seq<int>)
    requires PositiveDims(dims) && KeepsWide(dims, order) && InBox(SizesOf(Select(dims, order)), u)
    ensures InBox(SizesOf(dims), Scatter(|dims|, order, u))
  {
    ScatterAt(|dims|, order, u);
    forall d | 0 <= d < |dims| ensures 0 <= Scatter(|dims|, order, u)[d] < dims[d].size {
      if d in order {
        var i :| 0 <= i < |order| && order[i] == d;
        assert Scatter(|dims|, order, u)[order[i]] == u[i];
      }
    }
  }

  /** Different iterations stand for different coordinates. */
  lemma PlanCoordInjective(dims: seq<Dim>, order: seq<nat>, g: nat, h: nat)
    requires PositiveDims(dims) && KeepsWide(dims, order)
    requires g < Numel(SizesOf(dims)) && h < Numel(SizesOf(dims))
    requires PlanCoord(dims, order, g) == PlanCoord(dims, order, h)
    ensures g == h
  {
    var sel := SizesOf(Select(dims, order));
    SelectKeepsNumel(dims, order);
    UnflattenInBox(sel, g);
    UnflattenInBox(sel, h);
    var u, v := Unflatten(sel, g), Unflatten(sel, h);
    assert Scatter(|dims|, order, u) == Scatter(|dims|, order, v);
    assert Distinct(order) && Indices(dims, order);
    hide *;
    ScatterInjective(|dims|, order, u, v);
  }

  lemma ScatterInjective(rank: nat, order: seq<nat>, u: seq<int>, v: seq<int>)
    requires |u| == |v| == |order| && (forall i :: 0 <= i < |order| ==> order[i] < rank) && Distinct(order)
    requires Scatter(rank, order, u) == Scatter(rank, order, v)
    ensures u == v
  {
    ScatterAt(rank, order, u);
    ScatterAt(rank, order, v);
    hide Scatter;
    forall i | 0 <= i < |order| ensures u[i] == v[i] {
      assert Scatter(rank, order, u)[order[i]] == u[i];
    }
  }

  /** Every coordinate is behind some iteration. */
  lemma PlanCoordOnto(dims: seq<Dim>, order: seq<nat>, c: seq<int>) returns (g: nat)
    requires PositiveDims(dims) && KeepsWide(dims, order) && InBox(SizesOf(dims), c)
    ensures g < Numel(SizesOf(dims)) && PlanCoord(dims, order, g) == c
  {
    var sel := SizesOf(Select(dims, order));
    var u := seq(|order|, i requires 0 <= i < |order| => c[order[i]]);
    SelectKeepsNumel(dims, order);
    FlattenInRange(sel, u);
    g := Flatten(sel, u);
    ScatterPicked(dims, order, c, u);
  }

  /** Scattering the coordinates of the wide dimensions gives the whole coordinate back. */
  lemma ScatterPicked(dims: seq<Dim>, order: seq<nat>, c: seq<int>, u: seq<int>)
    requires KeepsWide(dims, order) && InBox(SizesOf(dims), c) && Picked(u, order, c)
    ensures Scatter(|dims|, order, u) == c
  {
    ScatterMeans(dims, order, c, u);
    hide *;
    var r := Scatter(|dims|, order, u);
    forall d | 0 <= d < |dims| ensures r[d] == c[d] {
      PickedAt(dims, order, c, u, r, d);
    }
    assert r == c;
  }

  /** `u` has the values `c` has at the positions in `order`. */
  ghost predicate Picked(u: seq<int>, order: seq<nat>, c: seq<int>) {
    |u| == |order| && forall i :: 0 <= i < |order| ==> order[i] < |c| && u[i] == c[order[i]]
  }

  /** `r` has the values `u` at the positions in `order`, and zero elsewhere. */
  ghost predicate Scattered(r: seq<int>, order: seq<nat>, u: seq<int>)
    requires |u| == |order|
  {
    && (forall i :: 0 <= i < |order| ==> order[i] < |r| && r[order[i]] == u[i])
    && (forall d :: 0 <= d < |r| && d !in order ==> r[d] == 0)
  }

  lemma ScatterMeans(dims: seq<Dim>, order: seq<nat>, c: seq<int>, u: seq<int>)
    requires KeepsWide(dims, order) && InBox(SizesOf(dims), c) && Picked(u, order, c)
    ensures |c| == |dims| && |u| == |order| && forall i :: 0 <= i < |order| ==> order[i] < |dims|
    ensures Scattered(Scatter(|dims|, order, u), order, u)
  {
    ScatterAt(|dims|, order, u);
  }

  lemma PickedAt(dims: seq<Dim>, order: seq<nat>, c: seq<int>, u: seq<int>, r: seq<int>, d: nat)
    requires KeepsWide(dims, order) && InBox(SizesOf(dims), c) && Picked(u, order, c) && Scattered(r, order, u)
    requires |r| == |dims| && d < |dims|
    ensures r[d] == c[d]
  {
    if d in order {
      var i :| 0 <= i < |order| && order[i] == d;
      assert r[order[i]] == u[i];
    } else {
      assert dims[d].size == 1 && SizesOf(dims)[d] == 1;
    }
  }

  /**
   * Planning preserves meaning: the planned nest has as many iterations as the original has
   * coordinates, and at each of them every operand is at the offset of the coordinate behind it.
   */
  lemma PlanKeepsOffsets(dims: seq<Dim>, n: nat, order: seq<nat>, op: nat, g: nat)
    requires Uniform(dims, n) && PositiveDims(dims) && KeepsWide(dims, order) && op < n
    requires g < Numel(SizesOf(dims))
    ensures SameShape(PlannedDims(dims, n, order), dims, n)
    ensures OffsetAt(PlannedDims(dims, n, order), n, op, g) == Dot(StridesOf(dims, n, op), PlanCoord(dims, order, g))
  {
    var chosen := Select(dims, order);
    SelectKeepsNumel(dims, order);
    ScatterKeepsOffset(dims, n, order, Unflatten(SizesOf(chosen), g), op);
    FlatOffsetIsDot(SizesOf(chosen), StridesOf(chosen, n, op), g);
    if |order| == 0 {
      SingleIteration(n, op, g);
    } else {
      MergeKeepsOffsets(chosen, n, op, g);
    }
  }

  lemma SingleIteration(n: nat, op: nat, g: nat)
    requires op < n
    ensures Uniform([Dim(1, Zeros(n))], n) && PositiveDims([Dim(1, Zeros(n))]) && Numel(SizesOf([Dim(1, Zeros(n))])) == 1
    ensures OffsetAt([Dim(1, Zeros(n))], n, op, g) == 0
  {
    assert SizesOf([Dim(1, Zeros(n))]) == [1] && StridesOf([Dim(1, Zeros(n))], n, op) == [0];
    DivModUnique(g, g, 0, 1);
    assert Times(0, g % 1) == 0;
    var one: seq<nat> := [1];
    assert FlatOffset(one, [0], g) == FlatOffset(one[..0], [0][..0], g / 1) + Times(0, g % 1);
  }

  // ----- the products of the planner and of the odometer -----

  /** Merging takes every row of strides from one of the dimensions merged. */
  lemma {:induction false} MergeStrides(dims: seq<Dim>, x: Dim)
    requires x in Merge(dims)
    ensures exists d :: d in dims && d.strides == x.strides
  {
    var k := |dims| - 1;
    var m, d := Merge(dims[..k]), dims[k];
    if x.strides == d.strides {
      assert d in dims;
    } else {
      assert x in m;
      MergeStrides(dims[..k], x);
      var e :| e in dims[..k] && e.strides == x.strides;
      assert e in dims;
    }
  }

  /** Every dimension descends to every one inside it. */
  ghost predicate AllDescend(dims: seq<Dim>) {
    forall i, j :: 0 <= i < j < |dims| ==> Descends(dims[i].strides, dims[j].strides)
  }

  /** Merging keeps the strides of the inner dimension, so the nest still descends. */
  lemma {:induction false} MergeDescends(dims: seq<Dim>)
    requires AllDescend(dims)
    ensures AllDescend(Merge(dims))
  {
    if |dims| > 0 {
      var k := |dims| - 1;
      var kept, d := Merge(dims[..k]), dims[k];
      MergeUnfold(dims);
      DescendingPrefix(dims);
      hide *;
      MergeDescends(dims[..k]);
      forall i | 0 <= i < |kept| ensures Descends(kept[i].strides, d.strides) {
        KeptDescends(dims, kept[i]);
      }
      FoldedDescends(kept, d);
    }
  }

  lemma MergeUnfold(dims: seq<Dim>)
    requires |dims| > 0
    ensures Merge(dims) == Folded(Merge(dims[..|dims| - 1]), dims[|dims| - 1])
  {
  }

  lemma DescendingPrefix(dims: seq<Dim>)
    requires |dims| > 0 && AllDescend(dims)
    ensures AllDescend(dims[..|dims| - 1])
  {
    hide Descends;
  }

  /** What was kept of the outer dimensions has strides of one of them. */
  lemma KeptDescends(dims: seq<Dim>, x: Dim)
    requires |dims| > 0 && AllDescend(dims) && x in Merge(dims[..|dims| - 1])
    ensures Descends(x.strides, dims[|dims| - 1].strides)
  {
    var k := |dims| - 1;
    MergeStrides(dims[..k], x);
    var e :| e in dims[..k] && e.strides == x.strides;
    var p :| 0 <= p < k && dims[..k][p] == e;
    hide Descends, Merge;
    assert Descends(dims[p].strides, dims[k].strides);
  }

  lemma FoldedDescends(kept: seq<Dim>, d: Dim)
    requires AllDescend(kept) && forall i :: 0 <= i < |kept| ==> Descends(kept[i].strides, d.strides)
    ensures AllDescend(Folded(kept, d))
  {
    hide Descends, Mergeable;
  }

  /** What the planner leaves: outer strides first, nothing left to merge, no dimension of size one beside others. */
  lemma PlannedLaws(dims: seq<Dim>, n: nat, order: seq<nat>)
    requires Uniform(dims, n) && KeepsWide(dims, order) && OuterFirst(dims, order)
    ensures AllDescend(PlannedDims(dims, n, order)) && MergedOut(PlannedDims(dims, n, order))
    ensures order != [] ==> forall d :: d in PlannedDims(dims, n, order) ==> d.size != 1
  {
    if |order| > 0 {
      var chosen := Select(dims, order);
      assert AllDescend(chosen) by { hide Descends; }
      MergeDescends(chosen);
      MergeEnds(chosen);
      assert forall i :: 0 <= i < |order| ==> order[i] in order;
      MergeStaysWide(chosen);
    }
    hide Merge, Mergeable, Descends;
  }

  lemma PlannedNonNegative(dims: seq<Dim>, n: nat, order: seq<nat>, op: nat)
    requires Uniform(dims, n) && PositiveDims(dims) && KeepsWide(dims, order) && op < n
    requires NonNegative(StridesOf(dims, n, op))
    ensures Uniform(PlannedDims(dims, n, order), n) && NonNegative(StridesOf(PlannedDims(dims, n, order), n, op))
  {
    var planned, s := PlannedDims(dims, n, order), StridesOf(dims, n, op);
    assert 0 < |order| || planned == [Dim(1, Zeros(n))];
    if |order| > 0 {
      var chosen := Select(dims, order);
      SelectKeepsNumel(dims, order);
      MergeShape(chosen, n);
      forall d | 0 <= d < |planned| ensures planned[d].strides[op] >= 0 {
        MergeStrides(chosen, planned[d]);
        var e :| e in chosen && e.strides == planned[d].strides;
        var i :| 0 <= i < |chosen| && chosen[i] == e;
        assert dims[order[i]] == e && s[order[i]] == e.strides[op];
      }
    }
  }

  /** Planning reaches no further than the operand itself. */
  lemma PlannedExtent(dims: seq<Dim>, n: nat, order: seq<nat>, op: nat)
    requires Uniform(dims, n) && PositiveDims(dims) && KeepsWide(dims, order) && op < n
    requires NonNegative(StridesOf(dims, n, op))
    ensures SameShape(PlannedDims(dims, n, order), dims, n)
    ensures Extent(SizesOf(PlannedDims(dims, n, order)), StridesOf(PlannedDims(dims, n, order), n, op))
         <= Extent(SizesOf(dims), StridesOf(dims, n, op))
  {
    var planned, sizes, g := PlannedDims(dims, n, order), SizesOf(dims), Numel(SizesOf(dims)) - 1;
    NumelPositive(sizes);
    PlanKeepsOffsets(dims, n, order, op, g);
    ExtentIsLast(SizesOf(planned), StridesOf(planned, n, op));
    PlanCoordInBox(dims, order, g);
    DotWithinExtent(sizes, StridesOf(dims, n, op), PlanCoord(dims, order, g));
    hide PlannedDims, PlanCoord, KeepsWide, Extent, Dot, Numel, FlatOffset;
  }

  /**
   * Every product of a stride and a size of the planned nest is at most twice the extent of the operand,
   * hence inside int64_t for extents below 2^62.
   */
  lemma PlannedStep(dims: seq<Dim>, n: nat, order: seq<nat>, op: nat, d: nat)
    requires Uniform(dims, n) && PositiveDims(dims) && KeepsWide(dims, order) && op < n
    requires NonNegative(StridesOf(dims, n, op))
    requires d < |PlannedDims(dims, n, order)| && PlannedDims(dims, n, order)[d].size > 1
    ensures Uniform(PlannedDims(dims, n, order), n)
    ensures Times(PlannedDims(dims, n, order)[d].strides[op], PlannedDims(dims, n, order)[d].size)
         <= 2 * Extent(SizesOf(dims), StridesOf(dims, n, op))
  {
    var planned := PlannedDims(dims, n, order);
    PlannedNonNegative(dims, n, order, op);
    PlannedExtent(dims, n, order, op);
    hide PlannedDims, KeepsWide, Extent, Numel, Times;
    StepWithinTwice(SizesOf(planned), StridesOf(planned, n, op), d);
  }

  /**
   * Past that, a wrapped product never equals a stride, and neither does the true one: the comparison of
   * the planner has the same answer.
   */
  lemma WrappedStepUnequal(s: int, n: nat, t: int)
    requires 0 <= s && n > 1 && Times(s, n - 1) <= INT64_MAX && 0 <= t <= INT64_MAX
    ensures Wrapped(Times(s, n)) == t <==> Times(s, n) == t
    ensures Times(s, n) > INT64_MAX ==> Wrapped(Times(s, n)) < 0
  {
    var p := Times(s, n);
    TimesAdd(s, n - 1, 1);
    TimesMono(s, 1, n - 1);
    TimesNonNegative(s, n);
    hide Times;
    if p <= INT64_MAX {
      DivModUnique(p + 0x8000_0000_0000_0000, 0, p + 0x8000_0000_0000_0000, UINT64_LIMIT);
    } else {
      DivModUnique(p + 0x8000_0000_0000_0000, 1, p - 0x8000_0000_0000_0000, UINT64_LIMIT);
    }
  }
}
