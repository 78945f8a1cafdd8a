/**
 * Internal overlap: the axes of a layout, the greedy injectivity test, and what passing it means.
 * The test itself sorts the axes; `Separated` states its answer without any sorting.
 */
module Axes {
  import opened Arith
  import opened Layout
  import opened Permutations
  import opened StridedRefs

  datatype Axis = Axis(size: nat, stride: int)

  /** The dimensions that move the offset: those of size greater than one, in layout order. */
  function AxesOf(sizes: seq<nat>, strides: seq<int>): (axes: seq<Axis>)
    requires |sizes| == |strides|
    ensures |axes| <= |sizes|
    ensures forall i :: 0 <= i < |axes| ==> axes[i].size > 1
  {
    if |sizes| == 0 then []
    else
      var k := |sizes| - 1;
      var inner := AxesOf(sizes[..k], strides[..k]);
      if sizes[k] > 1 then inner + [Axis(sizes[k], strides[k])] else inner
  }

  function Reach(a: Axis): int {
    Times(a.stride, a.size - 1)
  }

  function AxesExtent(axes: seq<Axis>): int {
    if |axes| == 0 then 0 else AxesExtent(axes[..|axes| - 1]) + Reach(axes[|axes| - 1])
  }

  function ReachWithin(a: Axis, s: int): int {
    if a.stride <= s then Reach(a) else 0
  }

  /** The extent of the axes whose stride is at most `s`. */
  function Upto(axes: seq<Axis>, s: int): int {
    if |axes| == 0 then 0 else Upto(axes[..|axes| - 1], s) + ReachWithin(axes[|axes| - 1], s)
  }

  /** Every axis steps over everything the axes of no larger stride, other than itself, can reach. */
  ghost predicate Separated(axes: seq<Axis>) {
    forall a :: a in axes ==> a.stride > 0 && a.stride > Upto(axes, a.stride) - Reach(a)
  }

  lemma {:induction false} SumsRemove(axes: seq<Axis>, p: nat, s: int)
    requires p < |axes|
    ensures Upto(axes, s) == Upto(RemoveAt(axes, p), s) + ReachWithin(axes[p], s)
    ensures AxesExtent(axes) == AxesExtent(RemoveAt(axes, p)) + Reach(axes[p])
  {
    hide Times;
    if p == |axes| - 1 {
      assert RemoveAt(axes, p) == axes[..p];
    } else {
      SumsRemove(axes[..|axes| - 1], p, s);
      RemoveBeforeLast(axes, p);
    }
  }

  lemma {:induction false} SumsPermutation(xs: seq<Axis>, ys: seq<Axis>, s: int)
    requires multiset(xs) == multiset(ys)
    ensures Upto(xs, s) == Upto(ys, s) && AxesExtent(xs) == AxesExtent(ys)
  {
    hide Times;
    if |xs| == 0 {
      assert |multiset(ys)| == 0;
    } else {
      var p := LastElsewhere(xs, ys);
      SumsPermutation(xs[..|xs| - 1], RemoveAt(ys, p), s);
      SumsRemove(ys, p, s);
    }
  }

  lemma SeparatedPermutation(xs: seq<Axis>, ys: seq<Axis>)
    requires multiset(xs) == multiset(ys)
    ensures Separated(xs) <==> Separated(ys)
  {
    hide Times;
    forall s ensures Upto(xs, s) == Upto(ys, s) {
      SumsPermutation(xs, ys, s);
    }
    assert forall a :: a in xs <==> a in multiset(xs);
    assert forall a :: a in ys <==> a in multiset(ys);
  }

  predicate Sorted(axes: seq<Axis>) {
    forall i, j :: 0 <= i < j < |axes| ==> axes[i].stride <= axes[j].stride
  }

  /** Sorted except that position `j` may still be smaller than what precedes it. */
  ghost predicate SortedBut(s: seq<Axis>, j: nat) {
    forall p, q :: 0 <= p < q < |s| && q != j ==> s[p].stride <= s[q].stride
  }

  ghost function Swapped(s: seq<Axis>, j: nat): (r: seq<Axis>)
    requires 0 < j < |s|
    ensures |r| == |s|
  {
    s[j - 1 := s[j]][j := s[j - 1]]
  }

  lemma SwappedSorted(s: seq<Axis>, j: nat)
    requires 0 < j < |s| && SortedBut(s, j) && s[j - 1].stride > s[j].stride
    ensures SortedBut(Swapped(s, j), j - 1)
    ensures multiset(Swapped(s, j)) == multiset(s)
  {
  }

  method SwapDown(axes: array<Axis>, j: nat)
    requires 0 < j < axes.Length
    modifies axes
    ensures axes[..] == Swapped(old(axes[..]), j)
  {
    axes[j - 1], axes[j] := axes[j], axes[j - 1];
  }

  lemma SwappedPrefix(s: seq<Axis>, j: nat, n: nat)
    requires 0 < j < |s| && n <= |s|
    ensures j < n ==> Swapped(s, j)[..n] == Swapped(s[..n], j)
    ensures j < n ==> Swapped(s, j)[n..] == s[n..]
  {
  }

  /** Moves the last of the first `n` axes down to its place. */
  method Insert(axes: array<Axis>, n: nat)
    requires 0 < n <= axes.Length && Sorted(axes[..n - 1])
    modifies axes
    ensures Sorted(axes[..n])
    ensures multiset(axes[..n]) == multiset(old(axes[..n]))
    ensures axes[n..] == old(axes[n..])
  {
    var j := n - 1;
    assert forall i :: 0 <= i < n - 1 ==> axes[..n - 1][i] == axes[..n][i];
    while j > 0 && axes[j - 1].stride > axes[j].stride
      invariant 0 <= j < n
      invariant SortedBut(axes[..n], j)
      invariant multiset(axes[..n]) == multiset(old(axes[..n]))
      invariant axes[n..] == old(axes[n..])
    {
      ghost var all := axes[..];
      assert all[..n] == axes[..n] && all[n..] == axes[n..];
      SwappedPrefix(all, j, n);
      SwappedSorted(all[..n], j);
      SwapDown(axes, j);
      assert axes[..n] == axes[..][..n] && axes[n..] == axes[..][n..];
      j := j - 1;
    }
    assert j > 0 ==> axes[..n][j - 1].stride <= axes[..n][j].stride;
  }

  /** `std::sort` by stride; the order of equal strides is not specified and nothing here depends on it. */
  method SortByStride(axes: array<Axis>, count: nat)
    requires count <= axes.Length
    modifies axes
    ensures Sorted(axes[..count])
    ensures multiset(axes[..count]) == multiset(old(axes[..count]))
  {
    for i := 0 to count
      invariant Sorted(axes[..i])
      invariant multiset(axes[..i]) == multiset(old(axes[..i]))
      invariant axes[i..] == old(axes[i..])
    {
      assert axes[i] == axes[i..][0] == old(axes[i..])[0];
      assert axes[..i + 1] == axes[..i] + [axes[i]] && old(axes[..i + 1]) == old(axes[..i]) + [axes[i]];
      assert axes[i + 1..] == axes[i..][1..];
      Insert(axes, i + 1);
      assert axes[i + 1..] == old(axes[i..])[1..];
    }
  }

  lemma NoAxes()
    ensures AxesOf([], []) == []
  {
  }

  lemma AxesOfSnoc(sizes: seq<nat>, strides: seq<int>, d: nat)
    requires d < |sizes| == |strides|
    ensures AxesOf(sizes[..d + 1], strides[..d + 1])
         == AxesOf(sizes[..d], strides[..d]) + (if sizes[d] > 1 then [Axis(sizes[d], strides[d])] else [])
  {
    assert sizes[..d + 1][..d] == sizes[..d] && strides[..d + 1][..d] == strides[..d];
  }

  /** Fills `axes` with the dimensions of size greater than one, sorted by stride. */
  method OverlapAxes(ref: StridedRef, axes: array<Axis>) returns (count: nat)
    requires |ref.sizes| == |ref.strides| <= axes.Length
    modifies axes
    ensures count == |AxesOf(ref.sizes, ref.strides)|
    ensures multiset(axes[..count]) == multiset(AxesOf(ref.sizes, ref.strides))
    ensures Sorted(axes[..count])
  {
    hide AxesOf, Sorted;
    count := 0;
    NoAxes();
    assert ref.sizes[..0] == [] && ref.strides[..0] == [];
    for d := 0 to |ref.sizes|
      invariant count == |AxesOf(ref.sizes[..d], ref.strides[..d])| <= d
      invariant axes[..count] == AxesOf(ref.sizes[..d], ref.strides[..d])
    {
      AxesOfSnoc(ref.sizes, ref.strides, d);
      if ref.sizes[d] > 1 {
        axes[count] := Axis(ref.sizes[d], ref.strides[d]);
        count := count + 1;
      }
    }
    assert ref.sizes[..|ref.sizes|] == ref.sizes && ref.strides[..|ref.sizes|] == ref.strides;
    SortByStride(axes, count);
  }

  /** In sorted order, the axes below position `d` are the ones with a smaller stride. */
  lemma UptoSorted(axes: seq<Axis>, d: nat, s: int)
    requires d <= |axes|
    requires forall i :: 0 <= i < d ==> axes[i].stride <= s
    requires forall i :: d <= i < |axes| ==> axes[i].stride > s
    ensures Upto(axes, s) == AxesExtent(axes[..d])
  {
    hide Times;
    if |axes| > 0 {
      var k := |axes| - 1;
      if d == |axes| {
        assert axes[..d] == axes;
        UptoSorted(axes[..k], k, s);
        assert axes[..k][..k] == axes[..k];
      } else {
        UptoSorted(axes[..k], d, s);
        assert axes[..k][..d] == axes[..d];
      }
    }
  }

  lemma UptoAtLeast(axes: seq<Axis>, d: nat, s: int)
    requires d < |axes| && Sorted(axes) && axes[d].stride == s
    requires forall i :: 0 <= i < |axes| ==> axes[i].size > 1 && (i < d ==> axes[i].stride > 0)
    requires s > 0
    ensures Upto(axes, s) >= AxesExtent(axes[..d]) + Reach(axes[d])
  {
    hide Times;
    var k := |axes| - 1;
    if axes[k].stride <= s {
      assert axes[k].stride > 0 by { assert axes[d].stride <= axes[k].stride || k < d; }
      TimesNonNegative(axes[k].stride, axes[k].size - 1);
    }
    if d == k {
      UptoSorted(axes[..k], k, s);
      assert axes[..k][..k] == axes[..k];
    } else {
      UptoAtLeast(axes[..k], d, s);
      assert axes[..k][..d] == axes[..d];
    }
  }

  /** The machine sums stay inside int64_t when the whole extent does. */
  lemma PartialExtent(axes: seq<Axis>, d: nat)
    requires d <= |axes| && forall i :: 0 <= i < |axes| ==> axes[i].size > 1 && axes[i].stride >= 0
    ensures 0 <= AxesExtent(axes[..d]) <= AxesExtent(axes)
    decreases |axes|
  {
    hide Times;
    if |axes| == 0 {
    } else {
      var k := |axes| - 1;
      TimesNonNegative(axes[k].stride, axes[k].size - 1);
      if d == |axes| {
        assert axes[..d] == axes;
        PartialExtent(axes[..k], k);
        assert axes[..k][..k] == axes[..k];
      } else {
        PartialExtent(axes[..k], d);
        assert axes[..k][..d] == axes[..d];
      }
    }
  }

  lemma SizesAboveOne(xs: seq<Axis>, ys: seq<Axis>)
    requires multiset(xs) == multiset(ys)
    requires forall i :: 0 <= i < |ys| ==> ys[i].size > 1
    ensures forall i :: 0 <= i < |xs| ==> xs[i].size > 1
  {
    forall i | 0 <= i < |xs| ensures xs[i].size > 1 {
      assert xs[i] in multiset(ys);
    }
  }

  /** Each stride beats the extent before it: the form in which the test walks the axes. */
  ghost predicate StepsOver(axes: seq<Axis>) {
    |axes| == 0 ||
    var k := |axes| - 1;
    StepsOver(axes[..k]) && axes[k].size > 1 && axes[k].stride > 0 && axes[k].stride > AxesExtent(axes[..k])
  }

  lemma {:induction false} StepsOverIncreases(axes: seq<Axis>)
    requires StepsOver(axes)
    ensures AxesExtent(axes) >= 0
    ensures forall i :: 0 <= i < |axes| ==> 0 < axes[i].stride <= AxesExtent(axes) && axes[i].size > 1
    ensures forall i, j :: 0 <= i < j < |axes| ==> axes[i].stride < axes[j].stride
  {
    hide Times;
    if |axes| > 0 {
      var k := |axes| - 1;
      StepsOverIncreases(axes[..k]);
      TimesMono(axes[k].stride, 1, axes[k].size - 1);
      TimesAdd(axes[k].stride, 1, 0);
    }
  }

  lemma {:induction false} StepsOverAt(axes: seq<Axis>, d: nat)
    requires StepsOver(axes) && d < |axes|
    ensures axes[d].stride > AxesExtent(axes[..d])
  {
    var k := |axes| - 1;
    if d < k {
      StepsOverAt(axes[..k], d);
      assert axes[..k][..d] == axes[..d];
    }
  }

  lemma AxesExtentSnoc(axes: seq<Axis>, d: nat)
    requires d < |axes|
    ensures AxesExtent(axes[..d + 1]) == AxesExtent(axes[..d]) + Reach(axes[d])
  {
    assert axes[..d + 1][..d] == axes[..d];
    hide Reach;
  }

  /** The axes of no larger stride than axis `d` reach exactly what comes before it, and its own reach. */
  lemma StepsOverUpto(axes: seq<Axis>, d: nat)
    requires StepsOver(axes) && d < |axes|
    ensures axes[d].stride > 0 && axes[d].stride > Upto(axes, axes[d].stride) - Reach(axes[d])
  {
    hide *;
    StepsOverIncreases(axes);
    StepsOverAt(axes, d);
    UptoSorted(axes, d + 1, axes[d].stride);
    AxesExtentSnoc(axes, d);
  }

  lemma SortedSeparated(axes: seq<Axis>)
    requires StepsOver(axes)
    ensures Separated(axes)
  {
    hide StepsOver, Upto, Reach;
    forall a | a in axes ensures a.stride > 0 && a.stride > Upto(axes, a.stride) - Reach(a) {
      var d :| 0 <= d < |axes| && axes[d] == a;
      StepsOverUpto(axes, d);
    }
  }

  lemma {:induction false} SeparatedSteps(axes: seq<Axis>, d: nat)
    requires d <= |axes| && Separated(axes) && Sorted(axes)
    requires forall i :: 0 <= i < |axes| ==> axes[i].size > 1
    ensures StepsOver(axes[..d])
  {
    hide Times;
    if d > 0 {
      SeparatedSteps(axes, d - 1);
      assert axes[..d][..d - 1] == axes[..d - 1];
      assert forall i :: 0 <= i < |axes| ==> axes[i] in axes;
      UptoAtLeast(axes, d - 1, axes[d - 1].stride);
    }
  }

  lemma {:induction false} StepsOverPrefix(axes: seq<Axis>, d: nat)
    requires d <= |axes| && StepsOver(axes)
    ensures StepsOver(axes[..d])
  {
    if d == |axes| {
      assert axes[..d] == axes;
    } else {
      StepsOverPrefix(axes[..|axes| - 1], d);
      assert axes[..|axes| - 1][..d] == axes[..d];
    }
  }

  lemma StepsOverSnoc(axes: seq<Axis>, d: nat)
    requires d < |axes| && StepsOver(axes[..d]) && axes[d].size > 1
    ensures StepsOver(axes[..d + 1]) <==> axes[d].stride > 0 && axes[d].stride > AxesExtent(axes[..d])
    ensures AxesExtent(axes[..d + 1]) == AxesExtent(axes[..d]) + Times(axes[d].stride, axes[d].size - 1)
    ensures !StepsOver(axes[..d + 1]) ==> !StepsOver(axes)
  {
    hide Times;
    assert axes[..d + 1][..d] == axes[..d];
    if StepsOver(axes) {
      StepsOverPrefix(axes, d + 1);
    }
  }

  lemma NoSteps(axes: seq<Axis>)
    requires axes == []
    ensures StepsOver(axes) && AxesExtent(axes) == 0
  {
  }

  /** On sorted axes the walk and the order-free statement are the same. */
  lemma WalkMeansSeparated(sorted: seq<Axis>, sizes: seq<nat>, strides: seq<int>)
    requires |sizes| == |strides| && multiset(sorted) == multiset(AxesOf(sizes, strides)) && Sorted(sorted)
    ensures StepsOver(sorted) <==> Separated(AxesOf(sizes, strides))
    ensures forall i :: 0 <= i < |sorted| ==> sorted[i].size > 1
  {
    var axes := AxesOf(sizes, strides);
    SizesAboveOne(sorted, axes);
    SeparatedPermutation(sorted, axes);
    hide AxesOf, Separated, StepsOver;
    if StepsOver(sorted) {
      SortedSeparated(sorted);
    }
    if Separated(sorted) {
      SeparatedSteps(sorted, |sorted|);
      assert sorted[..|sorted|] == sorted;
    }
  }

  /**
   * The greedy injectivity test. Its answer is a property of the layout alone: how the sort orders
   * equal strides does not matter.
   */
  method IsNonOverlapping(ref: StridedRef) returns (r: bool)
    requires |ref.sizes| == |ref.strides|
    ensures r <==> ref.numel == 0 || Separated(AxesOf(ref.sizes, ref.strides))
  {
    if ref.numel == 0 {
      return true;
    }
    hide AxesOf, Separated, Sorted, StepsOver, AxesExtent, Times;
    NoSteps([]);
    var axes := new Axis[|ref.sizes|](_ => Axis(0, 0));
    var count := OverlapAxes(ref, axes);
    ghost var sorted := axes[..count];
    WalkMeansSeparated(sorted, ref.sizes, ref.strides);
    var extent := 0;
    for d := 0 to count
      invariant axes[..count] == sorted
      invariant extent == AxesExtent(sorted[..d])
      invariant StepsOver(sorted[..d])
    {
      assert axes[d] == sorted[d];
      StepsOverSnoc(sorted, d);
      if axes[d].stride <= 0 || axes[d].stride <= extent {
        return false;
      }
      extent := extent + Times(axes[d].stride, axes[d].size - 1);
    }
    assert sorted[..count] == sorted;
    return true;
  }
}
