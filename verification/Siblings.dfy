/**
 * Slices of one packed tensor, the operands that are met most: however many dimensions it has, the overlap
 * classifier decides them.
 */
module Siblings {
  import opened Arith
  import opened Layout
  import opened StridedRefs
  import opened Axes
  import opened Lattice
  import opened Overlap
  import opened Packing
  import opened ViewStrides
  import opened Peels
  import opened Tensors
  import opened Pools

  // ----- part of an injective layout is injective -----

  /** `part` is a box inside that of `dims`, along the same dimensions. */
  ghost predicate PartOf(part: seq<nat>, dims: seq<nat>) {
    |part| == |dims| && forall d :: 0 <= d < |dims| ==> 0 < part[d] <= dims[d]
  }

  /** Smaller sizes reach less far. */
  lemma {:induction false} UptoShrinks(part: seq<nat>, dims: seq<nat>, strides: seq<int>, s: int)
    requires PartOf(part, dims) && |strides| == |dims| && NonNegative(strides)
    ensures Upto(AxesOf(part, strides), s) <= Upto(AxesOf(dims, strides), s)
  {
    hide *;
    if |dims| == 0 {
      NothingReached(part, dims, strides, s);
    } else {
      var k := |dims| - 1;
      ShorterBox(part, dims, strides);
      UptoShrinks(part[..k], dims[..k], strides[..k], s);
      UptoSnoc(part, strides, s);
      UptoSnoc(dims, strides, s);
      ShorterReach(strides[k], part[k], dims[k]);
    }
  }

  lemma NothingReached(part: seq<nat>, dims: seq<nat>, strides: seq<int>, s: int)
    requires PartOf(part, dims) && |strides| == |dims| == 0
    ensures |part| == 0 && Upto(AxesOf(part, strides), s) <= Upto(AxesOf(dims, strides), s)
  {
  }

  lemma ShorterBox(part: seq<nat>, dims: seq<nat>, strides: seq<int>)
    requires PartOf(part, dims) && |strides| == |dims| > 0 && NonNegative(strides)
    ensures |part| == |dims|
    ensures var k := |dims| - 1;
            PartOf(part[..k], dims[..k]) && NonNegative(strides[..k]) && strides[k] >= 0 && 0 < part[k] <= dims[k]
  {
  }

  lemma ShorterReach(s: int, m: nat, n: nat)
    requires s >= 0 && 0 < m <= n
    ensures 0 <= Times(s, m - 1) <= Times(s, n - 1)
  {
    TimesMono(s, m - 1, n - 1);
    TimesNonNegative(s, m - 1);
  }

  /** Taking part of a layout leaves its injectivity test as it was. */
  lemma PartSeparated(part: seq<nat>, dims: seq<nat>, strides: seq<int>)
    requires PartOf(part, dims) && |strides| == |dims| && NonNegative(strides)
    requires Separated(AxesOf(dims, strides))
    ensures Separated(AxesOf(part, strides))
  {
    forall a | a in AxesOf(part, strides)
      ensures a.stride > 0 && a.stride > Upto(AxesOf(part, strides), a.stride) - Reach(a)
    {
      var m := AxisIndex(part, strides, a);
      PartAxis(part, dims, strides, m);
    }
    hide AxesOf, Upto, Times;
  }

  lemma PartAxis(part: seq<nat>, dims: seq<nat>, strides: seq<int>, m: nat)
    requires PartOf(part, dims) && |strides| == |dims| && NonNegative(strides) && m < |dims| && part[m] > 1
    requires Separated(AxesOf(dims, strides))
    ensures strides[m] > 0
    ensures strides[m] > Upto(AxesOf(part, strides), strides[m]) - Times(strides[m], part[m] - 1)
  {
    var s := strides[m];
    FlatInside(part, dims, m);
    hide *;
    SeparatedAt(dims, dims[m := 1], strides, m);
    UptoWithout(part, part[m := 1], strides, m, s);
    UptoShrinks(part[m := 1], dims[m := 1], strides, s);
  }

  lemma FlatInside(part: seq<nat>, dims: seq<nat>, m: nat)
    requires PartOf(part, dims) && m < |dims| && part[m] > 1
    ensures PartOf(part[m := 1], dims[m := 1]) && |part| == |dims| && dims[m] > 1
  {
  }

  /** The dimension an axis comes from. */
  lemma {:induction false} AxisIndex(sizes: seq<nat>, strides: seq<int>, a: Axis) returns (d: nat)
    requires |sizes| == |strides| && a in AxesOf(sizes, strides)
    ensures d < |sizes| && sizes[d] > 1 && a == Axis(sizes[d], strides[d])
  {
    var k := |sizes| - 1;
    LastAxis(sizes, strides);
    if sizes[k] > 1 && a == Axis(sizes[k], strides[k]) {
      d := k;
    } else {
      d := AxisIndex(sizes[..k], strides[..k], a);
    }
  }

  // ----- parts with the same wide dimensions -----

  ghost predicate SameWide(a: seq<nat>, b: seq<nat>) {
    |a| == |b| && forall d :: 0 <= d < |a| ==> (a[d] > 1 <==> b[d] > 1)
  }

  lemma {:induction false} SameAxisCount(a: seq<nat>, b: seq<nat>, strides: seq<int>)
    requires SameWide(a, b) && |strides| == |a|
    ensures |AxesOf(a, strides)| == |AxesOf(b, strides)|
  {
    if |a| > 0 {
      var k := |a| - 1;
      assert SameWide(a[..k], b[..k]);
      SameAxisCount(a[..k], b[..k], strides[..k]);
      LastAxis(a, strides);
      LastAxis(b, strides);
      hide AxesOf;
    }
  }

  lemma SameStrides(a: seq<nat>, b: seq<nat>, strides: seq<int>, x: Axis)
    requires SameWide(a, b) && |strides| == |a| && x in AxesOf(a, strides)
    ensures HasStride(AxesOf(b, strides), x.stride)
  {
    var d := AxisIndex(a, strides, x);
    AxisInLayout(b, strides, d);
    hide AxesOf;
    assert Axis(b[d], strides[d]) in AxesOf(b, strides);
  }

  /** Of two strides of a packed layout the inner one divides the outer one. */
  lemma PackedDivides(dims: seq<nat>, i: nat, j: nat)
    requires Positive(dims) && i <= j < |dims|
    ensures Divides(PackedStrides(dims)[j], PackedStrides(dims)[i])
  {
    var tail := dims[i + 1..];
    assert tail[..j - i] + tail[j - i..] == tail && tail[j - i..] == dims[j + 1..];
    NumelConcat(tail[..j - i], tail[j - i..]);
    NumelPositive(dims[j + 1..]);
    MultipleOf(Numel(tail[..j - i]), Numel(dims[j + 1..]));
    hide Numel, Divides;
  }

  lemma PackedNested(dims: seq<nat>, a: seq<nat>, b: seq<nat>, wide: nat)
    requires Positive(dims) && SameWide(a, b) && |a| == |dims| && wide < |a| && a[wide] > 1
    ensures NestedStrides(AxesOf(a, PackedStrides(dims)), AxesOf(b, PackedStrides(dims)))
  {
    var t := PackedStrides(dims);
    var xs, ys := AxesOf(a, t), AxesOf(b, t);
    SameAxisCount(a, b, t);
    AxisInLayout(a, t, wide);
    hide AxesOf, PackedStrides, HasStride, Divides;
    forall x | x in xs ensures HasStride(ys, x.stride) {
      SameStrides(a, b, t, x);
    }
    forall y | y in ys ensures HasStride(xs, y.stride) {
      SameStrides(b, a, t, y);
    }
    forall x, x' | x in xs && x' in xs ensures Divides(x.stride, x'.stride) || Divides(x'.stride, x.stride) {
      var i := AxisIndex(a, t, x);
      var j := AxisIndex(a, t, x');
      if i <= j { PackedDivides(dims, i, j); } else { PackedDivides(dims, j, i); }
    }
    assert |xs| > 0;
  }

  lemma PartProven(r: StridedRef, dims: seq<nat>)
    requires Positive(dims) && PartOf(r.sizes, dims) && r.strides == PackedStrides(dims)
    ensures Proven(r)
  {
    PackedStridesPacked(dims);
    OwnerSeparated(dims, PackedStrides(dims));
    forall i | 0 <= i < |dims| ensures PackedStrides(dims)[i] >= 0 {
    }
    hide Numel, Packed, Separated, AxesOf, PackedStrides, Injective;
    PartSeparated(r.sizes, dims, r.strides);
  }

  lemma WholeDistance(a: StridedRef, b: StridedRef)
    requires a.Valid() && b.Valid() && a.elem == b.elem && Proven(a) && Proven(b)
    requires (b.address - a.address) % a.elem.bytes == 0
    requires NestedStrides(AxesOfRef(a), AxesOfRef(b))
    ensures !Undecided(a, b)
  {
    hide Proven, NestedStrides, RangesMeet, SameMapping, Dense, DivisorSeparates;
  }

  /**
   * Two parts of one packed tensor, of any rank, a whole number of elements apart, wide in the same
   * dimensions: they are never undecided, and for elements of two bytes or more the classifier never declines.
   */
  lemma SiblingsDecided(a: StridedRef, b: StridedRef, dims: seq<nat>)
    requires a.Valid() && b.Valid() && SamePlace(a, b) && a.elem == b.elem
    requires (b.address - a.address) % a.elem.bytes == 0
    requires |a.sizes| == |b.sizes| == |dims| && a.strides == b.strides == PackedStrides(dims)
    requires forall d :: 0 <= d < |dims| ==> 0 < a.sizes[d] <= dims[d] && 0 < b.sizes[d] <= dims[d]
    requires forall d :: 0 <= d < |dims| ==> (a.sizes[d] > 1 <==> b.sizes[d] > 1)
    requires exists d :: 0 <= d < |dims| && a.sizes[d] > 1
    ensures !Undecided(a, b)
    ensures a.elem.bytes >= 2 ==> !Declined(a, b)
  {
    var wide: nat :| wide < |dims| && a.sizes[wide] > 1;
    assert Positive(dims) && PartOf(a.sizes, dims) && PartOf(b.sizes, dims) && SameWide(a.sizes, b.sizes);
    PartProven(a, dims);
    PartProven(b, dims);
    PackedNested(dims, a.sizes, b.sizes, wide);
    hide *;
    AxesAre(a);
    AxesAre(b);
    WholeDistance(a, b);
    if a.elem.bytes >= 2 {
      RoomyNeverFires(a, b);
    }
  }

  /** Updating a part of a packed tensor in place is always accepted. */
  lemma InPlaceAllowed(r: StridedRef, dims: seq<nat>)
    requires r.Valid() && |r.sizes| == |dims| && r.strides == PackedStrides(dims)
    requires forall d :: 0 <= d < |dims| ==> 0 < r.sizes[d] <= dims[d]
    ensures !Declined(r, r) && LeafAllowed(r, r, false)
  {
    assert Positive(dims) && PartOf(r.sizes, dims);
    PartProven(r, dims);
    hide Proven, PackedStrides, SharesByte, Dense, LatticeUndecided, GuardTrips;
  }

  lemma AxesAre(r: StridedRef)
    requires |r.sizes| == |r.strides|
    ensures AxesOfRef(r) == AxesOf(r.sizes, r.strides)
  {
  }
}
