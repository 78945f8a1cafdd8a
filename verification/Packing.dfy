/**
 * Packed layouts and flat indexing (expression_shape.h, strided_ref.h, tensor.h): when element `f` in
 * C order is simply `f` elements past the start, and when that stays true under broadcasting.
 */
module Packing {
  import opened Arith
  import opened Layout
  import opened StridedRefs
  import opened Shapes

  /** C order with innermost stride `unit`; a dimension of size one may have any stride. */
  predicate PackedFrom(sizes: seq<nat>, strides: seq<int>, unit: int)
    requires |sizes| == |strides|
  {
    |sizes| == 0 ||
    var k := |sizes| - 1;
    (sizes[k] == 1 || strides[k] == unit) && PackedFrom(sizes[..k], strides[..k], Times(unit, sizes[k]))
  }

  predicate Packed(sizes: seq<nat>, strides: seq<int>)
    requires |sizes| == |strides|
  {
    PackedFrom(sizes, strides, 1)
  }

  lemma SplitProduct(u: int, n: int, q: int, r: int)
    ensures Times(Times(u, n), q) + Times(u, r) == Times(u, q * n + r)
  {
    assert u * (q * n + r) == u * (q * n) + u * r;
    assert u * (q * n) == u * n * q;
  }

  lemma PackedStep(u: int, n: nat, s: int, f: nat)
    requires n > 0 && (n == 1 || s == u)
    ensures Times(Times(u, n), f / n) + Times(s, f % n) == Times(u, f)
  {
    var q, r := f / n, f % n;
    assert f == q * n + r;
    SplitProduct(u, n, q, r);
    if n == 1 {
      assert r == 0;
      TimesAdd(u, 0, 0);
      TimesAdd(s, 0, 0);
    }
  }

  lemma OuterInRange(sizes: seq<nat>, f: nat)
    requires |sizes| > 0 && Positive(sizes) && f < Numel(sizes)
    ensures 0 <= f / sizes[|sizes| - 1] < Numel(sizes[..|sizes| - 1])
  {
    DivBound(f, Numel(sizes[..|sizes| - 1]), sizes[|sizes| - 1]);
  }

  /** In a packed layout the offset of an element is its C-order position. */
  lemma {:induction false} PackedOffset(sizes: seq<nat>, strides: seq<int>, unit: int, f: nat)
    requires |sizes| == |strides| && Positive(sizes) && PackedFrom(sizes, strides, unit) && f < Numel(sizes)
    ensures FlatOffset(sizes, strides, f) == Times(unit, f)
  {
    if |sizes| == 0 {
      TimesAdd(unit, 0, 0);
    } else {
      var k := |sizes| - 1;
      OuterInRange(sizes, f);
      PackedOffset(sizes[..k], strides[..k], Times(unit, sizes[k]), f / sizes[k]);
      PackedStep(unit, sizes[k], strides[k], f);
    }
    hide Times, Numel;
  }

  lemma {:induction false} FlatOffsetZero(sizes: seq<nat>, strides: seq<int>)
    requires |sizes| == |strides| && Positive(sizes)
    ensures FlatOffset(sizes, strides, 0) == 0
  {
    hide Times;
    if |sizes| > 0 {
      var k := |sizes| - 1;
      DivModUnique(0, 0, 0, sizes[k]);
      FlatOffsetZero(sizes[..k], strides[..k]);
      TimesAdd(strides[k], 0, 0);
    }
  }

  /** Offsets grow by `unit` per element. */
  ghost predicate Linear(sizes: seq<nat>, strides: seq<int>, unit: int)
    requires |sizes| == |strides| && Positive(sizes)
  {
    forall f: nat :: f < Numel(sizes) ==> FlatOffset(sizes, strides, f) == Times(unit, f)
  }

  lemma OuterLinear(sizes: seq<nat>, strides: seq<int>, unit: int)
    requires 0 < |sizes| == |strides| && Positive(sizes) && Linear(sizes, strides, unit)
    ensures var k := |sizes| - 1; Linear(sizes[..k], strides[..k], Times(unit, sizes[k]))
  {
    hide Times, FlatOffset, Numel;
    var k := |sizes| - 1;
    var n := sizes[k];
    forall q: nat | q < Numel(sizes[..k]) ensures FlatOffset(sizes[..k], strides[..k], q) == Times(Times(unit, n), q) {
      OuterLinearAt(sizes, strides, unit, q);
    }
  }

  lemma OuterLinearAt(sizes: seq<nat>, strides: seq<int>, unit: int, q: nat)
    requires 0 < |sizes| == |strides| && Positive(sizes) && Linear(sizes, strides, unit) && q < Numel(sizes[..|sizes| - 1])
    ensures var k := |sizes| - 1; FlatOffset(sizes[..k], strides[..k], q) == Times(Times(unit, sizes[k]), q)
  {
    var k := |sizes| - 1;
    var n := sizes[k];
    MulMono(q + 1, Numel(sizes[..k]), n);
    MulMono(0, q, n);
    DivModUnique(q * n, q, 0, n);
    SplitProduct(unit, n, q, 0);
    TimesAdd(unit, 0, 0);
    TimesAdd(strides[k], 0, 0);
    hide Times;
    assert FlatOffset(sizes, strides, q * n) == Times(unit, q * n);
  }

  lemma InnermostUnit(sizes: seq<nat>, strides: seq<int>, unit: int)
    requires 0 < |sizes| == |strides| && Positive(sizes) && Linear(sizes, strides, unit) && sizes[|sizes| - 1] > 1
    ensures strides[|sizes| - 1] == unit
  {
    var k := |sizes| - 1;
    NumelPositive(sizes[..k]);
    MulMono(1, Numel(sizes[..k]), sizes[k]);
    DivModUnique(1, 0, 1, sizes[k]);
    FlatOffsetZero(sizes[..k], strides[..k]);
    TimesAdd(unit, 0, 0);
    TimesAdd(strides[k], 0, 0);
    hide Times;
    assert FlatOffset(sizes, strides, 1) == Times(unit, 1);
  }

  /** Packing is exactly what makes flat indexing right: no weaker test would do, and no stronger is needed. */
  lemma {:induction false} PackedIffLinear(sizes: seq<nat>, strides: seq<int>, unit: int)
    requires |sizes| == |strides| && Positive(sizes)
    ensures PackedFrom(sizes, strides, unit) <==> Linear(sizes, strides, unit)
  {
    hide Times, FlatOffset, Numel;
    if PackedFrom(sizes, strides, unit) {
      forall f: nat | f < Numel(sizes) ensures FlatOffset(sizes, strides, f) == Times(unit, f) {
        PackedOffset(sizes, strides, unit, f);
      }
    }
    if Linear(sizes, strides, unit) && |sizes| > 0 {
      var k := |sizes| - 1;
      OuterLinear(sizes, strides, unit);
      PackedIffLinear(sizes[..k], strides[..k], Times(unit, sizes[k]));
      if sizes[k] > 1 {
        InnermostUnit(sizes, strides, unit);
      }
    }
  }

  // ----- the two packing tests -----

  /** What the loop of `is_packed` decides: from the innermost dimension out, stopping at a size of zero. */
  predicate PackedUntilZero(sizes: seq<nat>, strides: seq<int>, unit: int)
    requires |sizes| == |strides|
  {
    |sizes| == 0 ||
    var k := |sizes| - 1;
    sizes[k] == 0
    || ((sizes[k] == 1 || strides[k] == unit) && PackedUntilZero(sizes[..k], strides[..k], Times(unit, sizes[k])))
  }

  /** A packed group stays packed when a dimension that steps over all of it is put outside. */
  lemma {:induction false} PackedCons(x: nat, s: int, sizes: seq<nat>, strides: seq<int>, unit: int)
    requires |sizes| == |strides|
    ensures PackedFrom([x] + sizes, [s] + strides, unit)
       <==> (x == 1 || s == Times(Numel(sizes), unit)) && PackedFrom(sizes, strides, unit)
  {
    hide Times;
    var all, allStrides := [x] + sizes, [s] + strides;
    if |sizes| == 0 {
      assert all[..0] == [] && allStrides[..0] == [];
      TimesCommutes(1, unit);
      TimesOne(unit);
    } else {
      var k := |sizes| - 1;
      assert all[..|all| - 1] == [x] + sizes[..k] && allStrides[..|all| - 1] == [s] + strides[..k];
      PackedCons(x, s, sizes[..k], strides[..k], Times(unit, sizes[k]));
      Reassociate(Numel(sizes[..k]), unit, sizes[k]);
    }
  }

  lemma Reassociate(a: int, u: int, n: int)
    ensures Times(a, Times(u, n)) == Times(a * n, u)
  {
    assert a * (u * n) == (a * n) * u;
  }

  lemma {:induction false} NumelCons(x: nat, sizes: seq<nat>)
    ensures Numel([x] + sizes) == x * Numel(sizes)
  {
    if |sizes| == 0 {
      assert ([x] + sizes)[..0] == [];
    } else {
      var k := |sizes| - 1;
      assert ([x] + sizes)[..|sizes|] == [x] + sizes[..k];
      NumelCons(x, sizes[..k]);
      assert x * Numel(sizes[..k]) * sizes[k] == x * (Numel(sizes[..k]) * sizes[k]);
    }
  }

  /** The running products the test forms, until it stops, fit int64_t. */
  predicate RunningProductsFit(sizes: seq<nat>, strides: seq<int>, unit: int)
    requires |sizes| == |strides|
  {
    |sizes| == 0 ||
    var k := |sizes| - 1;
    sizes[k] == 0
    || (if sizes[k] == 1 then RunningProductsFit(sizes[..k], strides[..k], unit)
        else strides[k] != unit
             || (Times(unit, sizes[k]) <= INT64_MAX && RunningProductsFit(sizes[..k], strides[..k], Times(unit, sizes[k]))))
  }

  /** `is_packed`. Its signed products are defined exactly when `fits`. */
  method IsPacked(sizes: seq<nat>, strides: seq<int>) returns (r: bool, ghost fits: bool)
    requires |sizes| == |strides|
    ensures r <==> PackedUntilZero(sizes, strides, 1)
    ensures fits <==> RunningProductsFit(sizes, strides, 1)
  {
    hide Times;
    fits := true;
    var expected := 1;
    var d := |sizes|;
    assert sizes[..d] == sizes && strides[..d] == strides;
    while d > 0
      invariant 0 <= d <= |sizes|
      invariant PackedUntilZero(sizes, strides, 1) <==> PackedUntilZero(sizes[..d], strides[..d], expected)
      invariant if fits then RunningProductsFit(sizes, strides, 1) <==> RunningProductsFit(sizes[..d], strides[..d], expected)
                else !RunningProductsFit(sizes, strides, 1)
    {
      PrefixOfPrefix(sizes, d);
      PrefixOfPrefix(strides, d);
      d := d - 1;
      if sizes[d] == 0 {
        return true, fits;
      }
      if sizes[d] == 1 {
        TimesOne(expected);
        continue;
      }
      if strides[d] != expected {
        return false, fits;
      }
      expected := Times(expected, sizes[d]);
      fits := fits && expected <= INT64_MAX;
    }
    return true, fits;
  }

  /** The contiguity flag a tensor caches: an empty tensor always counts as contiguous. */
  method CachedContiguous(sizes: seq<nat>, strides: seq<int>, numel: nat) returns (r: bool)
    requires |sizes| == |strides| && numel == Numel(sizes)
    ensures r <==> numel == 0 || Packed(sizes, strides)
  {
    hide Times;
    if |sizes| == 0 || numel == 0 {
      return true;
    }
    NumelPositive(sizes);
    var expected := 1;
    var d := |sizes|;
    assert sizes[..d] == sizes && strides[..d] == strides;
    while d > 0
      invariant 0 <= d <= |sizes|
      invariant Packed(sizes, strides) <==> PackedFrom(sizes[..d], strides[..d], expected)
    {
      PrefixOfPrefix(sizes, d);
      PrefixOfPrefix(strides, d);
      d := d - 1;
      if sizes[d] == 1 {
        TimesOne(expected);
        continue;
      }
      if strides[d] != expected {
        return false;
      }
      expected := Times(expected, sizes[d]);
    }
    return true;
  }

  /**
   * The running product of both tests, taken over inner dimensions that are packed, is at most one more
   * than the extent of the whole layout.
   */
  lemma RunningProductBounded(sizes: seq<nat>, strides: seq<int>, k: nat)
    requires |sizes| == |strides| && Positive(sizes) && NonNegative(strides) && k <= |sizes|
    requires Packed(sizes[k..], strides[k..])
    ensures 0 < Numel(sizes[k..]) <= Extent(sizes, strides) + 1
  {
    hide *;
    SplitPositive(sizes, k);
    NumelPositive(sizes[..k]);
    NumelPositive(sizes[k..]);
    assert sizes[..k] + sizes[k..] == sizes && strides[..k] + strides[k..] == strides;
    NumelConcat(sizes[..k], sizes[k..]);
    var n := Numel(sizes[k..]);
    var f := n - 1;
    MulMono(1, Numel(sizes[..k]), n);
    FlatOffsetConcat(sizes[..k], strides[..k], sizes[k..], strides[k..], f);
    DivModUnique(f, 0, f, n);
    FlatOffsetZero(sizes[..k], strides[..k]);
    PackedIs(sizes[k..], strides[k..]);
    PackedOffset(sizes[k..], strides[k..], 1, f);
    TimesOne(f);
    FlatOffsetIsDot(sizes, strides, f);
    UnflattenInBox(sizes, f);
    DotWithinExtent(sizes, strides, Unflatten(sizes, f));
  }

  /** They do for every layout with elements whose extent is below INT64_MAX. */
  lemma RunningProductsFitWhen(sizes: seq<nat>, strides: seq<int>)
    requires |sizes| == |strides| && Positive(sizes) && NonNegative(strides) && Extent(sizes, strides) < INT64_MAX
    ensures RunningProductsFit(sizes, strides, 1)
  {
    var n := |sizes|;
    assert sizes[..n] == sizes && strides[..n] == strides && sizes[n..] == [] && strides[n..] == [];
    ProductsFitFrom(sizes, strides, n, 1);
  }

  lemma {:induction false} ProductsFitFrom(sizes: seq<nat>, strides: seq<int>, d: nat, unit: int)
    requires |sizes| == |strides| && Positive(sizes) && NonNegative(strides) && Extent(sizes, strides) < INT64_MAX
    requires d <= |sizes| && Packed(sizes[d..], strides[d..]) && unit == Numel(sizes[d..])
    ensures RunningProductsFit(sizes[..d], strides[..d], unit)
    decreases d
  {
    if d > 0 {
      var k := d - 1;
      OneMorePacked(sizes, strides, k, unit);
      ProductsFitStep(sizes, strides, k, unit);
      hide *;
      if sizes[k] == 1 || strides[k] == unit {
        RunningProductBounded(sizes, strides, k);
        ProductsFitFrom(sizes, strides, k, Times(unit, sizes[k]));
      }
    }
  }

  lemma ProductsFitStep(sizes: seq<nat>, strides: seq<int>, k: nat, unit: int)
    requires k < |sizes| == |strides| && sizes[k] > 0
    ensures sizes[k] == 1 ==> Times(unit, sizes[k]) == unit
    ensures sizes[k] != 1 && strides[k] != unit ==> RunningProductsFit(sizes[..k + 1], strides[..k + 1], unit)
    ensures Times(unit, sizes[k]) <= INT64_MAX && RunningProductsFit(sizes[..k], strides[..k], Times(unit, sizes[k])) ==>
              RunningProductsFit(sizes[..k + 1], strides[..k + 1], unit)
  {
    assert sizes[..k + 1][..k] == sizes[..k] && strides[..k + 1][..k] == strides[..k];
    TimesOne(unit);
    hide Times;
  }

  lemma OneMorePacked(sizes: seq<nat>, strides: seq<int>, k: nat, unit: int)
    requires k < |sizes| == |strides| && Positive(sizes) && Packed(sizes[k + 1..], strides[k + 1..])
    requires unit == Numel(sizes[k + 1..])
    ensures sizes[k] == 1 || strides[k] == unit ==> Packed(sizes[k..], strides[k..])
    ensures Numel(sizes[k..]) == Times(unit, sizes[k]) && sizes[k] > 0
  {
    PackedCons(sizes[k], strides[k], sizes[k + 1..], strides[k + 1..], 1);
    NumelCons(sizes[k], sizes[k + 1..]);
    assert [sizes[k]] + sizes[k + 1..] == sizes[k..] && [strides[k]] + strides[k + 1..] == strides[k..];
    TimesOne(unit);
    TimesCommutes(unit, sizes[k]);
    hide PackedFrom, Numel;
  }

  /** An empty shape can make them leave int64_t. */
  lemma EmptyShapeOverflows()
    ensures var sizes, strides := [0, 0x100_0000_0000, 0x100_0000_0000], [0, 0x100_0000_0000, 1];
            Numel(sizes) == 0 && NonNegative(strides) && !RunningProductsFit(sizes, strides, 1)
  {
    var sizes: seq<nat>, strides: seq<int> := [0, 0x100_0000_0000, 0x100_0000_0000], [0, 0x100_0000_0000, 1];
    assert sizes[..2] == [0, 0x100_0000_0000] && strides[..2] == [0, 0x100_0000_0000];
    NumelPositive(sizes);
    assert sizes[0] == 0;
    TimesOne(0x100_0000_0000);
    assert Times(1, 0x100_0000_0000) == 0x100_0000_0000;
    assert !RunningProductsFit(sizes[..2], strides[..2], 0x100_0000_0000);
  }

  lemma SplitPositive(sizes: seq<nat>, k: nat)
    requires Positive(sizes) && k <= |sizes|
    ensures Positive(sizes[..k]) && Positive(sizes[k..])
  {
  }

  lemma PackedIs(sizes: seq<nat>, strides: seq<int>)
    requires |sizes| == |strides| && Packed(sizes, strides)
    ensures PackedFrom(sizes, strides, 1)
  {
  }

  lemma {:induction false} PackedTestsAgree(sizes: seq<nat>, strides: seq<int>, unit: int)
    requires |sizes| == |strides| && Positive(sizes)
    ensures PackedUntilZero(sizes, strides, unit) <==> PackedFrom(sizes, strides, unit)
  {
    hide Times;
    if |sizes| > 0 {
      PackedTestsAgree(sizes[..|sizes| - 1], strides[..|sizes| - 1], Times(unit, sizes[|sizes| - 1]));
    }
  }

  /** On an empty shape the two tests may answer differently. */
  lemma PackedTestsDiffer()
    ensures var sizes, strides := [0, 3], [99, 7];
            Numel(sizes) == 0 && !PackedUntilZero(sizes, strides, 1)
  {
    var sizes: seq<nat>, strides: seq<int> := [0, 3], [99, 7];
    assert sizes[..1] == [0] && sizes[..1][..0] == [];
    assert Numel(sizes[..1]) == Numel(sizes[..1][..0]) * 0;
    assert Numel(sizes) == Numel(sizes[..1]) * 3;
  }

  /** The last dimension of size zero. */
  function LastZero(sizes: seq<nat>): (z: nat)
    requires !Positive(sizes)
    ensures z < |sizes| && sizes[z] == 0 && Positive(sizes[z + 1..])
  {
    var k := |sizes| - 1;
    if sizes[k] == 0 then k
    else
      assert !Positive(sizes[..k]);
      var z := LastZero(sizes[..k]);
      assert sizes[z + 1..] == sizes[..k][z + 1..] + [sizes[k]];
      z
  }

  /**
   * The two tests agree on a layout exactly when it has elements, or when the dimensions inside its
   * last empty one are packed.
   */
  lemma {:induction false} PackedTestsAgreeWhen(sizes: seq<nat>, strides: seq<int>, unit: int)
    requires |sizes| == |strides|
    ensures Positive(sizes) ==> (PackedUntilZero(sizes, strides, unit) <==> PackedFrom(sizes, strides, unit))
    ensures !Positive(sizes) ==> (
      var z := LastZero(sizes);
      PackedUntilZero(sizes, strides, unit) <==> PackedFrom(sizes[z + 1..], strides[z + 1..], unit))
  {
    hide Times;
    if Positive(sizes) {
      PackedTestsAgree(sizes, strides, unit);
    } else {
      var k, z := |sizes| - 1, LastZero(sizes);
      if sizes[k] != 0 {
        InsideZero(sizes, strides, unit);
        hide *;
        PackedTestsAgreeWhen(sizes[..k], strides[..k], Times(unit, sizes[k]));
      }
    }
  }

  /** The last empty dimension stays where it is when the last dimension, which is not empty, is dropped. */
  lemma InsideZero(sizes: seq<nat>, strides: seq<int>, unit: int)
    requires |sizes| == |strides| && !Positive(sizes) && sizes[|sizes| - 1] != 0
    ensures var k, z := |sizes| - 1, LastZero(sizes);
            && !Positive(sizes[..k]) && LastZero(sizes[..k]) == z
            && (PackedUntilZero(sizes, strides, unit)
                <==> (sizes[k] == 1 || strides[k] == unit) && PackedUntilZero(sizes[..k], strides[..k], Times(unit, sizes[k])))
            && (PackedFrom(sizes[z + 1..], strides[z + 1..], unit)
                <==> (sizes[k] == 1 || strides[k] == unit)
                     && PackedFrom(sizes[..k][z + 1..], strides[..k][z + 1..], Times(unit, sizes[k])))
  {
    hide Times;
    var k, z := |sizes| - 1, LastZero(sizes);
    assert !Positive(sizes[..k]);
    assert sizes[z + 1..][..k - z - 1] == sizes[..k][z + 1..];
    assert strides[z + 1..][..k - z - 1] == strides[..k][z + 1..];
  }
}
