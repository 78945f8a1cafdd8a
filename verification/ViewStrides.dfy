/**
 * Reshaping without copying (tensor.h, `compute_view_strides`): strides for new dimensions that read
 * the same elements in the same order, or the answer that there are none.
 */
module ViewStrides {
  import opened Arith
  import opened Layout
  import opened Packing

  /** Both layouts put every element, in C order, at the same offset. */
  ghost predicate SameElements(sizes: seq<nat>, strides: seq<int>, dims: seq<nat>, t: seq<int>)
    requires |sizes| == |strides| && |dims| == |t| && Numel(sizes) == Numel(dims)
  {
    Numel(sizes) > 0 ==> (
      NumelPositive(sizes);
      NumelPositive(dims);
      forall f: nat :: f < Numel(sizes) ==> FlatOffset(dims, t, f) == FlatOffset(sizes, strides, f))
  }

  /** No strides read the same elements in the new shape. */
  ghost predicate NoStridesRead(sizes: seq<nat>, strides: seq<int>, dims: seq<nat>)
    requires |sizes| == |strides| && Numel(sizes) == Numel(dims)
  {
    forall u :: |u| == |dims| ==> !SameElements(sizes, strides, dims, u)
  }

  // ----- packed groups of dimensions -----

  lemma SplitNumel(s: seq<nat>, i: nat)
    requires i <= |s|
    ensures Numel(s) == Numel(s[..i]) * Numel(s[i..])
  {
    NumelConcat(s[..i], s[i..]);
    assert s[..i] + s[i..] == s;
  }

  lemma PositiveParts(s: seq<nat>, i: nat, j: nat)
    requires Positive(s) && i <= j <= |s|
    ensures Positive(s[i..j]) && Numel(s[i..j]) > 0
  {
    NumelPositive(s[i..j]);
  }

  // ----- reading whole blocks -----

  /** Element `x * M` of a nest whose inner part has `M` elements is element `x` of the outer part. */
  lemma BlockOffset(sizes: seq<nat>, strides: seq<int>, i: nat, x: nat)
    requires |sizes| == |strides| && Positive(sizes) && i <= |sizes|
    ensures Positive(sizes[..i]) && Positive(sizes[i..])
    ensures FlatOffset(sizes, strides, x * Numel(sizes[i..])) == FlatOffset(sizes[..i], strides[..i], x)
  {
    var m := Numel(sizes[i..]);
    NumelPositive(sizes[i..]);
    assert sizes[..i] + sizes[i..] == sizes && strides[..i] + strides[i..] == strides;
    FlatOffsetConcat(sizes[..i], strides[..i], sizes[i..], strides[i..], x * m);
    DivModUnique(x * m, x, 0, m);
    FlatOffsetZero(sizes[i..], strides[i..]);
  }

  /** The first `M` elements of a nest are those of its inner part. */
  lemma InnerOffset(sizes: seq<nat>, strides: seq<int>, i: nat, x: nat)
    requires |sizes| == |strides| && Positive(sizes) && i <= |sizes| && x < Numel(sizes[i..])
    ensures Positive(sizes[i..])
    ensures FlatOffset(sizes, strides, x) == FlatOffset(sizes[i..], strides[i..], x)
  {
    var m := Numel(sizes[i..]);
    assert sizes[..i] + sizes[i..] == sizes && strides[..i] + strides[i..] == strides;
    FlatOffsetConcat(sizes[..i], strides[..i], sizes[i..], strides[i..], x);
    DivModUnique(x, 0, x, m);
    FlatOffsetZero(sizes[..i], strides[..i]);
  }

  /** Both nests have the same number of elements inside a cut, at the same offsets. */
  ghost predicate Matched(sizes: seq<nat>, strides: seq<int>, e: nat, dims: seq<nat>, t: seq<int>, w: nat)
    requires |sizes| == |strides| && |dims| == |t| && Positive(sizes) && Positive(dims) && e <= |sizes| && w <= |dims|
  {
    && Numel(sizes[e..]) == Numel(dims[w..])
    && forall f: nat :: f < Numel(sizes[e..]) ==>
         FlatOffset(dims[w..], t[w..], f) == FlatOffset(sizes[e..], strides[e..], f)
  }

  /** One more group on each side, packed with the same unit and as many elements, keeps the match. */
  lemma MatchGroup(sizes: seq<nat>, strides: seq<int>, d: nat, e: nat, dims: seq<nat>, t: seq<int>, v: nat, w: nat, unit: int)
    requires |sizes| == |strides| && |dims| == |t| && Positive(sizes) && Positive(dims)
    requires d <= e <= |sizes| && v <= w <= |dims|
    requires Matched(sizes, strides, e, dims, t, w)
    requires PackedFrom(sizes[d..e], strides[d..e], unit) && PackedFrom(dims[v..w], t[v..w], unit)
    requires Numel(sizes[d..e]) == Numel(dims[v..w])
    ensures Matched(sizes, strides, d, dims, t, v)
  {
    hide FlatOffset, Numel, PackedFrom;
    GroupNumel(sizes, d, e);
    GroupNumel(dims, v, w);
    forall f: nat | f < Numel(sizes[d..])
      ensures FlatOffset(dims[v..], t[v..], f) == FlatOffset(sizes[d..], strides[d..], f)
    {
      GroupOffset(sizes, strides, d, e, unit, f);
      GroupOffset(dims, t, v, w, unit, f);
    }
  }

  lemma GroupNumel(sizes: seq<nat>, d: nat, e: nat)
    requires d <= e <= |sizes| && Positive(sizes)
    ensures Numel(sizes[d..]) == Numel(sizes[d..e]) * Numel(sizes[e..])
    ensures Numel(sizes[e..]) > 0 && Numel(sizes[d..e]) > 0
  {
    NumelConcat(sizes[d..e], sizes[e..]);
    assert sizes[d..e] + sizes[e..] == sizes[d..];
    PositiveParts(sizes, d, e);
    PositiveParts(sizes, e, |sizes|);
    assert sizes[e..|sizes|] == sizes[e..];
  }

  lemma GroupOffset(sizes: seq<nat>, strides: seq<int>, d: nat, e: nat, unit: int, f: nat)
    requires |sizes| == |strides| && Positive(sizes) && d <= e <= |sizes|
    requires PackedFrom(sizes[d..e], strides[d..e], unit) && f < Numel(sizes[d..])
    ensures Positive(sizes[d..]) && Positive(sizes[e..]) && Numel(sizes[e..]) > 0
    ensures FlatOffset(sizes[d..], strides[d..], f)
         == Times(unit, f / Numel(sizes[e..])) + FlatOffset(sizes[e..], strides[e..], f % Numel(sizes[e..]))
  {
    hide *;
    GroupNumel(sizes, d, e);
    PositiveParts(sizes, d, e);
    PositiveParts(sizes, e, |sizes|);
    assert sizes[e..|sizes|] == sizes[e..];
    assert sizes[d..e] + sizes[e..] == sizes[d..] && strides[d..e] + strides[e..] == strides[d..];
    var a, m := Numel(sizes[d..e]), Numel(sizes[e..]);
    FlatOffsetConcat(sizes[d..e], strides[d..e], sizes[e..], strides[e..], f);
    DivBound(f, a, m);
    PackedOffset(sizes[d..e], strides[d..e], unit, f / m);
  }

  // ----- no strides exist -----

  /**
   * The new dimensions would have to cross the end of a packed group: some new dimension `k` starts
   * inside the group and ends beyond it, and the old dimension beyond does not continue the group.
   */
  ghost predicate Crossing(sizes: seq<nat>, strides: seq<int>, d: nat, e: nat, dims: seq<nat>, k: nat, w: nat, unit: int)
    requires |sizes| == |strides|
  {
    && Positive(sizes) && Positive(dims) && Numel(sizes) == Numel(dims)
    && 0 < d <= e <= |sizes| && k < w <= |dims|
    && Numel(sizes[e..]) == Numel(dims[w..])
    && PackedFrom(sizes[d..e], strides[d..e], unit)
    && sizes[d - 1] > 1 && strides[d - 1] != Times(Numel(sizes[d..e]), unit)
    && Numel(dims[k + 1..w]) < Numel(sizes[d..e]) < Numel(dims[k..w])
  }

  lemma FirstOfOuter(sizes: seq<nat>, strides: seq<int>)
    requires 0 < |sizes| == |strides| && Positive(sizes) && sizes[|sizes| - 1] > 1
    ensures FlatOffset(sizes, strides, 1) == strides[|sizes| - 1]
  {
    var k := |sizes| - 1;
    DivModUnique(1, 0, 1, sizes[k]);
    FlatOffsetZero(sizes[..k], strides[..k]);
    TimesOne(strides[k]);
    hide Times;
  }

  /** The old layout, block by block: linear over the group, then off the line. */
  lemma OldBlocks(sizes: seq<nat>, strides: seq<int>, d: nat, e: nat, unit: int, x: nat)
    requires |sizes| == |strides| && Positive(sizes) && 0 < d <= e <= |sizes|
    requires PackedFrom(sizes[d..e], strides[d..e], unit) && sizes[d - 1] > 1
    requires x <= Numel(sizes[d..e])
    ensures Positive(sizes[..e])
    ensures FlatOffset(sizes[..e], strides[..e], x) == if x == Numel(sizes[d..e]) then strides[d - 1] else Times(unit, x)
  {
    var n := Numel(sizes[d..e]);
    PositiveParts(sizes, d, e);
    PositiveParts(sizes, 0, d);
    assert sizes[0..d] == sizes[..d];
    assert sizes[..d] + sizes[d..e] == sizes[..e] && strides[..d] + strides[d..e] == strides[..e];
    FlatOffsetConcat(sizes[..d], strides[..d], sizes[d..e], strides[d..e], x);
    if x == n {
      DivModUnique(x, 1, 0, n);
      FirstOfOuter(sizes[..d], strides[..d]);
      FlatOffsetZero(sizes[d..e], strides[d..e]);
    } else {
      DivModUnique(x, 0, x, n);
      FlatOffsetZero(sizes[..d], strides[..d]);
      PackedOffset(sizes[d..e], strides[d..e], unit, x);
    }
    hide *;
  }

  /** The new layout over the crossing dimension: its own stride once per inner group. */
  lemma NewBlocks(dims: seq<nat>, t: seq<int>, k: nat, w: nat, x: nat)
    requires |dims| == |t| && Positive(dims) && k < w <= |dims| && x < Numel(dims[k..w])
    ensures Positive(dims[..w]) && Positive(dims[k + 1..w]) && Numel(dims[k + 1..w]) > 0
    ensures var p := Numel(dims[k + 1..w]);
            FlatOffset(dims[..w], t[..w], x) == Times(t[k], x / p) + FlatOffset(dims[k + 1..w], t[k + 1..w], x % p)
  {
    hide *;
    var p := Numel(dims[k + 1..w]);
    PositiveParts(dims, 0, w);
    PositiveParts(dims, k, w);
    PositiveParts(dims, k + 1, w);
    PositiveParts(dims, k, k + 1);
    assert dims[k..k + 1] == [dims[k]];
    assert dims[0..w] == dims[..w];
    assert dims[..w][k..] == dims[k..w] && t[..w][k..] == t[k..w];
    InnerOffset(dims[..w], t[..w], k, x);
    assert [dims[k]] + dims[k + 1..w] == dims[k..w] && [t[k]] + t[k + 1..w] == t[k..w];
    NumelCons(dims[k], dims[k + 1..w]);
    FlatOffsetConcat([dims[k]], [t[k]], dims[k + 1..w], t[k + 1..w], x);
    DivBound(x, dims[k], p);
    OneDimension(dims[k], t[k], x / p);
  }

  lemma OneDimension(n: nat, s: int, q: nat)
    requires q < n
    ensures Positive([n]) && FlatOffset([n], [s], q) == Times(s, q)
  {
    var sizes: seq<nat> := [n];
    assert sizes[..0] == [] && [s][..0] == [];
    DivModUnique(q, 0, q, n);
  }

  /** Linear over the group and over each inner group, hence linear at the first element beyond the group. */
  lemma CrossedLine(unit: int, s: int, p: nat, n: nat, r: int)
    requires 0 < p < n && s == Times(unit, p) && r == Times(unit, n % p)
    ensures Times(s, n / p) + r == Times(n, unit)
  {
    SplitProduct(unit, p, n / p, n % p);
    assert n == n / p * p + n % p;
    TimesCommutes(n, unit);
  }

  lemma BlockInRange(sizes: seq<nat>, d: nat, e: nat, x: nat)
    requires Positive(sizes) && 0 < d <= e <= |sizes| && sizes[d - 1] > 1 && x <= Numel(sizes[d..e])
    ensures x * Numel(sizes[e..]) < Numel(sizes)
  {
    var n, m := Numel(sizes[d..e]), Numel(sizes[e..]);
    SplitNumel(sizes, e);
    GroupNumel(sizes, d, e);
    NumelConcat(sizes[..d], sizes[d..e]);
    assert sizes[..d] + sizes[d..e] == sizes[..e];
    PositiveParts(sizes, 0, d - 1);
    assert sizes[0..d - 1] == sizes[..d][..d - 1];
    var a, b := Numel(sizes[..d]), Numel(sizes[..d - 1]);
    assert a == b * sizes[d - 1];
    var total := Numel(sizes);
    hide *;
    WiderThan(b, sizes[d - 1], n, m, x);
  }

  lemma WiderThan(b: nat, s: nat, n: nat, m: nat, x: nat)
    requires b > 0 && s > 1 && n > 0 && m > 0 && x <= n
    ensures x * m < b * s * n * m
  {
    MulMono(1, b, s);
    MulMono(2, b * s, n);
    MulMono(x + 1, b * s * n, m);
    assert (x + 1) * m == x * m + m;
  }

  /** In the new layout too, whatever its strides, the offsets of the crossed group are on the line. */
  lemma CrossedOffsets(sizes: seq<nat>, strides: seq<int>, d: nat, e: nat, dims: seq<nat>, t: seq<int>, k: nat, w: nat, unit: int, x: nat)
    requires |sizes| == |strides| && |dims| == |t| && Crossing(sizes, strides, d, e, dims, k, w, unit)
    requires SameElements(sizes, strides, dims, t) && x <= Numel(sizes[d..e])
    ensures Positive(dims[..w])
    ensures FlatOffset(dims[..w], t[..w], x) == if x == Numel(sizes[d..e]) then strides[d - 1] else Times(unit, x)
  {
    NumelPositive(sizes);
    BlockInRange(sizes, d, e, x);
    BlockOffset(sizes, strides, e, x);
    BlockOffset(dims, t, w, x);
    OldBlocks(sizes, strides, d, e, unit, x);
    hide FlatOffset, Numel, Times, PackedFrom;
  }

  lemma GroupHead(dims: seq<nat>, t: seq<int>, k: nat, w: nat, x: nat)
    requires |dims| == |t| && Positive(dims) && k < w <= |dims| && x < Numel(dims[k + 1..w]) && x < Numel(dims[k..w])
    ensures Positive(dims[..w]) && Positive(dims[k + 1..w])
    ensures FlatOffset(dims[k + 1..w], t[k + 1..w], x) == FlatOffset(dims[..w], t[..w], x)
  {
    NewBlocks(dims, t, k, w, x);
    DivModUnique(x, 0, x, Numel(dims[k + 1..w]));
    TimesAdd(t[k], 0, 0);
    hide Times, FlatOffset, Numel;
  }

  /** When the new dimensions cross the end of a group, no strides whatsoever read the same elements. */
  lemma CrossingHasNoStrides(sizes: seq<nat>, strides: seq<int>, d: nat, e: nat, dims: seq<nat>, t: seq<int>, k: nat, w: nat, unit: int)
    requires |sizes| == |strides| && |dims| == |t| && Crossing(sizes, strides, d, e, dims, k, w, unit)
    ensures !SameElements(sizes, strides, dims, t)
  {
    if SameElements(sizes, strides, dims, t) {
      var n, p := Numel(sizes[d..e]), Numel(dims[k + 1..w]);
      CrossingSizes(sizes, strides, d, e, dims, k, w, unit);
      hide *;
      CrossedOffsets(sizes, strides, d, e, dims, t, k, w, unit, n);
      CrossedOffsets(sizes, strides, d, e, dims, t, k, w, unit, p);
      CrossedOffsets(sizes, strides, d, e, dims, t, k, w, unit, n % p);
      NewBlocks(dims, t, k, w, n);
      NewBlocks(dims, t, k, w, p);
      DivModUnique(p, 1, 0, p);
      FlatOffsetZero(dims[k + 1..w], t[k + 1..w]);
      TimesOne(t[k]);
      GroupHead(dims, t, k, w, n % p);
      CrossedLine(unit, t[k], p, n, Times(unit, n % p));
    }
  }

  lemma CrossingSizes(sizes: seq<nat>, strides: seq<int>, d: nat, e: nat, dims: seq<nat>, k: nat, w: nat, unit: int)
    requires |sizes| == |strides| && Crossing(sizes, strides, d, e, dims, k, w, unit)
    ensures Positive(dims) && 0 < d <= e <= |sizes| && k < w <= |dims|
    ensures 0 < Numel(dims[k + 1..w]) < Numel(sizes[d..e]) < Numel(dims[k..w])
    ensures strides[d - 1] != Times(Numel(sizes[d..e]), unit)
  {
    PositiveParts(dims, k + 1, w);
  }

  // ----- the walk -----

  /** Where a new dimension reaches past the group: dimension `k` starts inside the first `n` elements and ends after them. */
  ghost predicate Passes(dims: seq<nat>, v: nat, w: nat, n: nat, k: nat) {
    v <= k < w <= |dims| && Numel(dims[k + 1..w]) < n < Numel(dims[k..w])
  }

  lemma GrowGroup(sizes: seq<nat>, strides: seq<int>, d: nat, e: nat, unit: int)
    requires |sizes| == |strides| && d < e <= |sizes|
    ensures Numel(sizes[d..e]) == sizes[d] * Numel(sizes[d + 1..e])
    ensures PackedFrom(sizes[d..e], strides[d..e], unit) <==>
              (sizes[d] == 1 || strides[d] == Times(Numel(sizes[d + 1..e]), unit))
              && PackedFrom(sizes[d + 1..e], strides[d + 1..e], unit)
  {
    assert [sizes[d]] + sizes[d + 1..e] == sizes[d..e] && [strides[d]] + strides[d + 1..e] == strides[d..e];
    NumelCons(sizes[d], sizes[d + 1..e]);
    PackedCons(sizes[d], strides[d], sizes[d + 1..e], strides[d + 1..e], unit);
  }

  lemma OverTheEnd(dims: seq<nat>, v: nat, w: nat, n: nat, k: nat)
    requires Positive(dims) && 0 < v <= w <= |dims|
    requires Numel(dims[v..w]) > n ==> Passes(dims, v, w, n, k)
    requires Numel(dims[v..w]) < n || dims[v - 1] == 1
    ensures var k' := if Numel(dims[v..w]) < n then v - 1 else k;
            Numel(dims[v - 1..w]) > n ==> Passes(dims, v - 1, w, n, k')
  {
    GrowGroup(dims, Zeros(|dims|), v - 1, w, 0);
  }

  // ----- the products the walk computes -----

  /** The group that ends at `e` does not continue beyond dimension `d`. */
  predicate Boundary(sizes: seq<nat>, strides: seq<int>, d: nat, e: nat)
    requires |sizes| == |strides| && d < e <= |sizes|
  {
    d == 0 || (sizes[d - 1] != 1 && strides[d - 1] != Times(Numel(sizes[d..e]), strides[e - 1]))
  }

  /** Where the group that ends at `e` starts, at `d` or further out. */
  function GroupStart(sizes: seq<nat>, strides: seq<int>, d: nat, e: nat): (start: nat)
    requires |sizes| == |strides| && d < e <= |sizes|
    ensures start <= d && Boundary(sizes, strides, start, e)
    ensures forall i :: start < i <= d ==> !Boundary(sizes, strides, i, e)
    decreases d
  {
    if Boundary(sizes, strides, d, e) then d else GroupStart(sizes, strides, d - 1, e)
  }

  /** Where covering `n` elements with the new dimensions before `w` stops, when `v` has been reached. */
  function CoverEnd(dims: seq<nat>, v: nat, w: nat, n: nat): (end: nat)
    requires v <= w <= |dims|
    ensures end <= v
    ensures end == 0 || (Numel(dims[end..w]) >= n && dims[end - 1] != 1)
    decreases v
  {
    if v > 0 && (Numel(dims[v..w]) < n || dims[v - 1] == 1) then CoverEnd(dims, v - 1, w, n) else v
  }

  /** Dimension `j` of the old layout, in the group that ends at `e`: its element count, and the stride that would continue the group. */
  predicate OldProductFits(sizes: seq<nat>, strides: seq<int>, j: nat, e: nat)
    requires |sizes| == |strides| && j < e <= |sizes|
  {
    && Numel(sizes[j..e]) <= INT64_MAX
    && (j > 0 && sizes[j - 1] != 1 ==> FitsInt64(Times(Numel(sizes[j..e]), strides[e - 1])))
  }

  predicate OldProductsFit(sizes: seq<nat>, strides: seq<int>, d: nat, e: nat)
    requires |sizes| == |strides| && d <= e <= |sizes|
  {
    forall j :: d <= j < e ==> OldProductFits(sizes, strides, j, e)
  }

  /** New dimension `j` inside `w`: its stride, and the element count with it. */
  predicate NewProductFits(dims: seq<nat>, j: nat, w: nat, unit: int)
    requires j < w <= |dims|
  {
    FitsInt64(Times(Numel(dims[j + 1..w]), unit)) && Numel(dims[j..w]) <= INT64_MAX
  }

  predicate NewProductsFit(dims: seq<nat>, v: nat, w: nat, unit: int)
    requires v <= w <= |dims|
  {
    forall j :: v <= j < w ==> NewProductFits(dims, j, w, unit)
  }

  /**
   * Group by group from the inside out, until one is not covered exactly: every element count and every
   * stride, of the group and of the new dimensions that cover it, is an int64_t. Exact integers, a
   * function of the layout and the new dimensions alone.
   */
  predicate ProductsFit(sizes: seq<nat>, strides: seq<int>, e: nat, dims: seq<nat>, w: nat)
    requires |sizes| == |strides| && e <= |sizes| && w <= |dims|
    decreases e
  {
    e == 0 || (
      var d := GroupStart(sizes, strides, e - 1, e);
      var n := Numel(sizes[d..e]);
      var v := CoverEnd(dims, w, w, n);
      && OldProductsFit(sizes, strides, d, e) && NewProductsFit(dims, v, w, strides[e - 1])
      && (Numel(dims[v..w]) == n ==> ProductsFit(sizes, strides, d, dims, v)))
  }

  lemma ProductsUnfold(sizes: seq<nat>, strides: seq<int>, e: nat, dims: seq<nat>, w: nat)
    requires |sizes| == |strides| && 0 < e <= |sizes| && w <= |dims|
    ensures var d := GroupStart(sizes, strides, e - 1, e);
            var n := Numel(sizes[d..e]);
            var v := CoverEnd(dims, w, w, n);
            ProductsFit(sizes, strides, e, dims, w) <==>
              && OldProductsFit(sizes, strides, d, e) && NewProductsFit(dims, v, w, strides[e - 1])
              && (Numel(dims[v..w]) == n ==> ProductsFit(sizes, strides, d, dims, v))
  {
  }

  /** What one group adds to the products. */
  lemma GroupVerdict(sizes: seq<nat>, strides: seq<int>, d: nat, e: nat, dims: seq<nat>, w: nat, n: nat, fits: bool, exact: bool, v: nat)
    requires |sizes| == |strides| && d < e <= |sizes| && v <= w <= |dims| && InGroup(sizes, strides, d + 1, e)
    requires OldProductFits(sizes, strides, d, e) && Boundary(sizes, strides, d, e) && n == Numel(sizes[d..e])
    requires fits <==> NewProductsFit(dims, CoverEnd(dims, w, w, n), w, strides[e - 1])
    requires fits ==> v == CoverEnd(dims, w, w, n) && (exact <==> Numel(dims[v..w]) == n)
    ensures !fits ==> !ProductsFit(sizes, strides, e, dims, w)
    ensures fits && !exact ==> ProductsFit(sizes, strides, e, dims, w)
    ensures fits && exact ==> (ProductsFit(sizes, strides, e, dims, w) <==> ProductsFit(sizes, strides, d, dims, v))
  {
    hide *;
    GroupEnds(sizes, strides, d, e);
    ProductsUnfold(sizes, strides, e, dims, w);
  }

  lemma CoverNext(dims: seq<nat>, v: nat, w: nat, n: nat)
    requires v <= w <= |dims|
    ensures v > 0 && (Numel(dims[v..w]) < n || dims[v - 1] == 1) ==> CoverEnd(dims, v, w, n) == CoverEnd(dims, v - 1, w, n)
    ensures !(v > 0 && (Numel(dims[v..w]) < n || dims[v - 1] == 1)) ==> CoverEnd(dims, v, w, n) == v
  {
  }

  lemma OneMoreNew(dims: seq<nat>, v: nat, w: nat, unit: int)
    requires 0 < v <= w <= |dims|
    ensures NewProductsFit(dims, v - 1, w, unit) <==> NewProductsFit(dims, v, w, unit) && NewProductFits(dims, v - 1, w, unit)
  {
    hide NewProductFits;
  }

  lemma NothingNew(dims: seq<nat>, w: nat, unit: int)
    requires w <= |dims|
    ensures NewProductsFit(dims, w, w, unit)
  {
  }

  lemma NewProductsInside(dims: seq<nat>, end: nat, v: nat, w: nat, unit: int)
    requires end <= v < w <= |dims|
    ensures NewProductsFit(dims, end, w, unit) ==> NewProductFits(dims, v, w, unit)
  {
  }

  lemma OldProductsInside(sizes: seq<nat>, strides: seq<int>, start: nat, d: nat, e: nat)
    requires |sizes| == |strides| && start <= d < e <= |sizes|
    ensures OldProductsFit(sizes, strides, start, e) ==> OldProductFits(sizes, strides, d, e)
  {
  }

  /**
   * Covers a group of `n` elements with consecutive new dimensions, from the inside out. Stops, with the
   * signed arithmetic undefined, exactly when a product of a covering dimension leaves int64_t.
   */
  method CoverGroup(dims: seq<nat>, row: array<int>, w: nat, n: nat, unit: int)
    returns (fits: bool, v: nat, viewNumel: nat, ghost k: nat)
    requires Positive(dims) && row.Length == |dims| && w <= |dims| && n > 0
    modifies row
    ensures fits <==> NewProductsFit(dims, CoverEnd(dims, w, w, n), w, unit)
    ensures fits ==> v == CoverEnd(dims, w, w, n)
    ensures v <= w && viewNumel == Numel(dims[v..w])
    ensures row[w..] == old(row[w..]) && row[..v] == old(row[..v])
    ensures PackedFrom(dims[v..w], row[v..w], unit)
    ensures fits ==> v == 0 || (viewNumel >= n && dims[v - 1] != 1)
    ensures viewNumel > n ==> Passes(dims, v, w, n, k)
    ensures unit >= 0 ==> forall j :: v <= j < w ==> row[j] >= 0
  {
    hide Times, PackedFrom, Numel, Passes, NewProductsFit, CoverEnd;
    v, viewNumel, k := w, 1, 0;
    ghost var was := row[w..];
    EmptyGroup(dims, row[..], w, unit);
    NothingNew(dims, w, unit);
    while v > 0 && (viewNumel < n || dims[v - 1] == 1)
      invariant v <= w && viewNumel == Numel(dims[v..w]) && row[w..] == was && row[..v] == old(row[..v])
      invariant CoverEnd(dims, v, w, n) == CoverEnd(dims, w, w, n) && NewProductsFit(dims, v, w, unit)
      invariant PackedFrom(dims[v..w], row[v..w], unit)
      invariant viewNumel > n ==> Passes(dims, v, w, n, k)
      invariant unit >= 0 ==> forall j :: v <= j < w ==> row[j] >= 0
    {
      ghost var now := row[..];
      assert now[v..w] == row[v..w];
      GrowGroup(dims, now[v - 1 := Times(viewNumel, unit)], v - 1, w, unit);
      TimesCommutes(viewNumel, dims[v - 1]);
      CoverNext(dims, v, w, n);
      OneMoreNew(dims, v, w, unit);
      if !FitsInt64(Times(viewNumel, unit)) || viewNumel * dims[v - 1] > INT64_MAX {
        StopsCovering(dims, v, w, n, unit);
        return false, v, viewNumel, k;
      }
      OverTheEnd(dims, v, w, n, k);
      k := if viewNumel < n then v - 1 else k;
      if unit >= 0 {
        TimesNonNegative(viewNumel, unit);
      }
      row[v - 1] := Times(viewNumel, unit);
      assert row[..] == now[v - 1 := Times(viewNumel, unit)];
      assert row[v..w] == now[v..w] && row[w..] == was;
      viewNumel := viewNumel * dims[v - 1];
      v := v - 1;
    }
    CoverNext(dims, v, w, n);
    return true, v, viewNumel, k;
  }

  lemma StopsCovering(dims: seq<nat>, v: nat, w: nat, n: nat, unit: int)
    requires 0 < v <= w <= |dims| && !NewProductFits(dims, v - 1, w, unit)
    requires CoverEnd(dims, v - 1, w, n) == CoverEnd(dims, w, w, n)
    ensures !NewProductsFit(dims, CoverEnd(dims, w, w, n), w, unit)
  {
    NewProductsInside(dims, CoverEnd(dims, w, w, n), v - 1, w, unit);
    hide NewProductFits, NewProductsFit;
  }

  lemma EmptyGroup(dims: seq<nat>, row: seq<int>, w: nat, unit: int)
    requires w <= |dims| == |row|
    ensures Numel(dims[w..w]) == 1 && PackedFrom(dims[w..w], row[w..w], unit)
  {
  }

  lemma MatchedFrame(sizes: seq<nat>, strides: seq<int>, e: nat, dims: seq<nat>, t: seq<int>, u: seq<int>, w: nat)
    requires |sizes| == |strides| && |dims| == |t| == |u| && Positive(sizes) && Positive(dims) && e <= |sizes| && w <= |dims|
    requires Matched(sizes, strides, e, dims, t, w) && t[w..] == u[w..]
    ensures Matched(sizes, strides, e, dims, u, w)
  {
  }

  /** The new dimensions neither run out before a group is covered nor pass the end of the last group. */
  lemma CoverFits(sizes: seq<nat>, d: nat, e: nat, dims: seq<nat>, v: nat, w: nat)
    requires Positive(sizes) && Positive(dims) && Numel(sizes) == Numel(dims)
    requires d <= e <= |sizes| && v <= w <= |dims| && Numel(sizes[e..]) == Numel(dims[w..])
    ensures v == 0 ==> Numel(dims[v..w]) >= Numel(sizes[d..e])
    ensures d == 0 ==> Numel(dims[v..w]) <= Numel(sizes[d..e])
    ensures d == 0 && Numel(dims[v..w]) == Numel(sizes[d..e]) ==> Numel(dims[..v]) == 1
  {
    var a, n, m := Numel(sizes[..d]), Numel(sizes[d..e]), Numel(sizes[e..]);
    var b, k := Numel(dims[..v]), Numel(dims[v..w]);
    SplitNumel(sizes, d);
    SplitNumel(dims, v);
    GroupNumel(sizes, d, e);
    GroupNumel(dims, v, w);
    PositiveParts(sizes, 0, d);
    PositiveParts(dims, 0, v);
    assert sizes[0..d] == sizes[..d] && dims[0..v] == dims[..v];
    assert v == 0 ==> b == 1 by { assert v == 0 ==> dims[..v] == []; }
    assert d == 0 ==> a == 1 by { assert d == 0 ==> sizes[..d] == []; }
    hide *;
    assert a * (n * m) == b * (k * m);
    CancelProducts(a, n, b, k, m);
  }

  lemma CancelProducts(a: nat, n: nat, b: nat, k: nat, m: nat)
    requires a * (n * m) == b * (k * m) && a > 0 && b > 0 && m > 0 && n > 0 && k > 0
    ensures b == 1 ==> k >= n
    ensures a == 1 ==> k <= n
    ensures a == 1 && k == n ==> b == 1
  {
    CancelFactor(a, n, b, k, m);
    MulMono(1, a, n);
    MulMono(1, b, k);
    if b >= 2 { MulMono(2, b, k); }
  }

  lemma CancelFactor(a: nat, n: nat, b: nat, k: nat, m: nat)
    requires a * (n * m) == b * (k * m) && m > 0
    ensures a * n == b * k
  {
    var x, y := a * n, b * k;
    assert x * m == a * (n * m) && y * m == b * (k * m);
    if x < y { MulMono(x + 1, y, m); }
    if y < x { MulMono(y + 1, x, m); }
  }

  lemma OnesLeft(dims: seq<nat>, v: nat)
    requires Positive(dims) && v <= |dims| && Numel(dims[..v]) == 1 && (v == 0 || dims[v - 1] != 1)
    ensures v == 0
  {
    if v > 0 {
      PositiveParts(dims, 0, v - 1);
      assert dims[..v][..v - 1] == dims[0..v - 1];
      MulMono(1, Numel(dims[0..v - 1]), dims[v - 1]);
    }
  }

  lemma NothingMatched(sizes: seq<nat>, strides: seq<int>, dims: seq<nat>, t: seq<int>)
    requires |sizes| == |strides| && |dims| == |t| && Positive(sizes) && Positive(dims)
    ensures Matched(sizes, strides, |sizes|, dims, t, |dims|)
    ensures forall unit :: PackedFrom(sizes[|sizes|..|sizes|], strides[|sizes|..|sizes|], unit)
    ensures Numel(sizes[|sizes|..|sizes|]) == 1
  {
    assert sizes[|sizes|..] == [] && dims[|dims|..] == [];
  }

  lemma AllMatched(sizes: seq<nat>, strides: seq<int>, dims: seq<nat>, t: seq<int>)
    requires |sizes| == |strides| && |dims| == |t| && Positive(sizes) && Positive(dims) && Numel(sizes) == Numel(dims)
    requires Matched(sizes, strides, 0, dims, t, 0)
    ensures SameElements(sizes, strides, dims, t)
  {
    assert sizes[0..] == sizes && strides[0..] == strides && dims[0..] == dims && t[0..] == t;
  }

  lemma NoStrides(sizes: seq<nat>, strides: seq<int>, d: nat, e: nat, dims: seq<nat>, k: nat, w: nat, unit: int)
    requires |sizes| == |strides| && Crossing(sizes, strides, d, e, dims, k, w, unit)
    ensures NoStridesRead(sizes, strides, dims)
  {
    forall u: seq<int> | |u| == |dims| ensures !SameElements(sizes, strides, dims, u) {
      CrossingHasNoStrides(sizes, strides, d, e, dims, u, k, w, unit);
    }
  }

  lemma MakeCrossing(sizes: seq<nat>, strides: seq<int>, d: nat, e: nat, dims: seq<nat>, v: nat, k: nat, w: nat, unit: int)
    requires |sizes| == |strides| && Positive(sizes) && Positive(dims) && Numel(sizes) == Numel(dims)
    requires 0 < d <= e <= |sizes| && Passes(dims, v, w, Numel(sizes[d..e]), k) && Numel(sizes[e..]) == Numel(dims[w..])
    requires PackedFrom(sizes[d..e], strides[d..e], unit)
    requires sizes[d - 1] != 1 && strides[d - 1] != Times(Numel(sizes[d..e]), unit)
    ensures Crossing(sizes, strides, d, e, dims, k, w, unit)
  {
  }

  lemma OneMoreOld(sizes: seq<nat>, strides: seq<int>, d: nat, e: nat)
    requires |sizes| == |strides| && d < e <= |sizes|
    ensures OldProductsFit(sizes, strides, d, e) <==> OldProductsFit(sizes, strides, d + 1, e) && OldProductFits(sizes, strides, d, e)
  {
    hide OldProductFits;
  }

  /** The walk is inside the group that ends at `e`: it has seen no boundary and no product that does not fit. */
  ghost predicate InGroup(sizes: seq<nat>, strides: seq<int>, d: nat, e: nat)
    requires |sizes| == |strides| && d <= e <= |sizes|
  {
    && OldProductsFit(sizes, strides, d, e)
    && (0 < d < e ==> !Boundary(sizes, strides, d, e))
    && (0 < d < e ==> GroupStart(sizes, strides, d, e) == GroupStart(sizes, strides, e - 1, e))
  }

  lemma GroupBegins(sizes: seq<nat>, strides: seq<int>, e: nat)
    requires |sizes| == |strides| && e <= |sizes|
    ensures InGroup(sizes, strides, e, e)
  {
  }

  /** One dimension further out, the group has the start it had. */
  lemma SameStart(sizes: seq<nat>, strides: seq<int>, d: nat, e: nat)
    requires |sizes| == |strides| && d < e <= |sizes| && InGroup(sizes, strides, d + 1, e)
    ensures GroupStart(sizes, strides, d, e) == GroupStart(sizes, strides, e - 1, e)
    ensures OldProductsFit(sizes, strides, d + 1, e)
  {
    hide Numel, Times;
  }

  lemma GroupGoesOn(sizes: seq<nat>, strides: seq<int>, d: nat, e: nat)
    requires |sizes| == |strides| && d < e <= |sizes| && InGroup(sizes, strides, d + 1, e)
    requires OldProductFits(sizes, strides, d, e) && !Boundary(sizes, strides, d, e)
    ensures InGroup(sizes, strides, d, e)
  {
    hide OldProductFits;
    SameStart(sizes, strides, d, e);
    OneMoreOld(sizes, strides, d, e);
    hide OldProductsFit;
  }

  lemma GroupEnds(sizes: seq<nat>, strides: seq<int>, d: nat, e: nat)
    requires |sizes| == |strides| && d < e <= |sizes| && InGroup(sizes, strides, d + 1, e)
    requires OldProductFits(sizes, strides, d, e) && Boundary(sizes, strides, d, e)
    ensures GroupStart(sizes, strides, e - 1, e) == d && OldProductsFit(sizes, strides, d, e)
  {
    hide OldProductFits;
    SameStart(sizes, strides, d, e);
    OneMoreOld(sizes, strides, d, e);
    hide OldProductsFit;
  }

  /** A product of the old layout that does not fit is in a group the walk reaches. */
  lemma StopsWalking(sizes: seq<nat>, strides: seq<int>, d: nat, e: nat, dims: seq<nat>, w: nat)
    requires |sizes| == |strides| && d < e <= |sizes| && w <= |dims| && InGroup(sizes, strides, d + 1, e)
    requires !OldProductFits(sizes, strides, d, e)
    ensures !ProductsFit(sizes, strides, e, dims, w)
  {
    SameStart(sizes, strides, d, e);
    ProductsUnfold(sizes, strides, e, dims, w);
    var start := GroupStart(sizes, strides, e - 1, e);
    assert start == GroupStart(sizes, strides, d, e) <= d;
    hide *;
    OldProductsInside(sizes, strides, start, d, e);
  }

  lemma OldProductMeans(sizes: seq<nat>, strides: seq<int>, d: nat, e: nat)
    requires |sizes| == |strides| && d < e <= |sizes|
    ensures OldProductFits(sizes, strides, d, e) <==>
              Numel(sizes[d..e]) <= INT64_MAX
              && (d > 0 && sizes[d - 1] != 1 ==> FitsInt64(Times(Numel(sizes[d..e]), strides[e - 1])))
  {
  }

  lemma BoundaryMeans(sizes: seq<nat>, strides: seq<int>, d: nat, e: nat)
    requires |sizes| == |strides| && d < e <= |sizes|
    ensures Boundary(sizes, strides, d, e) <==>
              d == 0 || (sizes[d - 1] != 1 && strides[d - 1] != Times(Numel(sizes[d..e]), strides[e - 1]))
  {
  }

  lemma GroupMeans(sizes: seq<nat>, strides: seq<int>, d: nat, e: nat, n: int, unit: int)
    requires |sizes| == |strides| && d < e <= |sizes| && n == Numel(sizes[d..e]) && unit == strides[e - 1]
    ensures OldProductFits(sizes, strides, d, e) <==>
              n <= INT64_MAX && (d > 0 && sizes[d - 1] != 1 ==> FitsInt64(Times(n, unit)))
    ensures Boundary(sizes, strides, d, e) <==> d == 0 || (sizes[d - 1] != 1 && strides[d - 1] != Times(n, unit))
  {
    hide *;
    OldProductMeans(sizes, strides, d, e);
    BoundaryMeans(sizes, strides, d, e);
  }

  /** Inside a group, the dimensions from `d` on are packed. */
  lemma GrowInside(sizes: seq<nat>, strides: seq<int>, d: nat, e: nat)
    requires |sizes| == |strides| && d < e <= |sizes| && InGroup(sizes, strides, d + 1, e)
    requires PackedFrom(sizes[d + 1..e], strides[d + 1..e], strides[e - 1])
    ensures PackedFrom(sizes[d..e], strides[d..e], strides[e - 1])
    ensures Numel(sizes[d..e]) == sizes[d] * Numel(sizes[d + 1..e])
  {
    GrowGroup(sizes, strides, d, e, strides[e - 1]);
    FirstFits(strides[e - 1]);
    EmptyGroup(sizes, strides, e, 0);
    hide Times, Numel, PackedFrom, OldProductsFit, GroupStart;
  }

  /** Covering a group writes the row between `v` and `w`, and nothing negative unless the strides are. */
  lemma RowKept(strides: seq<int>, before: seq<int>, row: seq<int>, v: nat, w: nat, e: nat)
    requires 0 < e <= |strides| && |row| == |before| && v <= w <= |row|
    requires before[w..] == row[w..] && row[..v] == before[..v]
    requires strides[e - 1] >= 0 ==> forall j :: v <= j < w ==> row[j] >= 0
    ensures NonNegative(strides) && NonNegative(before) ==> NonNegative(row)
  {
    forall j | 0 <= j < |row| && (j < v || j >= w) ensures row[j] == before[j] {
      if j < v {
        assert row[j] == row[..v][j] == before[..v][j];
      } else {
        assert row[j] == row[w..][j - w] == before[w..][j - w];
      }
    }
  }

  /** Covers the group from `d` to `e`, which does not continue further out, and compares the element counts. */
  method MatchOne(sizes: seq<nat>, strides: seq<int>, d: nat, ghost e: nat, dims: seq<nat>, row: array<int>, w: nat, unit: int, n: nat)
    returns (fits: bool, exact: bool, v: nat)
    requires |sizes| == |strides| && Positive(sizes) && Positive(dims) && Numel(sizes) == Numel(dims)
    requires d < e <= |sizes| && w <= |dims| == row.Length && unit == strides[e - 1]
    requires Matched(sizes, strides, e, dims, row[..], w) && PackedFrom(sizes[d..e], strides[d..e], unit)
    requires n == Numel(sizes[d..e]) > 0 && Boundary(sizes, strides, d, e)
    modifies row
    ensures fits <==> NewProductsFit(dims, CoverEnd(dims, w, w, n), w, unit)
    ensures fits ==> v == CoverEnd(dims, w, w, n) && (exact <==> Numel(dims[v..w]) == n)
    ensures v <= w && (exact && d == 0 ==> v == 0)
    ensures fits && exact ==> Matched(sizes, strides, d, dims, row[..], v)
    ensures fits && !exact ==> NoStridesRead(sizes, strides, dims)
    ensures NonNegative(strides) && old(NonNegative(row[..])) ==> NonNegative(row[..])
  {
    hide *;
    BoundaryMeans(sizes, strides, d, e);
    ghost var before := row[..];
    var viewNumel;
    ghost var k;
    fits, v, viewNumel, k := CoverGroup(dims, row, w, n, unit);
    exact := false;
    assert row[..][w..] == row[w..] && before[w..] == row[w..] && row[..][v..w] == row[v..w];
    assert row[..v] == before[..v] && row[..][..v] == row[..v];
    RowKept(strides, before, row[..], v, w, e);
    if !fits {
      return;
    }
    MatchedFrame(sizes, strides, e, dims, before, row[..], w);
    MatchedNumel(sizes, strides, e, dims, row[..], w);
    CoverFits(sizes, d, e, dims, v, w);
    if viewNumel != n {
      MakeCrossing(sizes, strides, d, e, dims, v, k, w, unit);
      NoStrides(sizes, strides, d, e, dims, k, w, unit);
      return;
    }
    exact := true;
    MatchGroup(sizes, strides, d, e, dims, row[..], v, w, unit);
    if d == 0 {
      OnesLeft(dims, v);
    }
  }

  /**
   * The walk has matched everything inside the cut at `e` and `w`, and is at dimension `d` of the group
   * that ends there, of which it has seen `n` elements.
   */
  ghost predicate Walking(sizes: seq<nat>, strides: seq<int>, dims: seq<nat>, row: seq<int>, d: nat, e: nat, w: nat, unit: int, n: int) {
    && |sizes| == |strides| && |dims| == |row| && Positive(sizes) && Positive(dims)
    && d <= e <= |sizes| && w <= |dims| && Matched(sizes, strides, e, dims, row, w)
    && (d == 0 ==> e == 0 && w == 0)
    && (d > 0 ==> unit == strides[e - 1] && InGroup(sizes, strides, d, e))
    && (d > 0 ==> PackedFrom(sizes[d..e], strides[d..e], unit) && n == Numel(sizes[d..e]))
  }

  lemma WalkBegins(sizes: seq<nat>, strides: seq<int>, dims: seq<nat>, row: seq<int>)
    requires 0 < |sizes| == |strides| && |dims| == |row| && Positive(sizes) && Positive(dims)
    ensures Walking(sizes, strides, dims, row, |sizes|, |sizes|, |dims|, strides[|sizes| - 1], 1)
  {
    hide *;
    NothingMatched(sizes, strides, dims, row);
    GroupBegins(sizes, strides, |sizes|);
    MakeWalking(sizes, strides, dims, row, |sizes|, |sizes|, |dims|, strides[|sizes| - 1], 1);
  }

  lemma MakeWalking(sizes: seq<nat>, strides: seq<int>, dims: seq<nat>, row: seq<int>, d: nat, e: nat, w: nat, unit: int, n: int)
    requires |sizes| == |strides| && |dims| == |row| && Positive(sizes) && Positive(dims)
    requires 0 < d <= e <= |sizes| && w <= |dims| && Matched(sizes, strides, e, dims, row, w)
    requires unit == strides[e - 1] && InGroup(sizes, strides, d, e)
    requires PackedFrom(sizes[d..e], strides[d..e], unit) && n == Numel(sizes[d..e])
    ensures Walking(sizes, strides, dims, row, d, e, w, unit, n)
  {
  }

  /** What is known of the next dimension further out. */
  lemma StepIn(sizes: seq<nat>, strides: seq<int>, dims: seq<nat>, row: seq<int>, d: nat, e: nat, w: nat, unit: int, n: int)
    requires d > 0 && Walking(sizes, strides, dims, row, d, e, w, unit, n)
    ensures 0 < d <= e <= |sizes| == |strides| && w <= |dims| == |row| && Positive(sizes) && Positive(dims)
    ensures Matched(sizes, strides, e, dims, row, w) && unit == strides[e - 1] && InGroup(sizes, strides, d, e)
    ensures PackedFrom(sizes[d - 1..e], strides[d - 1..e], unit) && Times(n, sizes[d - 1]) == Numel(sizes[d - 1..e]) > 0
  {
    hide Matched, PackedFrom, Numel, InGroup;
    GrowInside(sizes, strides, d - 1, e);
    TimesCommutes(sizes[d - 1], n);
    PositiveParts(sizes, d - 1, e);
  }

  /** The first dimension of the next group. */
  lemma NextGroup(sizes: seq<nat>, strides: seq<int>, dims: seq<nat>, row: seq<int>, d: nat, w: nat)
    requires |sizes| == |strides| && |dims| == |row| && Positive(sizes) && Positive(dims)
    requires d <= |sizes| && w <= |dims| && Matched(sizes, strides, d, dims, row, w) && (d == 0 ==> w == 0)
    ensures Walking(sizes, strides, dims, row, d, d, w, if d > 0 then strides[d - 1] else 0, 1)
  {
    EmptyGroup(sizes, strides, d, if d > 0 then strides[d - 1] else 0);
    GroupBegins(sizes, strides, d);
    hide Matched, PackedFrom, Numel, InGroup;
  }

  lemma WalkEnds(sizes: seq<nat>, strides: seq<int>, dims: seq<nat>, row: seq<int>, e: nat, w: nat, unit: int, n: int)
    requires Walking(sizes, strides, dims, row, 0, e, w, unit, n) && Numel(sizes) == Numel(dims)
    ensures |sizes| == |strides| && |dims| == |row| && e == 0 && w == 0
    ensures SameElements(sizes, strides, dims, row) && ProductsFit(sizes, strides, 0, dims, 0)
  {
    AllMatched(sizes, strides, dims, row);
    hide Numel, SameElements, Matched;
  }

  datatype Walk = Covered | Crossed | Overflowed

  /** The group that ends at `e` begins at `d`, and its products are in range. */
  ghost predicate Closing(sizes: seq<nat>, strides: seq<int>, dims: seq<nat>, row: seq<int>, d: nat, e: nat, w: nat, unit: int, n: int) {
    && |sizes| == |strides| && Positive(sizes) && Positive(dims)
    && d < e <= |sizes| && w <= |dims| == |row| && unit == strides[e - 1]
    && Matched(sizes, strides, e, dims, row, w) && PackedFrom(sizes[d..e], strides[d..e], unit)
    && n == Numel(sizes[d..e]) > 0 && Boundary(sizes, strides, d, e)
    && InGroup(sizes, strides, d + 1, e) && OldProductFits(sizes, strides, d, e)
  }

  lemma ClosingMeans(sizes: seq<nat>, strides: seq<int>, dims: seq<nat>, row: seq<int>, d: nat, e: nat, w: nat, unit: int, n: int)
    requires |sizes| == |strides| && Positive(sizes) && Positive(dims)
    requires d < e <= |sizes| && w <= |dims| == |row| && unit == strides[e - 1]
    requires Matched(sizes, strides, e, dims, row, w) && PackedFrom(sizes[d..e], strides[d..e], unit)
    requires n == Numel(sizes[d..e]) > 0 && InGroup(sizes, strides, d + 1, e)
    ensures Boundary(sizes, strides, d, e) && OldProductFits(sizes, strides, d, e)
        ==> Closing(sizes, strides, dims, row, d, e, w, unit, n)
  {
    hide Matched, PackedFrom, Numel, InGroup, Boundary, OldProductFits;
  }

  /** What the two tests of the walk say of dimension `d`, with `n` elements from it to the end of its group. */
  lemma Examine(
    sizes: seq<nat>, strides: seq<int>, dims: seq<nat>, row: seq<int>, d: nat, e: nat, w: nat, unit: int, inside: int,
    n: int, overflows: bool, ends: bool)
    requires d < |sizes| == |strides| && Walking(sizes, strides, dims, row, d + 1, e, w, unit, inside)
    requires n == Times(inside, sizes[d])
    requires overflows <==> n > INT64_MAX || (d > 0 && sizes[d - 1] != 1 && !FitsInt64(Times(n, unit)))
    requires ends <==> d == 0 || (sizes[d - 1] != 1 && strides[d - 1] != Times(n, unit))
    ensures d < e <= |sizes| && w <= |dims|
    ensures overflows ==> !ProductsFit(sizes, strides, e, dims, w)
    ensures !overflows && ends ==> Closing(sizes, strides, dims, row, d, e, w, unit, n)
    ensures !overflows && !ends ==> Walking(sizes, strides, dims, row, d, e, w, unit, n)
  {
    hide *;
    StepIn(sizes, strides, dims, row, d + 1, e, w, unit, inside);
    GroupMeans(sizes, strides, d, e, n, unit);
    ClosingMeans(sizes, strides, dims, row, d, e, w, unit, n);
    if overflows {
      StopsWalking(sizes, strides, d, e, dims, w);
    } else if !ends {
      GroupGoesOn(sizes, strides, d, e);
      MakeWalking(sizes, strides, dims, row, d, e, w, unit, n);
    }
  }

  /** Closes the group from `d` to `e`: covered by new dimensions, or the end of the walk. */
  method CloseGroup(
    sizes: seq<nat>, strides: seq<int>, d: nat, ghost e: nat, dims: seq<nat>, row: array<int>, w: nat, unit: int, n: nat)
    returns (closed: Walk, v: nat)
    requires |sizes| == |strides| && d < e <= |sizes| && w <= |dims| == row.Length && Numel(sizes) == Numel(dims)
    requires Closing(sizes, strides, dims, row[..], d, e, w, unit, n)
    modifies row
    ensures v <= w
    ensures closed.Overflowed? ==> !ProductsFit(sizes, strides, e, dims, w)
    ensures closed.Crossed? ==> ProductsFit(sizes, strides, e, dims, w) && NoStridesRead(sizes, strides, dims)
    ensures closed.Covered? ==> (
      && (ProductsFit(sizes, strides, e, dims, w) <==> ProductsFit(sizes, strides, d, dims, v))
      && Walking(sizes, strides, dims, row[..], d, d, v, if d > 0 then strides[d - 1] else 0, 1))
    ensures NonNegative(strides) && old(NonNegative(row[..])) ==> NonNegative(row[..])
  {
    hide Matched, PackedFrom, Numel, InGroup, Boundary, OldProductFits, Walking, ProductsFit, Positive, NonNegative;
    hide CoverEnd, NewProductsFit, NoStridesRead;
    var fits, exact;
    fits, exact, v := MatchOne(sizes, strides, d, e, dims, row, w, unit, n);
    GroupVerdict(sizes, strides, d, e, dims, w, n, fits, exact, v);
    if !fits {
      return Overflowed, v;
    }
    if !exact {
      return Crossed, v;
    }
    NextGroup(sizes, strides, dims, row[..], d, v);
    return Covered, v;
  }

  /**
   * Walks the old dimensions from the inside out in packed groups, and covers each group exactly with
   * new dimensions. Ends with strides that read the same elements, or because there are none; or, where
   * and only where a product leaves int64_t, with the signed arithmetic undefined.
   */
  method WalkGroups(sizes: seq<nat>, strides: seq<int>, dims: seq<nat>) returns (walk: Walk, t: seq<int>)
    requires 0 < |sizes| == |strides| && Positive(sizes) && Positive(dims) && Numel(sizes) == Numel(dims)
    ensures |t| == |dims|
    ensures walk.Overflowed? <==> !ProductsFit(sizes, strides, |sizes|, dims, |dims|)
    ensures walk.Covered? ==> SameElements(sizes, strides, dims, t)
    ensures walk.Crossed? ==> NoStridesRead(sizes, strides, dims)
    ensures NonNegative(strides) ==> NonNegative(t)
  {
    var row := new int[|dims|](_ => 0);
    assert NonNegative(row[..]);
    hide *;
    var unit, tensorNumel := strides[|sizes| - 1], 1;
    var d, w := |sizes|, |dims|;
    ghost var e, fine := |sizes|, ProductsFit(sizes, strides, |sizes|, dims, |dims|);
    WalkBegins(sizes, strides, dims, row[..]);
    while d > 0
      invariant 0 <= d <= e <= |sizes| && 0 <= w <= |dims| == row.Length
      invariant ProductsFit(sizes, strides, e, dims, w) == fine
      invariant Walking(sizes, strides, dims, row[..], d, e, w, unit, tensorNumel)
      invariant NonNegative(strides) ==> NonNegative(row[..])
    {
      ghost var inside := tensorNumel;
      d := d - 1;
      tensorNumel := Times(tensorNumel, sizes[d]);
      var wide := d > 0 && sizes[d - 1] != 1;
      var overflows := tensorNumel > INT64_MAX || (wide && !FitsInt64(Times(tensorNumel, unit)));
      var ends := d == 0 || (wide && strides[d - 1] != Times(tensorNumel, unit));
      Examine(sizes, strides, dims, row[..], d, e, w, unit, inside, tensorNumel, overflows, ends);
      if overflows {
        return Overflowed, row[..];
      }
      if ends {
        var closed, v := CloseGroup(sizes, strides, d, e, dims, row, w, unit, tensorNumel);
        if closed != Covered {
          return closed, row[..];
        }
        e, w := d, v;
        unit, tensorNumel := if d > 0 then strides[d - 1] else 0, 1;
      }
    }
    WalkEnds(sizes, strides, dims, row[..], e, w, unit, tensorNumel);
    return if w == 0 then Covered else Crossed, row[..];
  }

  lemma FirstFits(unit: int)
    ensures Times(1, unit) == unit
  {
  }

  lemma MatchedNumel(sizes: seq<nat>, strides: seq<int>, e: nat, dims: seq<nat>, t: seq<int>, w: nat)
    requires |sizes| == |strides| && |dims| == |t| && Positive(sizes) && Positive(dims) && e <= |sizes| && w <= |dims|
    requires Matched(sizes, strides, e, dims, t, w)
    ensures Numel(sizes[e..]) == Numel(dims[w..])
  {
  }

  // ----- C order -----

  /** The element counts inside each dimension: the strides of C order. */
  function PackedStrides(dims: seq<nat>): (t: seq<int>)
    ensures |t| == |dims| && forall i :: 0 <= i < |dims| ==> t[i] == Numel(dims[i + 1..])
  {
    seq(|dims|, i requires 0 <= i < |dims| => Numel(dims[i + 1..]))
  }

  /** Some stride of C order is too large for int64_t. */
  predicate StrideTooLarge(dims: seq<nat>) {
    exists i :: 1 <= i < |dims| && Numel(dims[i..]) > INT64_MAX
  }

  /** C-order strides, or the refusal of one that does not fit; relies on each size fitting int64_t. */
  method MakeContiguous(dims: seq<nat>) returns (ok: bool, t: seq<int>)
    ensures ok <==> !StrideTooLarge(dims)
    ensures ok ==> t == PackedStrides(dims)
    ensures |t| == |dims|
  {
    hide Numel, Times;
    var row := new int[|dims|](_ => 0);
    if |dims| == 0 {
      return true, [];
    }
    row[|dims| - 1] := 1;
    LastStride(dims);
    var i := |dims| - 1;
    while i > 0
      invariant 0 <= i < |dims|
      invariant forall j :: i <= j < |dims| ==> row[j] == Numel(dims[j + 1..])
      invariant forall j :: i < j < |dims| ==> Numel(dims[j..]) <= INT64_MAX
    {
      StrideGuard(dims, i, row[i]);
      if !(dims[i] == 0 || row[i] <= INT64_MAX / dims[i]) {
        return false, row[..];
      }
      row[i - 1] := Times(row[i], dims[i]);
      i := i - 1;
    }
    return true, row[..];
  }

  /** The next stride, and what the guard on it says. */
  lemma StrideGuard(dims: seq<nat>, i: nat, s: int)
    requires i < |dims| && s == Numel(dims[i + 1..])
    ensures dims[i] == 0 ==> Numel(dims[i..]) == 0
    ensures dims[i] > 0 ==> (s <= INT64_MAX / dims[i] <==> Numel(dims[i..]) <= INT64_MAX)
    ensures Times(s, dims[i]) == Numel(dims[i..])
  {
    NumelCons(dims[i], dims[i + 1..]);
    assert [dims[i]] + dims[i + 1..] == dims[i..];
    TimesCommutes(s, dims[i]);
    if dims[i] > 0 {
      DivisionGuard(s, dims[i]);
    }
    hide Numel;
  }

  lemma LastStride(dims: seq<nat>)
    requires |dims| > 0
    ensures Numel(dims[|dims| - 1 + 1..]) == 1
  {
  }

  lemma DivisionGuard(s: int, n: nat)
    requires n > 0
    ensures s <= INT64_MAX / n <==> n * s <= INT64_MAX
  {
    var q := INT64_MAX / n;
    assert INT64_MAX == q * n + INT64_MAX % n;
    if s <= q { MulMono(s, q, n); } else { MulMono(q + 1, s, n); }
  }

  lemma TailStrides(dims: seq<nat>)
    requires |dims| > 0
    ensures PackedStrides(dims)[0] == Numel(dims[1..]) && PackedStrides(dims)[1..] == PackedStrides(dims[1..])
  {
    var rest := dims[1..];
    forall i | 0 <= i < |rest| ensures PackedStrides(dims)[i + 1] == PackedStrides(rest)[i] {
      assert dims[i + 2..] == rest[i + 1..];
    }
  }

  lemma {:induction false} PackedStridesPacked(dims: seq<nat>)
    ensures Packed(dims, PackedStrides(dims))
  {
    if |dims| > 0 {
      var t := PackedStrides(dims);
      PackedStridesPacked(dims[1..]);
      TailStrides(dims);
      assert [dims[0]] + dims[1..] == dims && [t[0]] + t[1..] == t;
      TimesOne(Numel(dims[1..]));
      hide Numel, Times, PackedStrides;
      PackedCons(dims[0], t[0], dims[1..], t[1..], 1);
    }
  }

  lemma ContiguousSame(sizes: seq<nat>, strides: seq<int>, dims: seq<nat>)
    requires |sizes| == |strides| && Numel(sizes) == Numel(dims)
    requires Numel(sizes) > 0 ==> Packed(sizes, strides)
    ensures SameElements(sizes, strides, dims, PackedStrides(dims))
  {
    if Numel(sizes) > 0 {
      NumelPositive(sizes);
      NumelPositive(dims);
      PackedStridesPacked(dims);
      forall f: nat | f < Numel(sizes) ensures FlatOffset(dims, PackedStrides(dims), f) == FlatOffset(sizes, strides, f) {
        PackedOffset(sizes, strides, 1, f);
        PackedOffset(dims, PackedStrides(dims), 1, f);
      }
    }
  }

  // ----- the whole decision -----

  /** `Overflow` marks signed products that leave int64_t, which C++ does not define. */
  datatype ViewStatus = Viewable | NotViewable | StorageLimit | Overflow

  /** The new strides are those of C order. */
  predicate InCOrder(sizes: seq<nat>, contiguous: bool) {
    Numel(sizes) == 0 || |sizes| == 0 || contiguous
  }

  predicate SizeTooLarge(dims: seq<nat>) {
    exists i :: 0 <= i < |dims| && dims[i] > INT64_MAX
  }

  /**
   * Strides for viewing a layout as `dims`. `Viewable` comes with strides that read the same elements
   * in the same order, `NotViewable` means no strides do, and `StorageLimit` is the error for sizes or
   * C-order strides that do not fit int64_t. The arithmetic is undefined exactly when a product the
   * walk computes does not fit.
   */
  method ComputeViewStrides(sizes: seq<nat>, strides: seq<int>, contiguous: bool, dims: seq<nat>) returns (status: ViewStatus, t: seq<int>)
    requires |sizes| == |strides| && Numel(dims) == Numel(sizes)
    requires contiguous && Numel(sizes) > 0 ==> Packed(sizes, strides)
    ensures |t| == |dims|
    ensures status.Viewable? ==> SameElements(sizes, strides, dims, t)
    ensures status.Viewable? && NonNegative(strides) ==> NonNegative(t)
    ensures status.NotViewable? ==> NoStridesRead(sizes, strides, dims)
    ensures status.NotViewable? ==> !InCOrder(sizes, contiguous)
    ensures status.StorageLimit? <==> SizeTooLarge(dims) || (InCOrder(sizes, contiguous) && StrideTooLarge(dims))
    ensures status.Overflow? <==> !SizeTooLarge(dims) && !InCOrder(sizes, contiguous)
                                  && !ProductsFit(sizes, strides, |sizes|, dims, |dims|)
  {
    hide Numel, StrideTooLarge, SameElements, PackedFrom, ProductsFit;
    t := seq(|dims|, _ => 0);
    for i := 0 to |dims|
      invariant forall j :: 0 <= j < i ==> dims[j] <= INT64_MAX
    {
      if dims[i] > INT64_MAX {
        return StorageLimit, t;
      }
    }
    if Numel(sizes) == 0 || |sizes| == 0 || contiguous {
      var ok;
      ok, t := MakeContiguous(dims);
      if !ok {
        return StorageLimit, t;
      }
      NoDimensions(sizes, strides);
      ContiguousSame(sizes, strides, dims);
      return Viewable, t;
    }
    NumelPositive(sizes);
    NumelPositive(dims);
    var walk;
    walk, t := WalkGroups(sizes, strides, dims);
    return match walk case Covered => Viewable case Crossed => NotViewable case Overflowed => Overflow, t;
  }

  lemma NoDimensions(sizes: seq<nat>, strides: seq<int>)
    requires |sizes| == |strides|
    ensures |sizes| == 0 ==> Packed(sizes, strides)
  {
  }

  // ----- when the products fit -----

  lemma PartAtMost(s: seq<nat>, i: nat, j: nat)
    requires Positive(s) && i <= j <= |s|
    ensures 0 < Numel(s[i..j]) <= Numel(s)
  {
    hide *;
    var a, b, c := Numel(s[..i]), Numel(s[i..j]), Numel(s[j..]);
    SplitNumel(s, j);
    NumelConcat(s[..i], s[i..j]);
    assert s[..i] + s[i..j] == s[..j];
    PositiveParts(s, 0, i);
    PositiveParts(s, i, j);
    PositiveParts(s, j, |s|);
    assert s[0..i] == s[..i] && s[j..|s|] == s[j..];
    FactorAtMost(a, b, c);
  }

  lemma FactorAtMost(a: nat, b: nat, c: nat)
    requires a > 0 && b > 0 && c > 0
    ensures b <= a * b * c
  {
    MulMono(1, a, b);
    MulMono(1, c, a * b);
    TimesCommutes(c, a * b);
  }

  lemma ProductAtMost(n: int, all: int, unit: int)
    requires 0 <= n <= all && 0 <= unit && Times(all, unit) <= INT64_MAX
    ensures FitsInt64(Times(n, unit))
  {
    MulMono(n, all, unit);
    TimesNonNegative(n, unit);
  }

  lemma OldPartsFit(sizes: seq<nat>, strides: seq<int>, d: nat, e: nat)
    requires |sizes| == |strides| && Positive(sizes) && NonNegative(strides) && d < e <= |sizes|
    requires Numel(sizes) <= INT64_MAX && Times(Numel(sizes), strides[e - 1]) <= INT64_MAX
    ensures OldProductsFit(sizes, strides, d, e)
  {
    forall j | d <= j < e ensures OldProductFits(sizes, strides, j, e) {
      PartAtMost(sizes, j, e);
      ProductAtMost(Numel(sizes[j..e]), Numel(sizes), strides[e - 1]);
      hide Numel, Times;
    }
  }

  lemma NewPartsFit(dims: seq<nat>, v: nat, w: nat, unit: int)
    requires Positive(dims) && v <= w <= |dims| && unit >= 0
    requires Numel(dims) <= INT64_MAX && Times(Numel(dims), unit) <= INT64_MAX
    ensures NewProductsFit(dims, v, w, unit)
  {
    forall j | v <= j < w ensures NewProductFits(dims, j, w, unit) {
      PartAtMost(dims, j, w);
      PartAtMost(dims, j + 1, w);
      ProductAtMost(Numel(dims[j + 1..w]), Numel(dims), unit);
      hide Numel, Times;
    }
  }

  /** No view arithmetic is undefined while the element count, and its product with every stride, fit int64_t. */
  lemma {:induction false} ProductsFitWhen(sizes: seq<nat>, strides: seq<int>, e: nat, dims: seq<nat>, w: nat)
    requires |sizes| == |strides| && Positive(sizes) && Positive(dims) && NonNegative(strides) && Numel(sizes) == Numel(dims)
    requires Numel(sizes) <= INT64_MAX && forall i :: 0 <= i < |strides| ==> Times(Numel(sizes), strides[i]) <= INT64_MAX
    requires e <= |sizes| && w <= |dims|
    ensures ProductsFit(sizes, strides, e, dims, w)
    decreases e
  {
    if e > 0 {
      var d := GroupStart(sizes, strides, e - 1, e);
      var v := CoverEnd(dims, w, w, Numel(sizes[d..e]));
      assert strides[e - 1] >= 0;
      OldPartsFit(sizes, strides, d, e);
      NewPartsFit(dims, v, w, strides[e - 1]);
      ProductsFitWhen(sizes, strides, d, dims, v);
      hide OldProductsFit, NewProductsFit, GroupStart, CoverEnd, Numel;
    }
  }

  const TWO_61: nat := 0x2000_0000_0000_0000
  const TWO_62: nat := 0x4000_0000_0000_0000

  lemma {:induction false} ZeroOffset(sizes: seq<nat>, strides: seq<int>, f: nat)
    requires |sizes| == |strides| && Positive(sizes) && forall i :: 0 <= i < |strides| ==> strides[i] == 0
    ensures FlatOffset(sizes, strides, f) == 0
  {
    if |sizes| > 0 {
      var k := |sizes| - 1;
      ZeroOffset(sizes[..k], strides[..k], f / sizes[k]);
    }
  }

  /**
   * One element repeated 2^63 times: the layout can be viewed as any shape of as many elements, but
   * counting them leaves int64_t.
   */
  lemma RepeatedElementOverflows()
    ensures var sizes, strides, dims := [TWO_62, 2], [0, 0], [2, TWO_62];
            && Numel(sizes) == Numel(dims) && SameElements(sizes, strides, dims, [0, 0])
            && !ProductsFit(sizes, strides, 2, dims, 2)
  {
    var sizes, strides, dims := [TWO_62, 2], [0, 0], [2, TWO_62];
    NumelPair(TWO_62, 2);
    NumelPair(2, TWO_62);
    NumelPair(2, 2);
    forall f: nat ensures FlatOffset(dims, strides, f) == FlatOffset(sizes, strides, f) {
      ZeroOffset(sizes, strides, f);
      ZeroOffset(dims, strides, f);
    }
    assert !Boundary(sizes, strides, 1, 2) by {
      assert strides[0] == Times(Numel(sizes[1..2]), strides[1]);
    }
    ProductsUnfold(sizes, strides, 2, dims, 2);
    hide FlatOffset, Numel, Times, ProductsFit, NewProductsFit, CoverEnd;
    assert GroupStart(sizes, strides, 1, 2) == 0;
    assert !OldProductFits(sizes, strides, 0, 2);
  }

  /**
   * A pair of elements repeated 2^61 times: no stride but the last is needed to see that the new
   * dimension of size 2^62 passes the end of the pair, but the stride beyond it is computed first.
   */
  lemma RepeatedPairOverflows()
    ensures var sizes, strides, dims := [TWO_61, 2], [0, 3], [1, TWO_62];
            && Numel(sizes) == Numel(dims) && !ProductsFit(sizes, strides, 2, dims, 2)
  {
    var sizes, strides, dims := [TWO_61, 2], [0, 3], [1, TWO_62];
    NumelPair(TWO_61, 2);
    NumelPair(1, TWO_62);
    NumelPair(2, 2);
    assert Times(2, 3) == 6 && Times(TWO_62, 3) > INT64_MAX;
    assert Boundary(sizes, strides, 1, 2) && GroupStart(sizes, strides, 1, 2) == 1;
    ProductsUnfold(sizes, strides, 2, dims, 2);
    assert Numel(sizes[1..2]) == 2 && Numel(dims[2..2]) == 1 && Numel(dims[1..2]) == TWO_62;
    CoverNext(dims, 2, 2, 2);
    CoverNext(dims, 1, 2, 2);
    CoverNext(dims, 0, 2, 2);
    hide Numel, Times, ProductsFit, OldProductsFit, CoverEnd, GroupStart;
    assert CoverEnd(dims, 2, 2, 2) == 0;
    assert !NewProductFits(dims, 0, 2, 3);
  }
}
