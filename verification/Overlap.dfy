/** The destination/source overlap classifier (overlap.h). */
module Overlap {
  import opened Arith
  import opened Layout
  import opened StridedRefs
  import opened Axes
  import opened Lattice
  import opened Carries
  import opened Gcds

  datatype OverlapStatus = None | Full | Partial | TooHard

  function AxesOfRef(r: StridedRef): seq<Axis>
    requires |r.sizes| == |r.strides|
  {
    AxesOf(r.sizes, r.strides)
  }

  ghost predicate Proven(r: StridedRef)
    requires |r.sizes| == |r.strides|
  {
    Separated(AxesOfRef(r))
  }

  predicate Dense(r: StridedRef)
    requires |r.sizes| == |r.strides|
  {
    Extent(r.sizes, r.strides) + 1 == r.numel
  }

  /** Both descriptors are non-empty and their byte ranges intersect in one address space. */
  ghost predicate RangesMeet(a: StridedRef, b: StridedRef)
    requires a.Valid() && b.Valid()
  {
    && a.numel > 0 && b.numel > 0 && a.address != 0 && b.address != 0
    && SamePlace(a, b)
    && a.EndAddress() > b.address && b.EndAddress() > a.address
  }

  /** Some number divides every stride of both layouts, but not the distance between them. */
  ghost predicate DivisorSeparates(xs: seq<Axis>, ys: seq<Axis>, delta: int) {
    exists g :: DividesAxes(g, xs) && DividesAxes(g, ys) && g > 0 && !Divides(g, delta)
  }

  ghost predicate HasStride(axes: seq<Axis>, s: int) {
    exists a :: a in axes && a.stride == s
  }

  /** The same strides on both sides, any two of them one a multiple of the other. */
  ghost predicate NestedStrides(xs: seq<Axis>, ys: seq<Axis>) {
    && |xs| == |ys| > 0
    && (forall x :: x in xs ==> HasStride(ys, x.stride))
    && (forall y :: y in ys ==> HasStride(xs, y.stride))
    && (forall x, x' :: x in xs && x' in xs ==> Divides(x.stride, x'.stride) || Divides(x'.stride, x.stride))
  }

  /** The layouts the lattice tests say nothing about. */
  ghost predicate LatticeUndecided(a: StridedRef, b: StridedRef, delta: int)
    requires |a.sizes| == |a.strides| && |b.sizes| == |b.strides|
  {
    !DivisorSeparates(AxesOfRef(a), AxesOfRef(b), delta) && !NestedStrides(AxesOfRef(a), AxesOfRef(b))
  }

  /** The layouts that no test of the classifier says anything about. */
  ghost predicate Undecided(a: StridedRef, b: StridedRef)
    requires a.Valid() && b.Valid()
  {
    && RangesMeet(a, b)
    && (a.elem != b.elem
        || (&& !(SameMapping(a, b) && Proven(a))
            && (|| !Proven(a) || !Proven(b)
                || (&& !(Dense(a) && Dense(b))
                    && (|| (b.address - a.address) % a.elem.bytes != 0
                        || LatticeUndecided(a, b, (b.address - a.address) / a.elem.bytes))))))
  }

  /**
   * The guard against int64_t overflow ends the carry loop: with the axes in stride order, some carry
   * that can be reached leaves int64_t on an axis but the last.
   */
  ghost predicate GuardTrips(a: StridedRef, b: StridedRef, delta: int)
    requires |a.sizes| == |a.strides| && |b.sizes| == |b.strides|
  {
    && !DivisorSeparates(AxesOfRef(a), AxesOfRef(b), delta)
    && exists xs, ys :: TripsOn(a, b, delta, xs, ys)
  }

  ghost predicate TripsOn(a: StridedRef, b: StridedRef, delta: int, xs: seq<Axis>, ys: seq<Axis>)
    requires |a.sizes| == |a.strides| && |b.sizes| == |b.strides|
  {
    && SortedAxesOf(xs, a.sizes, a.strides) && SortedAxesOf(ys, b.sizes, b.strides)
    && NestedPair(xs, ys) && CarryOverflows(xs, ys, delta)
  }

  /** The classifier gets as far as the carry loop, and its guard fires there. */
  ghost predicate GuardFires(a: StridedRef, b: StridedRef)
    requires a.Valid() && b.Valid()
  {
    && RangesMeet(a, b) && a.elem == b.elem && !SameMapping(a, b)
    && Proven(a) && Proven(b) && !(Dense(a) && Dense(b))
    && (b.address - a.address) % a.elem.bytes == 0
    && GuardTrips(a, b, (b.address - a.address) / a.elem.bytes)
  }

  /** Exactly when the classifier declines to answer. */
  ghost predicate Declined(a: StridedRef, b: StridedRef)
    requires a.Valid() && b.Valid()
  {
    Undecided(a, b) || GuardFires(a, b)
  }

  // ----- the gcd test -----

  ghost predicate IsGcdOf(g: nat, axes: seq<Axis>) {
    if |axes| == 0 then g == 0
    else g > 0 && DividesAxes(g, axes) && forall h :: h > 0 && DividesAxes(h, axes) ==> Divides(h, g)
  }

  lemma DividesAxesSnoc(h: int, axes: seq<Axis>, a: Axis)
    ensures DividesAxes(h, axes + [a]) <==> DividesAxes(h, axes) && Divides(h, a.stride)
  {
    assert forall i :: 0 <= i < |axes| ==> (axes + [a])[i] == axes[i];
    assert (axes + [a])[|axes|] == a;
  }

  lemma GcdStep(g: nat, axes: seq<Axis>, a: Axis)
    requires IsGcdOf(g, axes) && a.stride > 0
    ensures IsGcdOf(Gcd(g, a.stride), axes + [a])
  {
    var r := Gcd(g, a.stride);
    GcdIsGreatest(g, a.stride, 1);
    forall h | h > 0 && DividesAxes(h, axes + [a]) ensures Divides(h, r) {
      DividesAxesSnoc(h, axes, a);
      if |axes| == 0 {
        DivModUnique(0, 0, 0, h);
      }
      GcdIsGreatest(g, a.stride, h);
    }
    DividesAxesSnoc(r, axes, a);
    forall i | 0 <= i < |axes| ensures Divides(r, axes[i].stride) {
      var q := axes[i].stride / g;
      assert axes[i].stride == 0 + Times(q, g);
      DivModUnique(0, 0, 0, r);
      DividesCombination(r, 0, g, q);
    }
  }

  /** Folds `std::gcd` over the strides of the first `count` axes, starting from `start`. */
  method FoldGcd(axes: array<Axis>, count: nat, start: nat, ghost seen: seq<Axis>) returns (gcd: nat)
    requires count <= axes.Length && IsGcdOf(start, seen)
    requires forall i :: 0 <= i < count ==> axes[i].stride > 0
    ensures IsGcdOf(gcd, seen + axes[..count])
  {
    gcd := start;
    assert seen + axes[..0] == seen;
    for d := 0 to count
      invariant IsGcdOf(gcd, seen + axes[..d])
    {
      GcdStep(gcd, seen + axes[..d], axes[d]);
      assert seen + axes[..d + 1] == seen + axes[..d] + [axes[d]];
      gcd := Gcd(gcd, axes[d].stride);
    }
  }

  lemma DividesAxesConcat(h: int, xs: seq<Axis>, ys: seq<Axis>)
    ensures DividesAxes(h, xs + ys) <==> DividesAxes(h, xs) && DividesAxes(h, ys)
  {
    assert forall i :: 0 <= i < |xs| ==> (xs + ys)[i] == xs[i];
    assert forall i :: 0 <= i < |ys| ==> (xs + ys)[|xs| + i] == ys[i];
  }

  /** One gcd decides whether any divisor separates the layouts. */
  lemma GcdTest(g: nat, xs: seq<Axis>, ys: seq<Axis>, delta: int)
    requires IsGcdOf(g, xs + ys)
    requires |xs + ys| > 0
    ensures DivisorSeparates(xs, ys, delta) <==> delta % g != 0
  {
    DividesAxesConcat(g, xs, ys);
    if DivisorSeparates(xs, ys, delta) && delta % g == 0 {
      var h :| DividesAxes(h, xs) && DividesAxes(h, ys) && h > 0 && !Divides(h, delta);
      DividesAxesConcat(h, xs, ys);
      assert Divides(h, g);
      var q := delta / g;
      assert delta == 0 + Times(q, g);
      DivModUnique(0, 0, 0, h);
      DividesCombination(h, 0, g, q);
      assert false;
    }
  }

  // ----- the lattice in sorted axes -----

  /** Both layouts proven injective, `delta` elements apart on one grid, with their axes in stride order. */
  ghost predicate SortedPair(a: StridedRef, b: StridedRef, delta: int, xs: seq<Axis>, ys: seq<Axis>) {
    && OnGrid(a, b, delta)
    && a.numel > 0 && b.numel > 0
    && SortedAxesOf(xs, a.sizes, a.strides) && StepsOver(xs)
    && SortedAxesOf(ys, b.sizes, b.strides) && StepsOver(ys)
  }

  lemma {:induction false} AxisDotDifference(xs: seq<Axis>, ys: seq<Axis>, i: seq<int>, j: seq<int>)
    requires |xs| == |ys| == |i| == |j| && forall d :: 0 <= d < |xs| ==> xs[d].stride == ys[d].stride
    ensures AxisDot(xs, seq(|i|, d requires 0 <= d < |i| => i[d] - j[d])) == AxisDot(xs, i) - AxisDot(ys, j)
  {
    hide Times;
    if |i| > 0 {
      var k := |i| - 1;
      AxisDotDifference(xs[..k], ys[..k], i[..k], j[..k]);
      TimesAdd(xs[k].stride, i[k], j[k]);
      assert seq(|i|, d requires 0 <= d < |i| => i[d] - j[d])[..k]
          == seq(k, d requires 0 <= d < k => i[..k][d] - j[..k][d]);
    }
  }

  /** Sharing an element means index differences within the band that sum to the distance. */
  lemma SharingMeets(a: StridedRef, b: StridedRef, delta: int, xs: seq<Axis>, ys: seq<Axis>, c: seq<int>, c': seq<int>)
    requires SortedPair(a, b, delta, xs, ys) && NestedPair(xs, ys)
    requires InBox(a.sizes, c) && InBox(b.sizes, c') && Dot(a.strides, c) == delta + Dot(b.strides, c')
    ensures Meets(xs, ys, delta)
  {
    var u := LayoutToAxes(a.sizes, a.strides, c);
    var i := PermuteAxes(AxesOfRef(a), xs, u);
    var v := LayoutToAxes(b.sizes, b.strides, c');
    var j := PermuteAxes(AxesOfRef(b), ys, v);
    var k := seq(|i|, d requires 0 <= d < |i| => i[d] - j[d]);
    AxisDotDifference(xs, ys, i, j);
    assert Band(xs, ys, k);
  }

  /** A band of differences is a difference of two index vectors. */
  lemma SplitDifference(xs: seq<Axis>, ys: seq<Axis>, k: seq<int>) returns (i: seq<int>, j: seq<int>)
    requires NestedPair(xs, ys) && |k| == |xs| && Band(xs, ys, k)
    ensures InAxes(xs, i) && InAxes(ys, j) && AxisDot(xs, k) == AxisDot(xs, i) - AxisDot(ys, j)
  {
    i := seq(|k|, d requires 0 <= d < |k| => if k[d] > 0 then k[d] else 0);
    j := seq(|k|, d requires 0 <= d < |k| => if k[d] > 0 then 0 else -k[d]);
    AxisDotDifference(xs, ys, i, j);
    assert k == seq(|i|, d requires 0 <= d < |i| => i[d] - j[d]);
  }

  lemma MeetingShares(a: StridedRef, b: StridedRef, delta: int, xs: seq<Axis>, ys: seq<Axis>)
    requires SortedPair(a, b, delta, xs, ys) && NestedPair(xs, ys) && Meets(xs, ys, delta)
    ensures SharesOffset(a, b, delta)
  {
    NumelPositive(a.sizes);
    NumelPositive(b.sizes);
    var k :| |k| == |xs| && Band(xs, ys, k) && AxisDot(xs, k) == delta;
    var i, j := SplitDifference(xs, ys, k);
    hide NestedPair, StepsOver, Band;
    var u := PermuteAxes(xs, AxesOfRef(a), i);
    var c := AxesToLayout(a.sizes, a.strides, u);
    var v := PermuteAxes(ys, AxesOfRef(b), j);
    var c' := AxesToLayout(b.sizes, b.strides, v);
  }

  lemma SharesIffMeets(a: StridedRef, b: StridedRef, delta: int, xs: seq<Axis>, ys: seq<Axis>)
    requires SortedPair(a, b, delta, xs, ys) && NestedPair(xs, ys)
    ensures SharesOffset(a, b, delta) <==> Meets(xs, ys, delta)
  {
    if SharesOffset(a, b, delta) {
      var c, c' :| InBox(a.sizes, c) && InBox(b.sizes, c') && Dot(a.strides, c) == delta + Dot(b.strides, c');
      SharingMeets(a, b, delta, xs, ys, c, c');
    }
    if Meets(xs, ys, delta) {
      MeetingShares(a, b, delta, xs, ys);
    }
  }

  lemma DividesGap(g: int, x: int, y: int, delta: int)
    requires Divides(g, x) && Divides(g, y) && x == delta + y
    ensures Divides(g, delta)
  {
    DividesCombination(g, x, y, 1);
  }

  /** A divisor of every stride that is no divisor of the distance keeps the layouts apart. */
  lemma DivisorSeparatesSharing(a: StridedRef, b: StridedRef, delta: int)
    requires OnGrid(a, b, delta) && DivisorSeparates(AxesOfRef(a), AxesOfRef(b), delta)
    ensures !SharesOffset(a, b, delta)
  {
    var g :| DividesAxes(g, AxesOfRef(a)) && DividesAxes(g, AxesOfRef(b)) && g > 0 && !Divides(g, delta);
    if SharesOffset(a, b, delta) {
      var c, c' :| InBox(a.sizes, c) && InBox(b.sizes, c') && Dot(a.strides, c) == delta + Dot(b.strides, c');
      var i := LayoutToAxes(a.sizes, a.strides, c);
      var j := LayoutToAxes(b.sizes, b.strides, c');
      DividesOffsets(g, AxesOfRef(a), i);
      DividesOffsets(g, AxesOfRef(b), j);
      DividesGap(g, Dot(a.strides, c), Dot(b.strides, c'), delta);
    }
  }

  lemma SeparatesPermutation(xs: seq<Axis>, ys: seq<Axis>, xs': seq<Axis>, ys': seq<Axis>, delta: int)
    requires multiset(xs) == multiset(xs') && multiset(ys) == multiset(ys')
    ensures DivisorSeparates(xs, ys, delta) <==> DivisorSeparates(xs', ys', delta)
  {
    forall g ensures DividesAxes(g, xs) <==> DividesAxes(g, xs') {
      DividesAxesPermutation(g, xs, xs');
    }
    forall g ensures DividesAxes(g, ys) <==> DividesAxes(g, ys') {
      DividesAxesPermutation(g, ys, ys');
    }
  }

  lemma NestedPermutation(xs: seq<Axis>, ys: seq<Axis>, xs': seq<Axis>, ys': seq<Axis>)
    requires multiset(xs) == multiset(xs') && multiset(ys) == multiset(ys')
    ensures NestedStrides(xs, ys) <==> NestedStrides(xs', ys')
  {
    assert |xs| == |multiset(xs)| == |xs'| && |ys| == |multiset(ys)| == |ys'|;
    assert forall a :: (a in xs <==> a in multiset(xs)) && (a in xs' <==> a in multiset(xs'));
    assert forall a :: (a in ys <==> a in multiset(ys)) && (a in ys' <==> a in multiset(ys'));
    assert forall s :: (HasStride(xs, s) <==> HasStride(xs', s)) && (HasStride(ys, s) <==> HasStride(ys', s));
  }

  ghost predicate StrictlyIncreasing(axes: seq<Axis>) {
    forall i, j :: 0 <= i < j < |axes| ==> axes[i].stride < axes[j].stride
  }

  lemma StrideSkipped(axes: seq<Axis>, d: nat, s: int)
    requires StrictlyIncreasing(axes) && d < |axes| && s < axes[d].stride
    requires d > 0 ==> axes[d - 1].stride < s
    ensures !HasStride(axes, s)
  {
    forall a | a in axes ensures a.stride != s {
      var e :| 0 <= e < |axes| && axes[e] == a;
      assert e < d ==> axes[e].stride <= axes[d - 1].stride;
    }
  }

  /** The first position where sorted stride lists differ holds a stride the other list lacks. */
  lemma MismatchNotNested(xs: seq<Axis>, ys: seq<Axis>, d: nat)
    requires StrictlyIncreasing(xs) && StrictlyIncreasing(ys) && d < |xs| == |ys|
    requires forall i :: 0 <= i < d ==> xs[i].stride == ys[i].stride
    requires xs[d].stride != ys[d].stride
    ensures !NestedStrides(xs, ys)
  {
    assert xs[d] in xs && ys[d] in ys;
    if xs[d].stride < ys[d].stride {
      StrideSkipped(ys, d, xs[d].stride);
    } else {
      StrideSkipped(xs, d, ys[d].stride);
    }
  }

  /** A larger stride that is no multiple of its neighbour is unrelated to it. */
  lemma BrokenChainNotNested(xs: seq<Axis>, ys: seq<Axis>, d: nat)
    requires StrictlyIncreasing(xs) && 0 < d < |xs| && xs[d - 1].stride > 0
    requires xs[d].stride % xs[d - 1].stride != 0
    ensures !NestedStrides(xs, ys)
  {
    assert xs[d] in xs && xs[d - 1] in xs;
    if Divides(xs[d].stride, xs[d - 1].stride) {
      DivModUnique(xs[d - 1].stride, 0, xs[d - 1].stride, xs[d].stride);
    }
  }

  lemma NestedPairNested(xs: seq<Axis>, ys: seq<Axis>)
    requires NestedPair(xs, ys)
    ensures NestedStrides(xs, ys)
  {
    forall x | x in xs ensures HasStride(ys, x.stride) {
      var i :| 0 <= i < |xs| && xs[i] == x;
      assert ys[i] in ys;
    }
    forall y | y in ys ensures HasStride(xs, y.stride) {
      var i :| 0 <= i < |ys| && ys[i] == y;
      assert xs[i] in xs;
    }
    forall x, x' | x in xs && x' in xs
      ensures Divides(x.stride, x'.stride) || Divides(x'.stride, x.stride)
    {
      var i :| 0 <= i < |xs| && xs[i] == x;
      var j :| 0 <= j < |xs| && xs[j] == x';
      var lo, hi := if i <= j then i else j, if i <= j then j else i;
      var m := StridesDivide(xs, ys, lo, hi);
      DivModUnique(xs[hi].stride, m, 0, xs[lo].stride);
    }
  }

  // ----- the classifier -----

  /** The carry loop of the classifier. Every int64_t value it computes is in range. */
  method CarryTest(ax: array<Axis>, bx: array<Axis>, na: nat, delta: int) returns (status: OverlapStatus)
    requires na <= ax.Length && na <= bx.Length && NestedPair(ax[..na], bx[..na])
    requires forall i :: 0 <= i < na ==> ax[i].size <= INT64_MAX && bx[i].size <= INT64_MAX
    requires -INT64_MAX <= delta <= INT64_MAX
    ensures status.None? ==> !Meets(ax[..na], bx[..na], delta)
    ensures status.Partial? ==> Meets(ax[..na], bx[..na], delta)
    ensures status.TooHard? <==> CarryOverflows(ax[..na], bx[..na], delta)
    ensures !status.Full?
  {
    ghost var xs, ys := ax[..na], bx[..na];
    TruncExact(delta, ax[0].stride);
    if TruncMod(delta, ax[0].stride) != 0 {
      NothingStarts(xs, ys, delta);
      return None;
    }
    var lo := TruncDiv(delta, ax[0].stride);
    var hi := lo;
    CarryStart(xs, ys, delta, lo);
    var d := 0;
    while d + 1 < na
      invariant d < na && ax[..na] == xs && bx[..na] == ys
      invariant FitsInt64(lo) && FitsInt64(hi)
      invariant lo <= hi && CarryInterval(xs, ys, delta, d, lo, hi) && SafeBelow(xs, ys, delta, d)
      decreases na - d
    {
      assert xs[d] == ax[d] && ys[d] == bx[d] && xs[d + 1] == ax[d + 1];
      var lower := -(bx[d].size as int - 1);
      var upper := ax[d].size as int - 1;
      assert FitsInt64(INT64_MIN + upper) && FitsInt64(INT64_MAX + lower);
      GuardMeaning(xs, ys, delta, d, lo, hi);
      SafeSnoc(xs, ys, delta, d);
      if lo < INT64_MIN + upper || hi > INT64_MAX + lower {
        return TooHard;
      }
      assert FitsInt64(lo - upper) && FitsInt64(hi - lower);
      var period := ax[d + 1].stride / ax[d].stride;
      PeriodExact(xs, ys, d, period);
      CarryStep(xs, ys, delta, d, lo, hi, period);
      DivisionShrinks(lo - upper, period);
      DivisionShrinks(hi - lower, period);
      lo, hi := CeilDiv(lo - upper, period), FloorDiv(hi - lower, period);
      d := d + 1;
      if lo > hi {
        CarryEmpty(xs, ys, delta, d, lo, hi);
        NothingOverflows(xs, ys, delta, d);
        return None;
      }
    }
    CarryEnd(xs, ys, delta, lo, hi);
    SafeSnoc(xs, ys, delta, d);
    var lower := -(bx[d].size as int - 1);
    var upper := ax[d].size as int - 1;
    return if hi >= lower && lo <= upper then Partial else None;
  }

  lemma TruncExact(n: int, d: int)
    requires d > 0
    ensures TruncMod(n, d) == 0 <==> n % d == 0
    ensures n % d == 0 ==> n == Times(d, TruncDiv(n, d)) && (-n <= TruncDiv(n, d) <= n || n <= TruncDiv(n, d) <= -n)
  {
    TruncMeans(n, d);
    var q, r := TruncDiv(n, d), TruncMod(n, d);
    hide *;
    if n >= 0 {
      DivModUnique(n, q, r, d);
      SmallerFactor(q, d);
    } else {
      SmallerFactor(-q, d);
      if r == 0 {
        DivModUnique(n, q, 0, d);
      } else {
        DivModUnique(n, q - 1, d + r, d);
      }
    }
    TimesCommutes(d, q);
  }

  /** Quotient and remainder of truncated division: the remainder has the sign of the dividend. */
  lemma TruncMeans(n: int, d: int)
    requires d > 0
    ensures n == TruncDiv(n, d) * d + TruncMod(n, d)
    ensures n >= 0 ==> TruncDiv(n, d) >= 0 && 0 <= TruncMod(n, d) < d
    ensures n < 0 ==> TruncDiv(n, d) <= 0 && -d < TruncMod(n, d) <= 0
  {
    if n >= 0 {
      QuotientRest(n, d);
    } else {
      QuotientRest(-n, d);
      NegatedProduct((-n) / d, d);
    }
  }

  lemma QuotientRest(m: nat, d: int)
    requires d > 0
    ensures m == m / d * d + m % d && 0 <= m % d < d && m / d >= 0
  {
  }

  lemma NegatedProduct(a: int, d: int)
    ensures -a * d == -(a * d)
  {
  }

  lemma SmallerFactor(q: int, d: int)
    requires q >= 0 && d > 0
    ensures q <= q * d
  {
    MulMono(1, d, q);
  }

  lemma PeriodExact(xs: seq<Axis>, ys: seq<Axis>, d: nat, p: int)
    requires NestedPair(xs, ys) && d + 1 < |xs| && p == xs[d + 1].stride / xs[d].stride
    ensures p > 0 && xs[d + 1].stride == Times(xs[d].stride, p)
  {
    var s, t := xs[d].stride, xs[d + 1].stride;
    assert t % s == 0;
    assert t == t / s * s;
  }

  lemma DivisionShrinks(n: int, p: int)
    requires p > 0 && FitsInt64(n)
    ensures FitsInt64(CeilDiv(n, p)) && FitsInt64(FloorDiv(n, p))
  {
    FloorDivBounds(n, p);
    FloorDivMeaning(n, p, INT64_MIN);
    TimesMono(-INT64_MIN, 1, p);
    CeilDivMeaning(n, p, INT64_MAX);
    TimesMono(INT64_MAX, 1, p);
  }

  /** Extents of the sorted axes are the extents of the layouts. */
  lemma SortedExtent(xs: seq<Axis>, r: StridedRef)
    requires r.Valid() && r.numel > 0 && SortedAxesOf(xs, r.sizes, r.strides)
    ensures AxesExtent(xs) == Extent(r.sizes, r.strides)
    ensures |xs| == 0 ==> Dense(r)
    ensures forall i :: 0 <= i < |xs| ==> 1 < xs[i].size <= INT64_MAX
  {
    NumelPositive(r.sizes);
    AxesNumelIsNumel(r.sizes, r.strides);
    SumsPermutation(xs, AxesOfRef(r), 0);
    AxesNumelPermutation(xs, AxesOfRef(r));
    forall i | 0 <= i < |xs| ensures 1 < xs[i].size <= INT64_MAX {
      assert xs[i] in multiset(AxesOfRef(r));
      AxisSizes(r.sizes, r.strides, INT64_MAX, xs[i]);
    }
  }

  lemma {:induction false} AxisSizes(sizes: seq<nat>, strides: seq<int>, limit: int, a: Axis)
    requires |sizes| == |strides| && a in AxesOf(sizes, strides)
    requires forall d :: 0 <= d < |sizes| ==> sizes[d] <= limit
    ensures 1 < a.size <= limit
  {
    var k := |sizes| - 1;
    if a in AxesOf(sizes[..k], strides[..k]) {
      AxisSizes(sizes[..k], strides[..k], limit, a);
    }
  }

  ghost predicate AxesReady(axes: seq<Axis>) {
    && StrictlyIncreasing(axes)
    && forall i :: 0 <= i < |axes| ==> axes[i].stride > 0 && 1 < axes[i].size <= INT64_MAX
  }

  lemma SortedReady(xs: seq<Axis>, r: StridedRef)
    requires r.Valid() && r.numel > 0 && Proven(r) && SortedAxesOf(xs, r.sizes, r.strides)
    ensures AxesReady(xs) && StepsOver(xs)
    ensures AxesExtent(xs) == Extent(r.sizes, r.strides)
    ensures |xs| == 0 ==> Dense(r)
  {
    WalkMeansSeparated(xs, r.sizes, r.strides);
    StepsOverIncreases(xs);
    SortedExtent(xs, r);
  }

  /** The loop that compares the stride lists. */
  method SameNestedStrides(ax: array<Axis>, bx: array<Axis>, n: nat) returns (same: bool)
    requires n <= ax.Length && n <= bx.Length && n > 0 && AxesReady(ax[..n]) && AxesReady(bx[..n])
    ensures same ==> NestedPair(ax[..n], bx[..n])
    ensures same <==> NestedStrides(ax[..n], bx[..n])
  {
    ghost var xs, ys := ax[..n], bx[..n];
    for d := 0 to n
      invariant ax[..n] == xs && bx[..n] == ys
      invariant forall i :: 0 <= i < d ==> xs[i].stride == ys[i].stride
      invariant forall i :: 0 < i < d ==> xs[i].stride % xs[i - 1].stride == 0
    {
      assert ax[d] == xs[d] && bx[d] == ys[d];
      if ax[d].stride != bx[d].stride {
        MismatchNotNested(xs, ys, d);
        return false;
      }
      if d > 0 && ax[d].stride % ax[d - 1].stride != 0 {
        BrokenChainNotNested(xs, ys, d);
        return false;
      }
    }
    NestedPairNested(xs, ys);
    return true;
  }

  /** What the gcd, nesting and carry tests say about sorted axes, and when they say nothing. */
  ghost predicate AxesVerdict(status: OverlapStatus, xs: seq<Axis>, ys: seq<Axis>, delta: int) {
    && !status.Full?
    && (status.None? ==> DivisorSeparates(xs, ys, delta) || (NestedPair(xs, ys) && !Meets(xs, ys, delta)))
    && (status.Partial? ==> NestedPair(xs, ys) && Meets(xs, ys, delta))
    && (status.TooHard? <==>
          !DivisorSeparates(xs, ys, delta)
          && (!NestedStrides(xs, ys) || (NestedPair(xs, ys) && CarryOverflows(xs, ys, delta))))
  }

  /** The same verdict about the layouts themselves. */
  ghost predicate LatticeVerdict(status: OverlapStatus, a: StridedRef, b: StridedRef, delta: int)
    requires |a.sizes| == |a.strides| && |b.sizes| == |b.strides|
  {
    && !status.Full?
    && (status.None? ==> !SharesOffset(a, b, delta))
    && (status.Partial? ==> SharesOffset(a, b, delta))
    && (status.TooHard? <==> LatticeUndecided(a, b, delta) || GuardTrips(a, b, delta))
  }

  lemma DropLast(xs: seq<Axis>)
    requires |xs| > 0 && StrictlyIncreasing(xs)
    ensures var k := |xs| - 1;
            StrictlyIncreasing(xs[..k]) && multiset(xs[..k]) == multiset(xs) - multiset{xs[k]} && xs == xs[..k] + [xs[k]]
  {
    assert xs == xs[..|xs| - 1] + [xs[|xs| - 1]];
  }

  lemma LastIsLargest(xs: seq<Axis>, ys: seq<Axis>)
    requires multiset(xs) == multiset(ys) && |xs| > 0 && |ys| > 0 && StrictlyIncreasing(ys)
    ensures xs[|xs| - 1].stride < ys[|ys| - 1].stride || xs[|xs| - 1] == ys[|ys| - 1]
  {
    assert xs[|xs| - 1] in multiset(ys);
    var i :| 0 <= i < |ys| && ys[i] == xs[|xs| - 1];
  }

  /** Only one order sorts axes of distinct strides. */
  lemma {:induction false} SortedAxesUnique(xs: seq<Axis>, ys: seq<Axis>)
    requires multiset(xs) == multiset(ys) && StrictlyIncreasing(xs) && StrictlyIncreasing(ys)
    ensures xs == ys
  {
    assert |xs| == |multiset(xs)| == |ys|;
    if |xs| > 0 {
      var k := |xs| - 1;
      LastIsLargest(xs, ys);
      LastIsLargest(ys, xs);
      DropLast(xs);
      DropLast(ys);
      hide *;
      SortedAxesUnique(xs[..k], ys[..k]);
    }
  }

  lemma GuardOnSorted(a: StridedRef, b: StridedRef, delta: int, xs: seq<Axis>, ys: seq<Axis>)
    requires SortedPair(a, b, delta, xs, ys)
    ensures (exists us, vs :: TripsOn(a, b, delta, us, vs)) <==> NestedPair(xs, ys) && CarryOverflows(xs, ys, delta)
  {
    hide NestedPair, CarryOverflows, StepsOver;
    if us, vs :| TripsOn(a, b, delta, us, vs) {
      SortedOnce(us, xs, a.sizes, a.strides);
      SortedOnce(vs, ys, b.sizes, b.strides);
    }
    if NestedPair(xs, ys) && CarryOverflows(xs, ys, delta) {
      assert TripsOn(a, b, delta, xs, ys);
    }
  }

  lemma SortedOnce(us: seq<Axis>, xs: seq<Axis>, sizes: seq<nat>, strides: seq<int>)
    requires |sizes| == |strides|
    requires SortedAxesOf(us, sizes, strides) && SortedAxesOf(xs, sizes, strides) && StepsOver(xs)
    ensures us == xs
  {
    WalkMeansSeparated(xs, sizes, strides);
    WalkMeansSeparated(us, sizes, strides);
    hide *;
    SortedSame(us, xs, sizes, strides);
    StepsOverStrict(us);
    StepsOverStrict(xs);
    SortedAxesUnique(us, xs);
  }

  lemma SortedSame(us: seq<Axis>, xs: seq<Axis>, sizes: seq<nat>, strides: seq<int>)
    requires |sizes| == |strides| && SortedAxesOf(us, sizes, strides) && SortedAxesOf(xs, sizes, strides)
    ensures multiset(us) == multiset(xs)
  {
  }

  lemma StepsOverStrict(axes: seq<Axis>)
    requires StepsOver(axes)
    ensures StrictlyIncreasing(axes)
  {
    StepsOverIncreases(axes);
  }

  lemma VerdictOnLayouts(status: OverlapStatus, a: StridedRef, b: StridedRef, delta: int, xs: seq<Axis>, ys: seq<Axis>)
    requires SortedPair(a, b, delta, xs, ys) && AxesVerdict(status, xs, ys, delta)
    requires AxesExtent(xs) == Extent(a.sizes, a.strides) && AxesExtent(ys) == Extent(b.sizes, b.strides)
    ensures LatticeVerdict(status, a, b, delta)
  {
    SeparatesPermutation(xs, ys, AxesOfRef(a), AxesOfRef(b), delta);
    NestedPermutation(xs, ys, AxesOfRef(a), AxesOfRef(b));
    GuardOnSorted(a, b, delta, xs, ys);
    if NestedPair(xs, ys) {
      NestedPairNested(xs, ys);
    }
    if DivisorSeparates(xs, ys, delta) {
      DivisorSeparatesSharing(a, b, delta);
    }
    if NestedPair(xs, ys) {
      SharesIffMeets(a, b, delta, xs, ys);
    }
  }

  /** The remainder by the gcd decides whether a divisor separates the layouts. */
  lemma GcdDecides(g: nat, xs: seq<Axis>, ys: seq<Axis>, delta: int)
    requires IsGcdOf(g, xs + ys) && |xs| + |ys| > 0
    ensures g > 0 && (TruncMod(delta, g) != 0 <==> DivisorSeparates(xs, ys, delta))
  {
    assert g > 0;
    hide *;
    GcdTest(g, xs, ys, delta);
    TruncExact(delta, g);
  }

  lemma ReadyEntries(axes: array<Axis>, n: nat)
    requires n <= axes.Length && AxesReady(axes[..n])
    ensures forall i :: 0 <= i < n ==> axes[i].stride > 0 && axes[i].size <= INT64_MAX
  {
    assert forall i :: 0 <= i < n ==> axes[i] == axes[..n][i];
  }

  lemma NoAxesGcd()
    ensures IsGcdOf(0, [])
  {
  }

  /** The verdicts of the gcd test and of the comparison of strides. */
  lemma EarlyVerdict(xs: seq<Axis>, ys: seq<Axis>, delta: int)
    ensures DivisorSeparates(xs, ys, delta) ==> AxesVerdict(None, xs, ys, delta)
    ensures !DivisorSeparates(xs, ys, delta) && !NestedStrides(xs, ys) ==> AxesVerdict(TooHard, xs, ys, delta)
    ensures NestedStrides(xs, ys) ==> |xs| == |ys| > 0
  {
    hide DivisorSeparates, NestedPair, CarryOverflows;
  }

  /** The verdict of the carry loop. */
  lemma CarryVerdict(status: OverlapStatus, xs: seq<Axis>, ys: seq<Axis>, delta: int)
    requires NestedPair(xs, ys) && |xs| == |ys| && !DivisorSeparates(xs, ys, delta) && !status.Full?
    requires status.None? ==> !Meets(xs, ys, delta)
    requires status.Partial? ==> Meets(xs, ys, delta)
    requires status.TooHard? <==> CarryOverflows(xs, ys, delta)
    ensures AxesVerdict(status, xs, ys, delta)
  {
    NestedPairNested(xs, ys);
    hide NestedPair, DivisorSeparates, CarryOverflows, Meets, NestedStrides;
  }

  /** The gcd, nesting and carry tests, on axes already sorted. */
  method ClassifyAxes(ax: array<Axis>, bx: array<Axis>, na: nat, nb: nat, delta: int) returns (status: OverlapStatus)
    requires na <= ax.Length && nb <= bx.Length && AxesReady(ax[..na]) && AxesReady(bx[..nb]) && na + nb > 0
    requires -INT64_MAX <= delta <= INT64_MAX
    ensures AxesVerdict(status, ax[..na], bx[..nb], delta)
  {
    hide *;
    ghost var xs, ys := ax[..na], bx[..nb];
    ReadyEntries(ax, na);
    ReadyEntries(bx, nb);
    NoAxesGcd();
    EarlyVerdict(xs, ys, delta);
    var gcd := FoldGcd(ax, na, 0, []);
    assert [] + xs == xs;
    gcd := FoldGcd(bx, nb, gcd, xs);
    GcdDecides(gcd, xs, ys, delta);
    if gcd != 0 && TruncMod(delta, gcd) != 0 {
      return None;
    }
    if na != nb || na == 0 {
      return TooHard;
    }
    var same := SameNestedStrides(ax, bx, na);
    if !same {
      return TooHard;
    }
    status := CarryTest(ax, bx, na, delta);
    CarryVerdict(status, xs, ys, delta);
  }

  lemma GridLengths(a: StridedRef, b: StridedRef, delta: int)
    requires OnGrid(a, b, delta)
    ensures |a.sizes| == |a.strides| && |b.sizes| == |b.strides|
  {
  }

  lemma AxesFit(r: StridedRef)
    requires |r.sizes| == |r.strides|
    ensures |AxesOf(r.sizes, r.strides)| <= |r.sizes|
  {
  }

  /** Two collected and sorted layouts, not both dense, are ready for the tests. */
  lemma PairReady(a: StridedRef, b: StridedRef, delta: int, xs: seq<Axis>, ys: seq<Axis>)
    requires OnGrid(a, b, delta) && a.numel > 0 && b.numel > 0
    requires |a.sizes| == |a.strides| && |b.sizes| == |b.strides| && Proven(a) && Proven(b) && !(Dense(a) && Dense(b))
    requires multiset(xs) == multiset(AxesOf(a.sizes, a.strides)) && Sorted(xs)
    requires multiset(ys) == multiset(AxesOf(b.sizes, b.strides)) && Sorted(ys)
    ensures SortedPair(a, b, delta, xs, ys) && AxesReady(xs) && AxesReady(ys) && |xs| + |ys| > 0
    ensures AxesExtent(xs) == Extent(a.sizes, a.strides) && AxesExtent(ys) == Extent(b.sizes, b.strides)
  {
    hide StridedRef.Valid, Proven, Dense, AxesReady, AxesOf, Sorted, StepsOver, AxesExtent, Extent;
    SortedReady(xs, a);
    SortedReady(ys, b);
  }

  /** The tests on two proven injective layouts that lie `delta` elements apart on one grid. */
  method ClassifyLattice(a: StridedRef, b: StridedRef, delta: int) returns (status: OverlapStatus)
    requires OnGrid(a, b, delta) && a.numel > 0 && b.numel > 0 && Proven(a) && Proven(b)
    requires !(Dense(a) && Dense(b)) && -INT64_MAX <= delta <= INT64_MAX
    ensures LatticeVerdict(status, a, b, delta)
  {
    hide *;
    GridLengths(a, b, delta);
    var ax := new Axis[|a.sizes|](_ => Axis(0, 0));
    var bx := new Axis[|b.sizes|](_ => Axis(0, 0));
    var na := OverlapAxes(a, ax);
    AxesFit(a);
    AxesFit(b);
    var nb := OverlapAxes(b, bx);
    PairReady(a, b, delta, ax[..na], bx[..nb]);
    status := ClassifyAxes(ax, bx, na, nb, delta);
    VerdictOnLayouts(status, a, b, delta, ax[..na], bx[..nb]);
  }

  // ----- ranges, mappings and dense spans -----

  /** The extent sum of the source; every partial sum fits int64_t. */
  method OverlapExtent(ref: StridedRef) returns (extent: int)
    requires ref.Valid() && ref.numel > 0
    ensures extent == Extent(ref.sizes, ref.strides) && 0 <= extent <= INT64_MAX
  {
    NumelPositive(ref.sizes);
    extent := 0;
    for d := 0 to |ref.sizes|
      invariant extent == Extent(ref.sizes[..d], ref.strides[..d])
      invariant 0 <= extent <= INT64_MAX
    {
      assert ref.sizes[..d + 1][..d] == ref.sizes[..d] && ref.strides[..d + 1][..d] == ref.strides[..d];
      ExtentPrefix(ref.sizes, ref.strides, d + 1);
      extent := extent + Times(ref.strides[d], ref.sizes[d] as int - 1);
    }
    assert ref.sizes[..|ref.sizes|] == ref.sizes && ref.strides[..|ref.sizes|] == ref.strides;
  }

  lemma {:induction false} ExtentPrefix(sizes: seq<nat>, strides: seq<int>, d: nat)
    requires d <= |sizes| == |strides| && Positive(sizes) && NonNegative(strides)
    ensures 0 <= Extent(sizes[..d], strides[..d]) <= Extent(sizes, strides)
    decreases |sizes|
  {
    hide Times;
    if |sizes| > 0 {
      var k := |sizes| - 1;
      TimesNonNegative(strides[k], sizes[k] as int - 1);
      if d == |sizes| {
        assert sizes[..d] == sizes && strides[..d] == strides;
        ExtentPrefix(sizes[..k], strides[..k], k);
        assert sizes[..k][..k] == sizes[..k] && strides[..k][..k] == strides[..k];
      } else {
        ExtentPrefix(sizes[..k], strides[..k], d);
        assert sizes[..k][..d] == sizes[..d] && strides[..k][..d] == strides[..d];
      }
    }
  }

  /** A dense layout touches every byte of its range. */
  lemma DenseTouches(r: StridedRef, x: int)
    requires r.Valid() && r.numel > 0 && r.address != 0 && Proven(r) && Dense(r)
    requires r.address <= x < r.EndAddress()
    ensures r.TouchesByte(x)
  {
    NumelPositive(r.sizes);
    var w, off := r.elem.bytes, (x - r.address) / r.elem.bytes;
    DivBound(x - r.address, Extent(r.sizes, r.strides) + 1, w);
    var c := DenseReachesAll(r.sizes, r.strides, off);
    assert x - r.address == off * w + (x - r.address) % w;
    TouchIntro(r, c, x);
  }

  /** Dense layouts whose ranges meet share a byte, even when their elements are misaligned. */
  lemma DenseRangesShare(a: StridedRef, b: StridedRef)
    requires a.Valid() && b.Valid() && RangesMeet(a, b)
    requires Proven(a) && Dense(a) && Proven(b) && Dense(b)
    ensures SharesByte(a, b)
  {
    var x := if a.address <= b.address then b.address else a.address;
    assert a.EndAddress() > a.address && b.EndAddress() > b.address by {
      AddressGrows(a);
      AddressGrows(b);
    }
    DenseTouches(a, x);
    DenseTouches(b, x);
  }

  lemma AddressGrows(r: StridedRef)
    requires r.Valid() && r.numel > 0
    ensures Extent(r.sizes, r.strides) >= 0 && r.EndAddress() > r.address
  {
    NumelPositive(r.sizes);
    ExtentReached(r.sizes, r.strides);
    var c := seq(|r.sizes|, d requires 0 <= d < |r.sizes| => r.sizes[d] - 1);
    DotWithinExtent(r.sizes, r.strides, c);
    MulMono(1, Extent(r.sizes, r.strides) + 1, r.elem.bytes);
  }

  const HALF_SPACE: int := 0x8000_0000_0000_0000

  /** Elements of two bytes or more, or both operands in the lower half of the address space. */
  ghost predicate Roomy(a: StridedRef, b: StridedRef)
    requires |a.sizes| == |a.strides| && |b.sizes| == |b.strides|
  {
    a.elem.bytes >= 2 || (a.EndAddress() <= HALF_SPACE && b.EndAddress() <= HALF_SPACE)
  }

  /** Ranges that meet are no further apart than the extents, and fit the address space together. */
  lemma MeetingDistance(a: StridedRef, b: StridedRef, delta: int)
    requires a.Valid() && b.Valid() && RangesMeet(a, b) && OnGrid(a, b, delta)
    ensures -INT64_MAX <= delta <= INT64_MAX
    ensures Roomy(a, b) ==>
              delta - Extent(a.sizes, a.strides) >= -INT64_MAX && delta + Extent(b.sizes, b.strides) <= INT64_MAX
  {
    var w, ea, eb := a.elem.bytes, Extent(a.sizes, a.strides), Extent(b.sizes, b.strides);
    AddressGrows(a);
    AddressGrows(b);
    DistanceBound(w, delta, ea, a.address, b.address);
    DistanceBound(w, -delta, eb, b.address, a.address);
    if Roomy(a, b) {
      SpanBound(w, delta, eb, a.address, b.address);
      SpanBound(w, -delta, ea, b.address, a.address);
    }
  }

  lemma DistanceBound(w: int, delta: int, extent: int, p: int, q: int)
    requires w > 0 && q - p == delta * w && p + (extent + 1) * w > q
    ensures delta <= extent
  {
    if delta >= extent + 1 { MulMono(extent + 1, delta, w); }
  }

  lemma SpanBound(w: int, delta: int, extent: int, p: int, q: int)
    requires w >= 1 && q - p == delta * w && p >= 0
    requires q + (extent + 1) * w <= if w >= 2 then UINT64_LIMIT else HALF_SPACE
    ensures delta + extent <= INT64_MAX
  {
    var n := delta + extent + 1;
    assert n * w == delta * w + (extent + 1) * w;
    if n > 0 && w >= 2 { MulMono(2, w, n); }
  }

  lemma DeclinedMeans(a: StridedRef, b: StridedRef)
    requires a.Valid() && b.Valid()
    ensures Declined(a, b) <==> Undecided(a, b) || GuardFires(a, b)
  {
  }

  /** The sorted axes on which the guard fires. */
  lemma FiringAxes(a: StridedRef, b: StridedRef) returns (delta: int, xs: seq<Axis>, ys: seq<Axis>)
    requires a.Valid() && b.Valid() && GuardFires(a, b)
    ensures RangesMeet(a, b) && OnGrid(a, b, delta) && a.numel > 0 && b.numel > 0 && Proven(a) && Proven(b)
    ensures SortedAxesOf(xs, a.sizes, a.strides) && SortedAxesOf(ys, b.sizes, b.strides)
    ensures NestedPair(xs, ys) && CarryOverflows(xs, ys, delta)
  {
    hide SortedAxesOf, NestedPair, CarryOverflows, Proven, Dense, DivisorSeparates;
    delta := (b.address - a.address) / a.elem.bytes;
    xs, ys :| TripsOn(a, b, delta, xs, ys);
  }

  /** With room to spare the guard never fires, and the classifier declines the undecided layouts alone. */
  lemma RoomyNeverFires(a: StridedRef, b: StridedRef)
    requires a.Valid() && b.Valid()
    requires a.elem.bytes >= 2 || (a.EndAddress() <= 0x8000_0000_0000_0000 && b.EndAddress() <= 0x8000_0000_0000_0000)
    ensures !GuardFires(a, b)
    ensures Declined(a, b) <==> Undecided(a, b)
  {
    assert Roomy(a, b);
    hide *;
    DeclinedMeans(a, b);
    if GuardFires(a, b) {
      var delta, xs, ys := FiringAxes(a, b);
      MeetingDistance(a, b, delta);
      SortedReady(xs, a);
      SortedReady(ys, b);
      RoomyNeverOverflows(xs, ys, delta);
    }
  }

  /**
   * The classifier. Its answers are exact: `None` and `Partial` decide whether a byte is shared,
   * `Full` is returned precisely for one and the same injective mapping, and `TooHard` precisely for
   * the undecided layouts and for those whose carries leave int64_t.
   */
  method ClassifyOverlap(a: StridedRef, b: StridedRef) returns (status: OverlapStatus)
    requires a.Valid() && b.Valid()
    ensures status.None? ==> !SharesByte(a, b)
    ensures status.Partial? ==> SharesByte(a, b)
    ensures status.Full? <==> RangesMeet(a, b) && a.elem == b.elem && SameMapping(a, b) && Proven(a)
    ensures status.TooHard? <==> Declined(a, b)
  {
    if a.numel == 0 || b.numel == 0 || a.address == 0 || b.address == 0
       || a.device != b.device || a.deviceIndex != b.deviceIndex {
      forall x ensures (a.numel == 0 || a.address == 0 ==> !a.TouchesByte(x))
                    && (b.numel == 0 || b.address == 0 ==> !b.TouchesByte(x)) {
        if a.numel == 0 || a.address == 0 { EmptyTouchesNothing(a, x); }
        if b.numel == 0 || b.address == 0 { EmptyTouchesNothing(b, x); }
      }
      return None;
    }
    var extentA := OverlapExtent(a);
    var extentB := OverlapExtent(b);
    var endA := a.address + (extentA + 1) * a.elem.bytes;
    var endB := b.address + (extentB + 1) * b.elem.bytes;
    if endA <= b.address || endB <= a.address {
      DisjointRanges(a, b);
      return None;
    }
    if a.elem != b.elem {
      return TooHard;
    }
    status := ClassifySameElement(a, b, extentA, extentB);
  }

  /** The loop that compares two descriptors dimension by dimension. */
  method SameLayout(a: StridedRef, b: StridedRef) returns (same: bool)
    requires |a.sizes| == |a.strides| && |b.sizes| == |b.strides|
    ensures same <==> SameMapping(a, b)
  {
    same := a.address == b.address && |a.sizes| == |b.sizes|;
    var d := 0;
    while same && d < |a.sizes|
      invariant d <= |a.sizes|
      invariant same ==> a.address == b.address && |a.sizes| == |b.sizes|
      invariant same ==> a.sizes[..d] == b.sizes[..d] && a.strides[..d] == b.strides[..d]
      invariant !same ==> !SameMapping(a, b)
    {
      same := a.sizes[d] == b.sizes[d] && a.strides[d] == b.strides[d];
      d := d + 1;
    }
  }

  /** What the injectivity test answers on two operands that have elements. */
  lemma TestsProve(a: StridedRef, b: StridedRef)
    requires a.Valid() && b.Valid() && RangesMeet(a, b)
    ensures Proven(a) <==> a.numel == 0 || Separated(AxesOf(a.sizes, a.strides))
    ensures Proven(b) <==> b.numel == 0 || Separated(AxesOf(b.sizes, b.strides))
  {
    hide Separated;
  }

  lemma DeclinedByStage(a: StridedRef, b: StridedRef)
    requires a.Valid() && b.Valid() && RangesMeet(a, b) && a.elem == b.elem
    ensures var w := a.elem.bytes;
            Declined(a, b) <==>
              && !(SameMapping(a, b) && Proven(a))
              && (|| !Proven(a) || !Proven(b)
                  || (&& !(Dense(a) && Dense(b))
                      && (|| (b.address - a.address) % w != 0
                          || LatticeUndecided(a, b, (b.address - a.address) / w)
                          || GuardTrips(a, b, (b.address - a.address) / w))))
  {
    hide Proven, Dense, LatticeUndecided, GuardTrips, RangesMeet, SameMapping;
  }

  /** The part of the classifier after the element types have been found equal. */
  method ClassifySameElement(a: StridedRef, b: StridedRef, extentA: int, extentB: int) returns (status: OverlapStatus)
    requires a.Valid() && b.Valid() && RangesMeet(a, b) && a.elem == b.elem
    requires extentA == Extent(a.sizes, a.strides) && extentB == Extent(b.sizes, b.strides)
    ensures status.None? ==> !SharesByte(a, b)
    ensures status.Partial? ==> SharesByte(a, b)
    ensures status.Full? <==> SameMapping(a, b) && Proven(a)
    ensures status.TooHard? <==> Declined(a, b)
  {
    hide Proven, LatticeUndecided, GuardTrips, RangesMeet, SameMapping, Declined, SharesByte, Separated;
    DeclinedByStage(a, b);
    var same := SameLayout(a, b);
    var provenA := IsNonOverlapping(a);
    TestsProve(a, b);
    if same && provenA {
      return Full;
    }
    var provenB := IsNonOverlapping(b);
    if !provenA || !provenB {
      return TooHard;
    }
    if extentA + 1 == a.numel && extentB + 1 == b.numel {
      DenseRangesShare(a, b);
      return Partial;
    }
    status := ClassifyDistance(a, b);
  }

  /** The part of the classifier that needs the distance to be a whole number of elements. */
  method ClassifyDistance(a: StridedRef, b: StridedRef) returns (status: OverlapStatus)
    requires a.Valid() && b.Valid() && RangesMeet(a, b) && a.elem == b.elem
    requires Proven(a) && Proven(b) && !(Dense(a) && Dense(b))
    ensures status.None? ==> !SharesByte(a, b)
    ensures status.Partial? ==> SharesByte(a, b)
    ensures !status.Full?
    ensures var w := a.elem.bytes;
            var delta := (b.address - a.address) / w;
            status.TooHard? <==>
              (b.address - a.address) % w != 0 || LatticeUndecided(a, b, delta) || GuardTrips(a, b, delta)
  {
    var distance := if a.address <= b.address then b.address - a.address else a.address - b.address;
    NegatedMod(distance, a.elem.bytes);
    if distance % a.elem.bytes != 0 {
      return TooHard;
    }
    var delta := if a.address <= b.address then distance / a.elem.bytes else -(distance / a.elem.bytes);
    assert OnGrid(a, b, delta);
    MeetingDistance(a, b, delta);
    assert distance / a.elem.bytes <= INT64_MAX;
    status := ClassifyLattice(a, b, delta);
    AlignedSharing(a, b, delta);
  }

  lemma NegatedMod(x: int, d: int)
    requires d > 0
    ensures x % d == 0 <==> (-x) % d == 0
    ensures x % d == 0 ==> (-x) / d == -(x / d) && x == x / d * d
  {
    if x % d == 0 {
      DivModUnique(-x, -(x / d), 0, d);
    }
    if (-x) % d == 0 {
      DivModUnique(x, -((-x) / d), 0, d);
    }
  }

  // ----- an input at which the guard hides an answer -----

  const TWO_61: nat := 0x2000_0000_0000_0000

  /** The higher operand: two rows of 2^61 - 1 bytes, 2^61 bytes apart, from the middle of the address space. */
  function UpperBytes(): StridedRef {
    StridedRef(Elem(0, 1), HALF_SPACE, CPU, 0, [2, TWO_61 - 1], [TWO_61, 1], 2 * TWO_61 - 2, false)
  }

  /** The lower operand: every byte from the first address to the middle of the address space. */
  function LowerBytes(): StridedRef {
    StridedRef(Elem(0, 1), 1, CPU, 0, [4, TWO_61], [TWO_61, 1], 4 * TWO_61, true)
  }

  lemma PairSteps(m: nat, n: nat, s: nat)
    requires m > 1 && n > 1 && s >= n
    ensures StepsOver([Axis(n, 1), Axis(m, s)])
  {
    var one, two := [Axis(n, 1)], [Axis(n, 1), Axis(m, s)];
    assert two[..1] == one && one[..0] == [];
    TimesOne(n - 1);
    assert StepsOver(one) && AxesExtent(one) == Reach(Axis(n, 1)) == n - 1;
    hide Times;
  }

  lemma PairSorted(sorted: seq<Axis>, sizes: seq<nat>, strides: seq<int>)
    requires |sizes| == |strides| && |sorted| == 2 && sorted[0].stride <= sorted[1].stride
    requires AxesOf(sizes, strides) == [sorted[1], sorted[0]]
    ensures SortedAxesOf(sorted, sizes, strides)
    ensures multiset(sorted) == multiset(AxesOf(sizes, strides)) && Sorted(sorted)
  {
    hide AxesOf;
    var axes, first, second := AxesOf(sizes, strides), [sorted[0]], [sorted[1]];
    assert sorted == first + second && axes == second + first;
    assert multiset(sorted) == multiset(first) + multiset(second) == multiset(axes);
  }

  lemma ProvenIntro(r: StridedRef)
    requires |r.sizes| == |r.strides| && Separated(AxesOf(r.sizes, r.strides))
    ensures Proven(r)
  {
  }

  /** Two rows of which the outer steps over the inner. */
  lemma PairProven(r: StridedRef, m: nat, n: nat, s: nat)
    requires r.sizes == [m, n] && r.strides == [s, 1] && m > 1 && n > 1 && s >= n
    ensures SortedAxesOf([Axis(n, 1), Axis(m, s)], r.sizes, r.strides) && Proven(r)
  {
    var sorted := [Axis(n, 1), Axis(m, s)];
    AxesPair(m, n, s, 1);
    PairSteps(m, n, s);
    PairSorted(sorted, r.sizes, r.strides);
    hide *;
    WalkMeansSeparated(sorted, r.sizes, r.strides);
    ProvenIntro(r);
  }

  lemma AxesPair(m: nat, n: nat, s: int, t: int)
    requires m > 1 && n > 1
    ensures AxesOf([m, n], [s, t]) == [Axis(m, s), Axis(n, t)]
  {
    var one: seq<nat>, two: seq<nat>, ones: seq<int>, twos: seq<int> := [m], [m, n], [s], [s, t];
    assert two[..1] == one && twos[..1] == ones && one[..0] == [] && ones[..0] == [];
    assert AxesOf(one, ones) == AxesOf(one[..0], ones[..0]) + [Axis(m, s)];
  }

  lemma UnitStrideNeverSeparates(xs: seq<Axis>, ys: seq<Axis>, delta: int)
    requires exists x :: x in xs && x.stride == 1
    ensures !DivisorSeparates(xs, ys, delta)
  {
    var x :| x in xs && x.stride == 1;
    var i :| 0 <= i < |xs| && xs[i] == x;
    forall g | g > 0 && DividesAxes(g, xs) ensures Divides(g, delta) {
      assert Divides(g, xs[i].stride);
      if g > 1 {
        DivModUnique(1, 0, 1, g);
      }
    }
  }

  /** The first carry already leaves int64_t. */
  lemma FirstCarryOverflows(xs: seq<Axis>, ys: seq<Axis>, delta: int)
    requires xs == [Axis(TWO_61 - 1, 1), Axis(2, TWO_61)] && ys == [Axis(TWO_61, 1), Axis(4, TWO_61)]
    requires delta == 1 - HALF_SPACE
    ensures NestedPair(xs, ys) && CarryOverflows(xs, ys, delta)
  {
    assert NestedPair(xs, ys) by {
      DivModUnique(TWO_61, TWO_61, 0, 1);
    }
    TimesOne(delta);
    CarryStart(xs, ys, delta, delta);
    assert CarryReachable(xs, ys, delta, 0, delta);
    assert OverflowAt(xs, ys, delta, 0);
    hide NestedPair, CarryReachable;
  }

  lemma UpperLowerTrip(a: StridedRef, b: StridedRef, delta: int)
    requires a == UpperBytes() && b == LowerBytes() && delta == 1 - HALF_SPACE
    ensures Proven(a) && Proven(b) && GuardTrips(a, b, delta) && NestedStrides(AxesOfRef(a), AxesOfRef(b))
  {
    hide Proven, GuardTrips, NestedStrides, NestedPair, CarryOverflows, DivisorSeparates, SortedAxesOf, AxesOfRef;
    hide UpperBytes, LowerBytes;
    var xs, ys := [Axis(TWO_61 - 1, 1), Axis(2, TWO_61)], [Axis(TWO_61, 1), Axis(4, TWO_61)];
    UpperLowerShapes(a, b);
    PairProven(a, 2, TWO_61 - 1, TWO_61);
    PairProven(b, 4, TWO_61, TWO_61);
    FirstCarryOverflows(xs, ys, delta);
    UnitStrideNeverSeparates(AxesOfRef(a), AxesOfRef(b), delta);
    NestedPairNested(xs, ys);
    TripIntro(a, b, delta, xs, ys);
  }

  lemma TripIntro(a: StridedRef, b: StridedRef, delta: int, xs: seq<Axis>, ys: seq<Axis>)
    requires |a.sizes| == |a.strides| && |b.sizes| == |b.strides|
    requires SortedAxesOf(xs, a.sizes, a.strides) && SortedAxesOf(ys, b.sizes, b.strides)
    requires NestedPair(xs, ys) && CarryOverflows(xs, ys, delta) && !DivisorSeparates(AxesOfRef(a), AxesOfRef(b), delta)
    requires NestedStrides(xs, ys)
    ensures GuardTrips(a, b, delta) && NestedStrides(AxesOfRef(a), AxesOfRef(b))
  {
    hide NestedPair, CarryOverflows, DivisorSeparates, NestedStrides;
    assert TripsOn(a, b, delta, xs, ys);
    NestedPermutation(xs, ys, AxesOfRef(a), AxesOfRef(b));
  }

  lemma UpperLowerShapes(a: StridedRef, b: StridedRef)
    requires a == UpperBytes() && b == LowerBytes()
    ensures a.sizes == [2, TWO_61 - 1] && a.strides == [TWO_61, 1] && b.sizes == [4, TWO_61] && b.strides == [TWO_61, 1]
    ensures exists x :: x in AxesOfRef(a) && x.stride == 1
  {
    AxesPair(2, TWO_61 - 1, TWO_61, 1);
    assert Axis(TWO_61 - 1, 1) in AxesOfRef(a);
  }

  /**
   * Two one-byte operands that share a byte, in layouts every test can handle. The carry loop would
   * find the byte, but its first carry is within an extent of the end of int64_t and the guard fires.
   */
  lemma GuardHidesSharing()
    ensures var a, b := UpperBytes(), LowerBytes();
            a.Valid() && b.Valid() && SharesByte(a, b) && !Undecided(a, b) && GuardFires(a, b)
  {
    var a, b, delta := UpperBytes(), LowerBytes(), 1 - HALF_SPACE;
    UpperLowerValid();
    UpperLowerTrip(a, b, delta);
    DivModUnique(delta, delta, 0, 1);
    hide Proven, GuardTrips, DivisorSeparates, NestedStrides, Dense, RangesMeet, SharesByte;
  }

  lemma UpperLowerValid()
    ensures var a, b := UpperBytes(), LowerBytes();
            a.Valid() && b.Valid() && RangesMeet(a, b) && !Dense(a) && SharesByte(a, b)
  {
    var a, b := UpperBytes(), LowerBytes();
    NumelPair(2, TWO_61 - 1);
    NumelPair(4, TWO_61);
    ExtentPair(2, TWO_61 - 1, TWO_61, 1);
    ExtentPair(4, TWO_61, TWO_61, 1);
    DotPair(TWO_61, 1, 0, 0);
    DotPair(TWO_61, 1, 3, TWO_61 - 1);
    TouchIntro(a, [0, 0], HALF_SPACE);
    TouchIntro(b, [3, TWO_61 - 1], HALF_SPACE);
    hide Numel, Extent, Dot;
  }
}
