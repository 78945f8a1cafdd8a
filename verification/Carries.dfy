/**
 * The signed carry intervals by which two layouts with the same, nested strides are compared.
 * An axis pair contributes a difference of indices `k` between `-(size of b - 1)` and `size of a - 1`;
 * the layouts meet when some choice of differences sums to the distance between them.
 */
module Carries {
  import opened Arith
  import opened Layout
  import opened Axes
  import opened Lattice

  /** C++ `n / d - (n % d < 0 ? 1 : 0)`. */
  function FloorDiv(n: int, d: int): int
    requires d > 0
  {
    TruncDiv(n, d) - (if TruncMod(n, d) < 0 then 1 else 0)
  }

  /** C++ `n / d + (n % d > 0 ? 1 : 0)`. */
  function CeilDiv(n: int, d: int): int
    requires d > 0
  {
    TruncDiv(n, d) + (if TruncMod(n, d) > 0 then 1 else 0)
  }

  lemma FloorDivMeaning(n: int, d: int, c: int)
    requires d > 0
    ensures Times(d, c) <= n <==> c <= FloorDiv(n, d)
  {
    var q := FloorDiv(n, d);
    FloorDivBounds(n, d);
    if c <= q {
      TimesMono(d, c, q);
    } else {
      TimesMono(d, q + 1, c);
    }
  }

  lemma FloorDivBounds(n: int, d: int)
    requires d > 0
    ensures d * FloorDiv(n, d) <= n < d * (FloorDiv(n, d) + 1)
  {
    if n >= 0 {
      assert n == n / d * d + n % d;
    } else {
      assert -n == (-n) / d * d + (-n) % d;
    }
  }

  lemma CeilDivMeaning(n: int, d: int, c: int)
    requires d > 0
    ensures Times(d, c) >= n <==> c >= CeilDiv(n, d)
  {
    CeilIsNegatedFloor(n, d);
    FloorDivMeaning(-n, d, -c);
    TimesAdd(d, c, 0);
  }

  lemma CeilIsNegatedFloor(n: int, d: int)
    requires d > 0
    ensures CeilDiv(n, d) == -FloorDiv(-n, d)
  {
  }

  /** The two axis lists have the same strides, each a multiple of the one before. */
  ghost predicate NestedPair(xs: seq<Axis>, ys: seq<Axis>) {
    && |xs| == |ys| > 0
    && (forall i :: 0 <= i < |xs| ==> xs[i].stride == ys[i].stride > 0 && xs[i].size > 1 && ys[i].size > 1)
    && (forall i :: 0 < i < |xs| ==> xs[i].stride % xs[i - 1].stride == 0)
  }

  ghost predicate Band(xs: seq<Axis>, ys: seq<Axis>, k: seq<int>) {
    |k| <= |xs| == |ys| && forall i :: 0 <= i < |k| ==> -(ys[i].size as int - 1) <= k[i] <= xs[i].size as int - 1
  }

  /** Index differences on the first `d` axes that leave `c` units of axis `d` to make up `delta`. */
  ghost predicate Leaves(xs: seq<Axis>, ys: seq<Axis>, delta: int, d: nat, c: int, k: seq<int>)
    requires d < |xs| == |ys|
  {
    |k| == d && Band(xs, ys, k) && AxisDot(xs[..d], k) + Times(xs[d].stride, c) == delta
  }

  ghost predicate CarryReachable(xs: seq<Axis>, ys: seq<Axis>, delta: int, d: nat, c: int)
    requires d < |xs| == |ys|
  {
    exists k :: Leaves(xs, ys, delta, d, c, k)
  }

  /** `[lo, hi]` is precisely the set of carries that can reach axis `d`. */
  ghost predicate CarryInterval(xs: seq<Axis>, ys: seq<Axis>, delta: int, d: nat, lo: int, hi: int)
    requires d < |xs| == |ys|
  {
    forall c :: CarryReachable(xs, ys, delta, d, c) <==> lo <= c <= hi
  }

  /** Some differences on all axes sum to `delta`. */
  ghost predicate Meets(xs: seq<Axis>, ys: seq<Axis>, delta: int)
    requires |xs| == |ys|
  {
    exists k :: |k| == |xs| && Band(xs, ys, k) && AxisDot(xs, k) == delta
  }

  lemma CarryStart(xs: seq<Axis>, ys: seq<Axis>, delta: int, q: int)
    requires NestedPair(xs, ys) && delta == Times(xs[0].stride, q)
    ensures CarryInterval(xs, ys, delta, 0, q, q)
  {
    assert xs[..0] == [];
    forall c ensures CarryReachable(xs, ys, delta, 0, c) <==> q <= c <= q {
      if CarryReachable(xs, ys, delta, 0, c) {
        SameProduct(xs[0].stride, c, q);
      }
      if c == q {
        assert Leaves(xs, ys, delta, 0, c, []);
      }
    }
  }

  lemma SameProduct(s: int, x: int, y: int)
    requires s > 0 && Times(s, x) == Times(s, y)
    ensures x == y
  {
    if x < y { TimesMono(s, x + 1, y); }
    if y < x { TimesMono(s, y + 1, x); }
  }

  /** One unit of axis `d + 1` is `p` units of axis `d`. */
  lemma UnitsNest(s: int, p: int, c: int, k: int)
    ensures Times(s, Times(p, c) + k) == Times(Times(s, p), c) + Times(s, k)
  {
    calc {
      Times(s, Times(p, c) + k);
      s * (p * c + k);
      s * (p * c) + s * k;
      s * p * c + s * k;
    }
  }

  /** A carry `c` at axis `d + 1` comes from the carry `p * c + k` at axis `d`. */
  lemma LeavesStep(xs: seq<Axis>, ys: seq<Axis>, delta: int, d: nat, p: int, c: int, k: seq<int>)
    requires NestedPair(xs, ys) && d + 1 < |xs| && xs[d + 1].stride == Times(xs[d].stride, p)
    requires |k| == d + 1
    ensures Leaves(xs, ys, delta, d + 1, c, k) <==>
              && Leaves(xs, ys, delta, d, Times(p, c) + k[d], k[..d])
              && -(ys[d].size as int - 1) <= k[d] <= xs[d].size as int - 1
  {
    assert xs[..d + 1][..d] == xs[..d];
    UnitsNest(xs[d].stride, p, c, k[d]);
    assert AxisDot(xs[..d + 1], k) == AxisDot(xs[..d], k[..d]) + Times(xs[d].stride, k[d]);
    assert Band(xs, ys, k) <==> Band(xs, ys, k[..d]) && -(ys[d].size as int - 1) <= k[d] <= xs[d].size as int - 1;
  }

  /** The recurrence: dividing the interval by the period keeps it exact. */
  lemma CarryStep(xs: seq<Axis>, ys: seq<Axis>, delta: int, d: nat, lo: int, hi: int, p: int)
    requires NestedPair(xs, ys) && d + 1 < |xs| && p > 0 && xs[d + 1].stride == Times(xs[d].stride, p)
    requires CarryInterval(xs, ys, delta, d, lo, hi) && lo <= hi
    ensures var lower, upper := -(ys[d].size as int - 1), xs[d].size as int - 1;
            CarryInterval(xs, ys, delta, d + 1, CeilDiv(lo - upper, p), FloorDiv(hi - lower, p))
  {
    var lower, upper := -(ys[d].size as int - 1), xs[d].size as int - 1;
    var e := d + 1;
    forall c
      ensures CarryReachable(xs, ys, delta, e, c) <==> CeilDiv(lo - upper, p) <= c <= FloorDiv(hi - lower, p)
    {
      CeilDivMeaning(lo - upper, p, c);
      FloorDivMeaning(hi - lower, p, c);
      CarryStepAt(xs, ys, delta, d, lo, hi, p, c);
    }
  }

  lemma CarryStepAt(xs: seq<Axis>, ys: seq<Axis>, delta: int, d: nat, lo: int, hi: int, p: int, c: int)
    requires NestedPair(xs, ys) && d + 1 < |xs| && p > 0 && xs[d + 1].stride == Times(xs[d].stride, p)
    requires CarryInterval(xs, ys, delta, d, lo, hi) && lo <= hi
    ensures CarryReachable(xs, ys, delta, d + 1, c) <==>
              lo - (xs[d].size as int - 1) <= Times(p, c) <= hi + (ys[d].size as int - 1)
  {
    hide *;
    SharedStride(xs, ys, d + 1);
    if CarryReachable(xs, ys, delta, d + 1, c) {
      CarryDown(xs, ys, delta, d, lo, hi, p, c);
    }
    if lo - (xs[d].size as int - 1) <= Times(p, c) <= hi + (ys[d].size as int - 1) {
      CarryUp(xs, ys, delta, d, lo, hi, p, c);
    }
  }

  lemma CarryDown(xs: seq<Axis>, ys: seq<Axis>, delta: int, d: nat, lo: int, hi: int, p: int, c: int)
    requires NestedPair(xs, ys) && d + 1 < |xs| == |ys| && p > 0 && xs[d + 1].stride == Times(xs[d].stride, p)
    requires CarryInterval(xs, ys, delta, d, lo, hi) && CarryReachable(xs, ys, delta, d + 1, c)
    ensures lo - (xs[d].size as int - 1) <= Times(p, c) <= hi + (ys[d].size as int - 1)
  {
    hide NestedPair, Times, AxisDot, Band;
    var k :| Leaves(xs, ys, delta, d + 1, c, k);
    LeavesStep(xs, ys, delta, d, p, c, k);
    assert CarryReachable(xs, ys, delta, d, Times(p, c) + k[d]);
  }

  lemma CarryUp(xs: seq<Axis>, ys: seq<Axis>, delta: int, d: nat, lo: int, hi: int, p: int, c: int)
    requires NestedPair(xs, ys) && d + 1 < |xs| == |ys| && p > 0 && xs[d + 1].stride == Times(xs[d].stride, p)
    requires CarryInterval(xs, ys, delta, d, lo, hi) && lo <= hi && xs[d].size > 1 && ys[d].size > 1
    requires lo - (xs[d].size as int - 1) <= Times(p, c) <= hi + (ys[d].size as int - 1)
    ensures CarryReachable(xs, ys, delta, d + 1, c)
  {
    hide NestedPair, Times, AxisDot, Band;
    var lower := -(ys[d].size as int - 1);
    var last := if lo - Times(p, c) > lower then lo - Times(p, c) else lower;
    assert CarryReachable(xs, ys, delta, d, Times(p, c) + last);
    var k :| Leaves(xs, ys, delta, d, Times(p, c) + last, k);
    assert (k + [last])[..d] == k;
    LeavesStep(xs, ys, delta, d, p, c, k + [last]);
    assert Leaves(xs, ys, delta, d + 1, c, k + [last]);
  }

  /** At the last axis the differences still available decide. */
  lemma CarryEnd(xs: seq<Axis>, ys: seq<Axis>, delta: int, lo: int, hi: int)
    requires NestedPair(xs, ys) && CarryInterval(xs, ys, delta, |xs| - 1, lo, hi) && lo <= hi
    ensures Meets(xs, ys, delta) <==>
              hi >= -(ys[|xs| - 1].size as int - 1) && lo <= xs[|xs| - 1].size as int - 1
  {
    var d := |xs| - 1;
    var lower, upper := -(ys[d].size as int - 1), xs[d].size as int - 1;
    if Meets(xs, ys, delta) {
      var c := LastDigit(xs, ys, delta);
      assert lo <= c <= hi;
    }
    if hi >= lower && lo <= upper {
      var c := if lo > lower then lo else lower;
      assert CarryReachable(xs, ys, delta, d, c);
      LastFits(xs, ys, delta, c);
    }
  }

  /** A solution's last digit is a carry that reaches the last axis. */
  lemma LastDigit(xs: seq<Axis>, ys: seq<Axis>, delta: int) returns (c: int)
    requires NestedPair(xs, ys) && |xs| > 0 && Meets(xs, ys, delta)
    ensures CarryReachable(xs, ys, delta, |xs| - 1, c)
    ensures -(ys[|xs| - 1].size as int - 1) <= c <= xs[|xs| - 1].size as int - 1
  {
    var d := |xs| - 1;
    var k :| |k| == |xs| && Band(xs, ys, k) && AxisDot(xs, k) == delta;
    c := k[d];
    assert Leaves(xs, ys, delta, d, k[d], k[..d]);
  }

  /** A carry the last axis can take completes a solution. */
  lemma LastFits(xs: seq<Axis>, ys: seq<Axis>, delta: int, c: int)
    requires NestedPair(xs, ys) && |xs| > 0 && CarryReachable(xs, ys, delta, |xs| - 1, c)
    requires -(ys[|xs| - 1].size as int - 1) <= c <= xs[|xs| - 1].size as int - 1
    ensures Meets(xs, ys, delta)
  {
    var d := |xs| - 1;
    var k :| Leaves(xs, ys, delta, d, c, k);
    hide AxisDot, Band, Times;
    BandGrows(xs, ys, k, c);
    assert (k + [c])[..d] == k;
    LastProduct(xs, k + [c]);
    assert Band(xs, ys, k + [c]) && AxisDot(xs, k + [c]) == delta;
  }

  lemma BandGrows(xs: seq<Axis>, ys: seq<Axis>, k: seq<int>, c: int)
    requires |k| < |xs| == |ys| && Band(xs, ys, k)
    requires -(ys[|k|].size as int - 1) <= c <= xs[|k|].size as int - 1
    ensures Band(xs, ys, k + [c])
  {
  }

  /** What the axes from `d` on contribute is a whole number of units of axis `d`. */
  lemma {:induction false} TailIsMultiple(xs: seq<Axis>, ys: seq<Axis>, k: seq<int>, d: nat) returns (c: int)
    requires NestedPair(xs, ys) && d < |xs| == |k|
    ensures AxisDot(xs, k) == AxisDot(xs[..d], k[..d]) + Times(xs[d].stride, c)
    decreases |xs|
  {
    var n := |xs| - 1;
    if d == n {
      c := k[n];
    } else {
      var b := TailIsMultiple(xs[..n], ys[..n], k[..n], d);
      assert xs[..n][..d] == xs[..d] && k[..n][..d] == k[..d];
      var m := StridesDivide(xs, ys, d, n);
      c := b + Times(m, k[n]);
      UnitsNest(xs[d].stride, m, k[n], 0);
      TimesAdd(xs[d].stride, b, Times(m, k[n]));
      TimesAdd(xs[d].stride, 0, 0);
    }
  }

  lemma {:induction false} StridesDivide(xs: seq<Axis>, ys: seq<Axis>, d: nat, e: nat) returns (m: int)
    requires NestedPair(xs, ys) && d <= e < |xs|
    ensures xs[e].stride == Times(xs[d].stride, m) && m > 0
    decreases e
  {
    if d == e {
      m := 1;
    } else {
      var b := StridesDivide(xs, ys, d, e - 1);
      var q := xs[e].stride / xs[e - 1].stride;
      assert xs[e].stride == q * xs[e - 1].stride;
      assert q > 0;
      m := Times(b, q);
      TimesMono(b, 1, q);
      assert xs[d].stride * b * q == xs[d].stride * (b * q);
    }
  }

  /** An empty interval ends the search: no choice of differences sums to `delta`. */
  lemma CarryEmpty(xs: seq<Axis>, ys: seq<Axis>, delta: int, d: nat, lo: int, hi: int)
    requires NestedPair(xs, ys) && d < |xs| && CarryInterval(xs, ys, delta, d, lo, hi) && lo > hi
    ensures !Meets(xs, ys, delta)
  {
    if Meets(xs, ys, delta) {
      var k :| |k| == |xs| && Band(xs, ys, k) && AxisDot(xs, k) == delta;
      var c := TailIsMultiple(xs, ys, k, d);
      assert Leaves(xs, ys, delta, d, c, k[..d]);
      assert CarryReachable(xs, ys, delta, d, c);
    }
  }

  /** When the smallest stride does not divide the distance, nothing meets. */
  lemma FirstStrideDivides(xs: seq<Axis>, ys: seq<Axis>, delta: int)
    requires NestedPair(xs, ys) && Meets(xs, ys, delta)
    ensures delta % xs[0].stride == 0
  {
    var k :| |k| == |xs| && Band(xs, ys, k) && AxisDot(xs, k) == delta;
    var c := TailIsMultiple(xs, ys, k, 0);
    assert xs[..0] == [];
    DivModUnique(delta, c, 0, xs[0].stride);
  }

  // ----- the intervals stay inside int64_t -----

  /** Some carry that reaches axis `d` leaves int64_t when an index difference of that axis is taken out. */
  ghost predicate OverflowAt(xs: seq<Axis>, ys: seq<Axis>, delta: int, d: nat)
    requires d < |xs| == |ys|
  {
    exists c :: CarryReachable(xs, ys, delta, d, c)
                && !(INT64_MIN <= c - (xs[d].size as int - 1) && c + (ys[d].size as int - 1) <= INT64_MAX)
  }

  /** The same on some axis but the last, where nothing is taken out. */
  ghost predicate CarryOverflows(xs: seq<Axis>, ys: seq<Axis>, delta: int) {
    |xs| == |ys| && exists d :: 0 <= d < |xs| - 1 && OverflowAt(xs, ys, delta, d)
  }

  ghost predicate SafeBelow(xs: seq<Axis>, ys: seq<Axis>, delta: int, d: nat)
    requires d <= |xs| == |ys|
  {
    forall e :: 0 <= e < d ==> !OverflowAt(xs, ys, delta, e)
  }

  /** The two comparisons of the guard speak for every carry in the interval. */
  lemma GuardMeaning(xs: seq<Axis>, ys: seq<Axis>, delta: int, d: nat, lo: int, hi: int)
    requires d < |xs| == |ys| && CarryInterval(xs, ys, delta, d, lo, hi) && lo <= hi
    ensures OverflowAt(xs, ys, delta, d) <==>
              lo < INT64_MIN + (xs[d].size as int - 1) || hi > INT64_MAX - (ys[d].size as int - 1)
  {
    assert CarryReachable(xs, ys, delta, d, lo) && CarryReachable(xs, ys, delta, d, hi);
    hide CarryReachable;
  }

  lemma SafeSnoc(xs: seq<Axis>, ys: seq<Axis>, delta: int, d: nat)
    requires d < |xs| == |ys| && SafeBelow(xs, ys, delta, d)
    ensures OverflowAt(xs, ys, delta, d) && d + 1 < |xs| ==> CarryOverflows(xs, ys, delta)
    ensures !OverflowAt(xs, ys, delta, d) ==> SafeBelow(xs, ys, delta, d + 1)
    ensures d + 1 == |xs| ==> !CarryOverflows(xs, ys, delta)
  {
    hide OverflowAt;
  }

  /** A carry that reaches an axis comes from one that reached the axis before it. */
  lemma ReachableBack(xs: seq<Axis>, ys: seq<Axis>, delta: int, d: nat, c: int)
    requires NestedPair(xs, ys) && d + 1 < |xs| && CarryReachable(xs, ys, delta, d + 1, c)
    ensures exists b :: CarryReachable(xs, ys, delta, d, b)
  {
    var k :| Leaves(xs, ys, delta, d + 1, c, k);
    var p := xs[d + 1].stride / xs[d].stride;
    assert xs[d + 1].stride == Times(xs[d].stride, p);
    LeavesStep(xs, ys, delta, d, p, c, k);
    assert CarryReachable(xs, ys, delta, d, Times(p, c) + k[d]);
  }

  lemma {:induction false} UnreachableLater(xs: seq<Axis>, ys: seq<Axis>, delta: int, d: nat, e: nat)
    requires NestedPair(xs, ys) && d <= e < |xs| && !exists c :: CarryReachable(xs, ys, delta, d, c)
    ensures !OverflowAt(xs, ys, delta, e) && !exists c :: CarryReachable(xs, ys, delta, e, c)
    decreases e
  {
    if d < e {
      UnreachableLater(xs, ys, delta, d, e - 1);
      if c :| CarryReachable(xs, ys, delta, e, c) {
        ReachableBack(xs, ys, delta, e - 1, c);
      }
    }
  }

  /** Once no carry is left, no later axis can overflow. */
  lemma NothingOverflows(xs: seq<Axis>, ys: seq<Axis>, delta: int, d: nat)
    requires NestedPair(xs, ys) && d < |xs| && SafeBelow(xs, ys, delta, d)
    requires !exists c :: CarryReachable(xs, ys, delta, d, c)
    ensures !CarryOverflows(xs, ys, delta)
  {
    forall e | d <= e < |xs| ensures !OverflowAt(xs, ys, delta, e) {
      UnreachableLater(xs, ys, delta, d, e);
    }
    hide OverflowAt, CarryReachable, NestedPair;
  }

  /** When the smallest stride does not divide the distance, no carry even starts. */
  lemma NothingStarts(xs: seq<Axis>, ys: seq<Axis>, delta: int)
    requires NestedPair(xs, ys) && delta % xs[0].stride != 0
    ensures !Meets(xs, ys, delta) && !CarryOverflows(xs, ys, delta)
  {
    if Meets(xs, ys, delta) {
      FirstStrideDivides(xs, ys, delta);
    }
    if c :| CarryReachable(xs, ys, delta, 0, c) {
      var k :| Leaves(xs, ys, delta, 0, c, k);
      assert xs[..0] == [];
      DivModUnique(delta, c, 0, xs[0].stride);
    }
    NothingOverflows(xs, ys, delta, 0);
  }

  lemma {:induction false} BandBound(xs: seq<Axis>, ys: seq<Axis>, k: seq<int>)
    requires |k| == |xs| == |ys| && Band(xs, ys, k)
    requires forall i :: 0 <= i < |xs| ==> xs[i].stride == ys[i].stride > 0 && xs[i].size > 1 && ys[i].size > 1
    ensures -AxesExtent(ys) <= AxisDot(xs, k) <= AxesExtent(xs)
  {
    hide Times;
    if |k| > 0 {
      var n := |k| - 1;
      BandBound(xs[..n], ys[..n], k[..n]);
      TimesMono(xs[n].stride, k[n], xs[n].size - 1);
      TimesMono(xs[n].stride, -(ys[n].size as int - 1), k[n]);
      TimesAdd(xs[n].stride, ys[n].size - 1, 0);
    }
  }

  lemma ShrinkByUnit(s: int, x: int, bound: int)
    requires s > 0 && bound >= 0
    ensures Times(s, x) >= -bound ==> x >= -bound
    ensures Times(s, x) <= bound ==> x <= bound
  {
    TimesAdd(s, x, 0);
    if x < 0 { TimesMono(-x, 1, s); }
    if x > 0 { TimesMono(x, 1, s); }
  }

  /** What is left of the distance once a carry is taken out is within the extents of the axes before it. */
  lemma CarryWithin(xs: seq<Axis>, ys: seq<Axis>, delta: int, d: nat, c: int)
    requires NestedPair(xs, ys) && d < |xs| && CarryReachable(xs, ys, delta, d, c)
    ensures -AxesExtent(ys[..d]) <= delta - Times(xs[d].stride, c) <= AxesExtent(xs[..d])
    ensures AxesExtent(xs[..d + 1]) <= AxesExtent(xs) && AxesExtent(ys[..d + 1]) <= AxesExtent(ys)
  {
    var k :| Leaves(xs, ys, delta, d, c, k);
    BandBound(xs[..d], ys[..d], k);
    PartialExtent(xs, d + 1);
    PartialExtent(ys, d + 1);
    hide AxisDot, AxesExtent, Times;
  }

  /** A reachable carry, moved by whatever index difference is left on its axis, stays within the extents. */
  lemma ReachableFits(xs: seq<Axis>, ys: seq<Axis>, delta: int, d: nat, c: int)
    requires NestedPair(xs, ys) && d < |xs| && CarryReachable(xs, ys, delta, d, c)
    requires delta - AxesExtent(xs) >= -INT64_MAX && delta + AxesExtent(ys) <= INT64_MAX
    ensures c - (xs[d].size as int - 1) >= -INT64_MAX && c + (ys[d].size as int - 1) <= INT64_MAX
  {
    hide *;
    SharedStride(xs, ys, d);
    var s, u, l := xs[d].stride, xs[d].size as int - 1, ys[d].size as int - 1;
    CarryWithin(xs, ys, delta, d, c);
    LargestWord();
    ExtentStep(xs, d);
    ExtentStep(ys, d);
    TimesAdd(s, c, u);
    TimesAdd(s, c, l);
    ShrinkByUnit(s, c - u, INT64_MAX);
    ShrinkByUnit(s, c + l, INT64_MAX);
  }

  lemma SharedStride(xs: seq<Axis>, ys: seq<Axis>, d: nat)
    requires NestedPair(xs, ys) && d < |xs|
    ensures |xs| == |ys| && ys[d].stride == xs[d].stride > 0
    ensures forall i :: 0 <= i < |xs| ==> xs[i].size > 1 && ys[i].size > 1
  {
  }

  lemma LargestWord()
    ensures INT64_MAX > 0
  {
  }

  lemma ExtentStep(xs: seq<Axis>, d: nat)
    requires d < |xs|
    ensures AxesExtent(xs[..d + 1]) == AxesExtent(xs[..d]) + Times(xs[d].stride, xs[d].size as int - 1)
  {
    assert xs[..d + 1][..d] == xs[..d];
  }

  /** With the distance and both extents bounded, the guard against overflow never fires. */
  lemma RoomyNeverOverflows(xs: seq<Axis>, ys: seq<Axis>, delta: int)
    requires NestedPair(xs, ys)
    requires delta - AxesExtent(xs) >= -INT64_MAX && delta + AxesExtent(ys) <= INT64_MAX
    ensures !CarryOverflows(xs, ys, delta)
  {
    forall d, c | 0 <= d < |xs| && CarryReachable(xs, ys, delta, d, c)
      ensures c - (xs[d].size as int - 1) >= -INT64_MAX && c + (ys[d].size as int - 1) <= INT64_MAX
    {
      ReachableFits(xs, ys, delta, d, c);
    }
    hide CarryReachable, NestedPair, AxesExtent;
  }
}
