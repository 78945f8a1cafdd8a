/** What the greedy test proves about the offsets of a layout: no two coordinates collide, and a tight extent is full. */
module Lattice {
  import opened Arith
  import opened Layout
  import opened Permutations
  import opened Axes

  // ----- distinct coordinates have distinct offsets -----

  ghost predicate PositiveAxes(sizes: seq<nat>, strides: seq<int>)
    requires |sizes| == |strides|
  {
    forall d :: 0 <= d < |sizes| && sizes[d] > 1 ==> strides[d] > 0
  }

  lemma AxesSnoc(sizes: seq<nat>, strides: seq<int>, s: int)
    requires 0 < |sizes| == |strides|
    ensures var k := |sizes| - 1;
            var inner := AxesOf(sizes[..k], strides[..k]);
            var all := AxesOf(sizes, strides);
            if sizes[k] > 1 then
              && |all| == |inner| + 1 && all[..|inner|] == inner && all[|inner|] == Axis(sizes[k], strides[k])
              && Upto(all, s) == Upto(inner, s) + (if strides[k] <= s then Times(strides[k], sizes[k] - 1) else 0)
              && AxesExtent(all) == AxesExtent(inner) + Times(strides[k], sizes[k] - 1)
            else all == inner
  {
    var k := |sizes| - 1;
    var inner := AxesOf(sizes[..k], strides[..k]);
    if sizes[k] > 1 {
      assert AxesOf(sizes, strides)[..|inner|] == inner;
    }
  }

  lemma UptoSnoc(sizes: seq<nat>, strides: seq<int>, s: int)
    requires 0 < |sizes| == |strides|
    ensures var k := |sizes| - 1;
            Upto(AxesOf(sizes, strides), s) == Upto(AxesOf(sizes[..k], strides[..k]), s)
              + (if sizes[k] > 1 && strides[k] <= s then Times(strides[k], sizes[k] - 1) else 0)
  {
    AxesSnoc(sizes, strides, s);
  }

  lemma StepBound(n: nat, stride: int, e: int)
    requires 0 < n + e && e < n && stride > 0
    ensures -Times(stride, n - 1) <= Times(stride, e) <= Times(stride, n - 1)
  {
    TimesMono(stride, e, n - 1);
    TimesMono(stride, -(n - 1), e);
    TimesAdd(stride, n - 1, 0);
  }

  /** A move `e` inside the box along axes of stride at most `s` covers no more than their extent. */
  lemma {:induction false} MoveBound(sizes: seq<nat>, strides: seq<int>, e: seq<int>, s: int)
    requires |e| == |sizes| == |strides| && MovesWithin(sizes, strides, e, s)
    ensures -Upto(AxesOf(sizes, strides), s) <= Dot(strides, e) <= Upto(AxesOf(sizes, strides), s)
  {
    if |e| > 0 {
      hide *;
      var k := |e| - 1;
      LastMove(sizes, strides, e, s);
      MoveBound(sizes[..k], strides[..k], e[..k], s);
      UptoSnoc(sizes, strides, s);
    }
  }

  /** Moves inside the box, only along axes of stride at most `s`. */
  ghost predicate MovesWithin(sizes: seq<nat>, strides: seq<int>, e: seq<int>, s: int)
    requires |e| == |sizes| == |strides|
  {
    && PositiveAxes(sizes, strides)
    && forall d :: 0 <= d < |e| ==> 0 < sizes[d] + e[d] && e[d] < sizes[d] && (e[d] != 0 ==> strides[d] <= s)
  }

  lemma LastMove(sizes: seq<nat>, strides: seq<int>, e: seq<int>, s: int)
    requires |e| == |sizes| == |strides| > 0 && MovesWithin(sizes, strides, e, s)
    ensures var k := |e| - 1;
            var reach := if sizes[k] > 1 && strides[k] <= s then Times(strides[k], sizes[k] - 1) else 0;
            && MovesWithin(sizes[..k], strides[..k], e[..k], s)
            && Dot(strides, e) - reach <= Dot(strides[..k], e[..k]) <= Dot(strides, e) + reach
  {
    hide Times;
    var k := |e| - 1;
    assert Dot(strides, e) == Dot(strides[..k], e[..k]) + Times(strides[k], e[k]);
    hide Dot;
    TimesAdd(strides[k], 0, 0);
    if sizes[k] > 1 {
      StepBound(sizes[k], strides[k], e[k]);
    }
  }

  /** Flattening dimension `m` to size one takes its own reach out of the sum. */
  lemma {:induction false} UptoWithout(sizes: seq<nat>, flat: seq<nat>, strides: seq<int>, m: nat, s: int)
    requires m < |sizes| == |flat| == |strides| && sizes[m] > 1 && strides[m] <= s
    requires flat[m] == 1 && forall d :: 0 <= d < |sizes| && d != m ==> flat[d] == sizes[d]
    ensures Upto(AxesOf(flat, strides), s) == Upto(AxesOf(sizes, strides), s) - Times(strides[m], sizes[m] - 1)
  {
    hide *;
    var k := |sizes| - 1;
    UptoSnoc(sizes, strides, s);
    UptoSnoc(flat, strides, s);
    if m == k {
      assert flat[..k] == sizes[..k];
    } else {
      UptoWithout(sizes[..k], flat[..k], strides[..k], m, s);
    }
  }

  /** The moved coordinate with the largest stride. */
  lemma WidestMove(strides: seq<int>, e: seq<int>) returns (m: nat)
    requires |e| == |strides| && exists d :: 0 <= d < |e| && e[d] != 0
    ensures m < |e| && e[m] != 0
    ensures forall d :: 0 <= d < |e| && e[d] != 0 ==> strides[d] <= strides[m]
  {
    m :| m < |e| && e[m] != 0;
    for i := 0 to |e|
      invariant m < |e| && e[m] != 0
      invariant forall d :: 0 <= d < i && e[d] != 0 ==> strides[d] <= strides[m]
    {
      if e[i] != 0 && strides[i] > strides[m] {
        m := i;
      }
    }
  }

  lemma {:induction false} AxisInLayout(sizes: seq<nat>, strides: seq<int>, d: nat)
    requires d < |sizes| == |strides| && sizes[d] > 1
    ensures Axis(sizes[d], strides[d]) in AxesOf(sizes, strides)
  {
    if d < |sizes| - 1 {
      AxisInLayout(sizes[..|sizes| - 1], strides[..|sizes| - 1], d);
    }
  }

  lemma MoveIsWide(stride: int, e: int)
    requires stride > 0 && e != 0
    ensures Times(stride, e) >= stride || Times(stride, e) <= -stride
  {
    TimesAdd(stride, 1, 0);
    if e > 0 { TimesMono(stride, 1, e); } else { TimesMono(stride, e, -1); }
  }

  lemma SeparatedAt(sizes: seq<nat>, flat: seq<nat>, strides: seq<int>, m: nat)
    requires m < |sizes| == |flat| == |strides| && sizes[m] > 1 && Separated(AxesOf(sizes, strides))
    requires flat[m] == 1 && forall d :: 0 <= d < |sizes| && d != m ==> flat[d] == sizes[d]
    ensures strides[m] > 0 && strides[m] > Upto(AxesOf(flat, strides), strides[m])
  {
    var s := strides[m];
    AxisInLayout(sizes, strides, m);
    assert s > 0 && s > Upto(AxesOf(sizes, strides), s) - Times(s, sizes[m] - 1);
    hide *;
    UptoWithout(sizes, flat, strides, m, s);
  }

  lemma SeparatedPositive(sizes: seq<nat>, strides: seq<int>)
    requires |sizes| == |strides| && Separated(AxesOf(sizes, strides))
    ensures PositiveAxes(sizes, strides)
  {
    forall d | 0 <= d < |sizes| && sizes[d] > 1 ensures strides[d] > 0 {
      AxisInLayout(sizes, strides, d);
    }
  }

  lemma WithoutMove(strides: seq<int>, e: seq<int>, rest: seq<int>, m: nat)
    requires m < |e| == |strides| && rest == e[m := 0]
    ensures Dot(strides, rest) == Dot(strides, e) - Times(strides[m], e[m])
  {
    hide *;
    DotUpdate(strides, e, m, 0);
    TimesAdd(strides[m], 0, e[m]);
  }

  /** What is left of a move inside the box once its widest step is taken out. */
  lemma RestMoves(sizes: seq<nat>, strides: seq<int>, e: seq<int>, m: nat)
    requires m < |e| == |sizes| == |strides| && PositiveAxes(sizes, strides)
    requires forall d :: 0 <= d < |e| ==> 0 < sizes[d] + e[d] && e[d] < sizes[d] && (e[d] != 0 ==> strides[d] <= strides[m])
    ensures MovesWithin(sizes[m := 1], strides, e[m := 0], strides[m])
  {
  }

  lemma SeparatedNoMove(sizes: seq<nat>, strides: seq<int>, e: seq<int>)
    requires |e| == |sizes| == |strides| && Separated(AxesOf(sizes, strides))
    requires forall d :: 0 <= d < |e| ==> 0 < sizes[d] + e[d] && e[d] < sizes[d]
    requires exists d :: 0 <= d < |e| && e[d] != 0
    ensures Dot(strides, e) != 0
  {
    hide *;
    SeparatedPositive(sizes, strides);
    var m := WidestMove(strides, e);
    SeparatedAt(sizes, sizes[m := 1], strides, m);
    RestMoves(sizes, strides, e, m);
    MoveBound(sizes[m := 1], strides, e[m := 0], strides[m]);
    WithoutMove(strides, e, e[m := 0], m);
    MoveIsWide(strides[m], e[m]);
  }

  lemma {:induction false} DotDifference(strides: seq<int>, c: seq<int>, c': seq<int>)
    requires |strides| == |c| == |c'|
    ensures Dot(strides, seq(|c|, d requires 0 <= d < |c| => c[d] - c'[d])) == Dot(strides, c) - Dot(strides, c')
  {
    hide Times;
    if |c| > 0 {
      var k := |c| - 1;
      TimesAdd(strides[k], c[k], c'[k]);
      DotDifference(strides[..k], c[..k], c'[..k]);
      assert seq(|c|, d requires 0 <= d < |c| => c[d] - c'[d])[..k]
          == seq(k, d requires 0 <= d < k => c[..k][d] - c'[..k][d]);
    }
  }

  /** Passing the greedy test means no two coordinates have the same offset. */
  lemma SeparatedInjective(sizes: seq<nat>, strides: seq<int>)
    requires |sizes| == |strides| && Separated(AxesOf(sizes, strides))
    ensures Injective(sizes, strides)
  {
    hide Times;
    forall c, c' | InBox(sizes, c) && InBox(sizes, c') && Dot(strides, c) == Dot(strides, c')
      ensures c == c'
    {
      var e := seq(|c|, d requires 0 <= d < |c| => c[d] - c'[d]);
      DotDifference(strides, c, c');
      if c != c' {
        assert exists d :: 0 <= d < |c| && c[d] != c'[d];
        var d :| 0 <= d < |c| && c[d] != c'[d];
        assert e[d] != 0;
        SeparatedNoMove(sizes, strides, e);
      }
    }
  }

  /** The test is sufficient, not necessary: sizes [3,2] with strides [2,3] is injective and refused. */
  lemma SeparatedNotNecessary()
    ensures Injective([3, 2], [2, 3]) && !Separated(AxesOf([3, 2], [2, 3]))
  {
    var sizes: seq<nat>, strides := [3, 2], [2, 3];
    assert strides[..1] == [2];
    forall c | InBox(sizes, c) ensures Dot(strides, c) == 2 * c[0] + 3 * c[1] {
      assert Dot(strides[..1], c[..1]) == 2 * c[0] by { assert c[..1][..0] == []; }
    }
    forall c, c' | InBox(sizes, c) && InBox(sizes, c') && Dot(strides, c) == Dot(strides, c')
      ensures c == c'
    {
      assert c == [c[0], c[1]] && c' == [c'[0], c'[1]];
    }
    assert sizes[..1] == [3] && strides[..1] == [2] && sizes[..1][..0] == [];
    assert AxesOf(sizes[..1], strides[..1]) == [Axis(3, 2)];
    var axes := AxesOf(sizes, strides);
    assert axes == [Axis(3, 2), Axis(2, 3)];
    assert axes[..1] == [Axis(3, 2)] && axes[..1][..0] == [];
    assert Upto(axes[..1], 3) == 4;
    assert Upto(axes, 3) == 7;
    assert Axis(2, 3) in axes;
  }

  // ----- offsets of the axes are the offsets of the layout -----

  predicate InAxes(axes: seq<Axis>, c: seq<int>) {
    |c| == |axes| && forall i :: 0 <= i < |axes| ==> 0 <= c[i] < axes[i].size
  }

  function AxisDot(axes: seq<Axis>, c: seq<int>): int
    requires |c| == |axes|
  {
    if |c| == 0 then 0 else AxisDot(axes[..|c| - 1], c[..|c| - 1]) + Times(axes[|c| - 1].stride, c[|c| - 1])
  }

  lemma AxisDotSnoc(axes: seq<Axis>, c: seq<int>, a: Axis, x: int)
    requires InAxes(axes, c) && 0 <= x < a.size
    ensures InAxes(axes + [a], c + [x])
    ensures AxisDot(axes + [a], c + [x]) == AxisDot(axes, c) + Times(a.stride, x)
  {
    assert (axes + [a])[..|c|] == axes && (c + [x])[..|c|] == c;
  }

  lemma BoxDotSnoc(sizes: seq<nat>, strides: seq<int>, c: seq<int>, x: int)
    requires 0 < |sizes| == |strides|
    requires InBox(sizes[..|sizes| - 1], c) && 0 <= x < sizes[|sizes| - 1]
    ensures InBox(sizes, c + [x])
    ensures Dot(strides, c + [x]) == Dot(strides[..|sizes| - 1], c) + Times(strides[|sizes| - 1], x)
  {
    var k := |sizes| - 1;
    assert strides == strides[..k] + [strides[k]];
    DotSnoc(strides[..k], strides[k], c, x);
  }

  lemma {:induction false} LayoutToAxes(sizes: seq<nat>, strides: seq<int>, c: seq<int>) returns (a: seq<int>)
    requires |sizes| == |strides| && InBox(sizes, c)
    ensures InAxes(AxesOf(sizes, strides), a) && AxisDot(AxesOf(sizes, strides), a) == Dot(strides, c)
  {
    hide *;
    a := [];
    BoxLength(sizes, c);
    NothingToMove(sizes, strides, c);
    if |c| > 0 {
      var k := |c| - 1;
      BoxLast(sizes, c);
      LastOffset(strides, c);
      LastAxis(sizes, strides);
      a := LayoutToAxes(sizes[..k], strides[..k], c[..k]);
      if sizes[k] > 1 {
        AxisDotSnoc(AxesOf(sizes[..k], strides[..k]), a, Axis(sizes[k], strides[k]), c[k]);
        a := a + [c[k]];
      } else {
        TimesAdd(strides[k], 0, 0);
      }
    }
  }

  lemma NothingToMove(sizes: seq<nat>, strides: seq<int>, c: seq<int>)
    requires |sizes| == |strides| == |c|
    ensures |c| == 0 ==> InAxes(AxesOf(sizes, strides), []) && AxisDot(AxesOf(sizes, strides), []) == Dot(strides, c)
  {
  }

  lemma LastOffset(strides: seq<int>, c: seq<int>)
    requires |strides| == |c| > 0
    ensures var k := |c| - 1; Dot(strides, c) == Dot(strides[..k], c[..k]) + Times(strides[k], c[k])
  {
    hide Times;
  }

  /** The last dimension is an axis of its own, or none. */
  lemma LastAxis(sizes: seq<nat>, strides: seq<int>)
    requires |sizes| == |strides| > 0
    ensures var k := |sizes| - 1;
            var inner := AxesOf(sizes[..k], strides[..k]);
            AxesOf(sizes, strides) == if sizes[k] > 1 then inner + [Axis(sizes[k], strides[k])] else inner
  {
  }

  lemma {:induction false} AxesToLayout(sizes: seq<nat>, strides: seq<int>, a: seq<int>) returns (c: seq<int>)
    requires |sizes| == |strides| && Positive(sizes) && InAxes(AxesOf(sizes, strides), a)
    ensures InBox(sizes, c) && Dot(strides, c) == AxisDot(AxesOf(sizes, strides), a)
  {
    hide *;
    c := [];
    if |sizes| == 0 {
      AxesLength(sizes, strides, a);
      NothingToMove(sizes, strides, c);
      EmptyInBox(sizes);
    } else {
      var k := |sizes| - 1;
      LastAxis(sizes, strides);
      PositiveLast(sizes);
      if sizes[k] > 1 {
        var n := |AxesOf(sizes[..k], strides[..k])|;
        LastAxisDot(AxesOf(sizes[..k], strides[..k]), Axis(sizes[k], strides[k]), a);
        c := AxesToLayout(sizes[..k], strides[..k], a[..n]);
        BoxDotSnoc(sizes, strides, c, a[n]);
        c := c + [a[n]];
      } else {
        c := AxesToLayout(sizes[..k], strides[..k], a);
        BoxDotSnoc(sizes, strides, c, 0);
        TimesAdd(strides[k], 0, 0);
        c := c + [0];
      }
    }
  }

  lemma AxesLength(sizes: seq<nat>, strides: seq<int>, a: seq<int>)
    requires |sizes| == |strides| == 0 && InAxes(AxesOf(sizes, strides), a)
    ensures a == []
  {
  }

  lemma EmptyInBox(sizes: seq<nat>)
    requires |sizes| == 0
    ensures InBox(sizes, [])
  {
  }

  lemma PositiveLast(sizes: seq<nat>)
    requires |sizes| > 0 && Positive(sizes)
    ensures sizes[|sizes| - 1] > 0 && Positive(sizes[..|sizes| - 1])
  {
  }

  /** Splits off the index of the last axis. */
  lemma LastAxisDot(inner: seq<Axis>, last: Axis, a: seq<int>)
    requires InAxes(inner + [last], a)
    ensures var n := |inner|;
            && |a| == n + 1 && InAxes(inner, a[..n]) && 0 <= a[n] < last.size
            && AxisDot(inner + [last], a) == AxisDot(inner, a[..n]) + Times(last.stride, a[n])
  {
    hide *;
    var n, axes := |inner|, inner + [last];
    assert axes[..n] == inner && axes[n] == last;
    LastInAxes(axes, a);
    LastProduct(axes, a);
  }

  lemma LastInAxes(axes: seq<Axis>, a: seq<int>)
    requires |axes| > 0 && InAxes(axes, a)
    ensures var n := |axes| - 1; |a| == n + 1 && InAxes(axes[..n], a[..n]) && 0 <= a[n] < axes[n].size
  {
  }

  lemma LastProduct(axes: seq<Axis>, a: seq<int>)
    requires |axes| == |a| > 0
    ensures var n := |a| - 1; AxisDot(axes, a) == AxisDot(axes[..n], a[..n]) + Times(axes[n].stride, a[n])
  {
    hide Times;
  }

  lemma {:induction false} AxisDotInsert(axes: seq<Axis>, c: seq<int>, p: nat)
    requires p < |axes| == |c|
    ensures AxisDot(axes, c) == AxisDot(RemoveAt(axes, p), RemoveAt(c, p)) + Times(axes[p].stride, c[p])
  {
    hide Times;
    var k := |axes| - 1;
    if p == k {
      assert RemoveAt(axes, p) == axes[..k] && RemoveAt(c, p) == c[..k];
    } else {
      AxisDotInsert(axes[..k], c[..k], p);
      RemoveBeforeLast(axes, p);
      RemoveBeforeLast(c, p);
    }
  }

  /** A coordinate for all axes but one, and one for that axis. */
  lemma InsertCoordinate(ys: seq<Axis>, p: nat, b: seq<int>, x: int) returns (r: seq<int>)
    requires p < |ys| && InAxes(RemoveAt(ys, p), b) && 0 <= x < ys[p].size
    ensures InAxes(ys, r) && AxisDot(ys, r) == AxisDot(RemoveAt(ys, p), b) + Times(ys[p].stride, x)
  {
    r := b[..p] + [x] + b[p..];
    InsertedInAxes(ys, p, b, x, r);
    hide *;
    AxisDotInsert(ys, r, p);
  }

  lemma InsertedInAxes(ys: seq<Axis>, p: nat, b: seq<int>, x: int, r: seq<int>)
    requires p < |ys| && InAxes(RemoveAt(ys, p), b) && 0 <= x < ys[p].size && r == b[..p] + [x] + b[p..]
    ensures |r| == |ys| && InAxes(ys, r) && r[p] == x && RemoveAt(r, p) == b && |b| == |RemoveAt(ys, p)|
  {
    forall i | 0 <= i < |ys| ensures 0 <= r[i] < ys[i].size {
      if i < p {
        assert RemoveAt(ys, p)[i] == ys[i];
      } else if i > p {
        assert RemoveAt(ys, p)[i - 1] == ys[i];
      }
    }
  }

  /** Reordering the axes reaches the same offsets. */
  lemma {:induction false} PermuteAxes(xs: seq<Axis>, ys: seq<Axis>, c: seq<int>) returns (r: seq<int>)
    requires multiset(xs) == multiset(ys) && InAxes(xs, c)
    ensures InAxes(ys, r) && AxisDot(ys, r) == AxisDot(xs, c)
  {
    hide Times;
    if |xs| == 0 {
      assert |multiset(ys)| == 0;
      r := [];
    } else {
      var k := |xs| - 1;
      var p := LastElsewhere(xs, ys);
      var b := PermuteAxes(xs[..k], RemoveAt(ys, p), c[..k]);
      hide RemoveAt;
      r := InsertCoordinate(ys, p, b, c[k]);
    }
  }

  // ----- a tight extent leaves no gap -----

  function AxesNumel(axes: seq<Axis>): nat {
    if |axes| == 0 then 1 else AxesNumel(axes[..|axes| - 1]) * axes[|axes| - 1].size
  }

  lemma {:induction false} AxesNumelIsNumel(sizes: seq<nat>, strides: seq<int>)
    requires |sizes| == |strides| && Positive(sizes)
    ensures AxesNumel(AxesOf(sizes, strides)) == Numel(sizes)
    ensures AxesExtent(AxesOf(sizes, strides)) == Extent(sizes, strides)
  {
    hide Times;
    if |sizes| > 0 {
      var k := |sizes| - 1;
      AxesNumelIsNumel(sizes[..k], strides[..k]);
      TimesAdd(strides[k], 0, 0);
      AxesSnoc(sizes, strides, 0);
    }
  }

  lemma {:induction false} AxesNumelInsert(axes: seq<Axis>, p: nat)
    requires p < |axes|
    ensures AxesNumel(axes) == AxesNumel(RemoveAt(axes, p)) * axes[p].size
  {
    var k := |axes| - 1;
    if p == k {
      assert RemoveAt(axes, p) == axes[..k];
    } else {
      AxesNumelInsert(axes[..k], p);
      RemoveBeforeLast(axes, p);
      var m := AxesNumel(RemoveAt(axes[..k], p));
      assert m * axes[p].size * axes[k].size == m * axes[k].size * axes[p].size;
    }
  }

  lemma {:induction false} AxesNumelPermutation(xs: seq<Axis>, ys: seq<Axis>)
    requires multiset(xs) == multiset(ys)
    ensures AxesNumel(xs) == AxesNumel(ys)
  {
    if |xs| == 0 {
      assert |multiset(ys)| == 0;
    } else {
      var p := LastElsewhere(xs, ys);
      AxesNumelPermutation(xs[..|xs| - 1], RemoveAt(ys, p));
      AxesNumelInsert(ys, p);
    }
  }

  /** A separated layout spans at least as many cells as it has elements. */
  lemma {:induction false} ExtentHoldsNumel(axes: seq<Axis>)
    requires StepsOver(axes)
    ensures AxesExtent(axes) + 1 >= AxesNumel(axes) >= 1
  {
    if |axes| > 0 {
      var k := |axes| - 1;
      ExtentHoldsNumel(axes[..k]);
      var e, n, z, s := AxesExtent(axes[..k]), AxesNumel(axes[..k]), axes[k].size, axes[k].stride;
      MulMono(e + 1, s, z - 1);
      MulMono(n, e + 1, z);
      MulMono(1, n, z);
      assert e + 1 + (e + 1) * (z - 1) == (e + 1) * z;
    }
  }

  lemma TightStep(e: int, n: int, z: int, s: int)
    requires e + 1 >= n >= 1 && s >= e + 1 && z >= 2
    requires e + s * (z - 1) + 1 == n * z
    ensures e + 1 == n && s == n
  {
    MulMono(0, e + 1 - n, z);
    MulMono(0, s - e - 1, z - 1);
    assert (e + 1 - n) * z + (s - e - 1) * (z - 1) == 0;
    MulMono(1, z, e + 1 - n);
    MulMono(1, z - 1, s - e - 1);
  }

  /** When it spans exactly that many, every cell is reached. */
  lemma {:induction false} TightExtentFull(axes: seq<Axis>, x: int) returns (c: seq<int>)
    requires StepsOver(axes) && AxesExtent(axes) + 1 == AxesNumel(axes) && 0 <= x <= AxesExtent(axes)
    ensures InAxes(axes, c) && AxisDot(axes, c) == x
  {
    c := [];
    if |axes| > 0 {
      var k := |axes| - 1;
      ExtentHoldsNumel(axes[..k]);
      var e, n, z, s := AxesExtent(axes[..k]), AxesNumel(axes[..k]), axes[k].size, axes[k].stride;
      assert AxesExtent(axes) == e + s * (z - 1);
      TightStep(e, n, z, s);
      DivBound(x, z, s);
      var b := TightExtentFull(axes[..k], x % s);
      AxisDotSnoc(axes[..k], b, axes[k], x / s);
      c := b + [x / s];
      assert axes == axes[..k] + [axes[k]];
      QuotientAndRest(s, x);
      hide *;
    }
  }

  lemma QuotientAndRest(s: int, x: int)
    requires s > 0
    ensures Times(s, x / s) + x % s == x
  {
  }

  /** `sorted` is the layout's axes in stride order. */
  ghost predicate SortedAxesOf(sorted: seq<Axis>, sizes: seq<nat>, strides: seq<int>)
    requires |sizes| == |strides|
  {
    multiset(sorted) == multiset(AxesOf(sizes, strides)) && Sorted(sorted)
  }

  ghost predicate StridesAtMost(axes: seq<Axis>, bound: int) {
    forall i :: 0 <= i < |axes| ==> axes[i].stride <= bound
  }

  /** Any axes can be put in stride order. */
  lemma {:induction false} SortAxes(axes: seq<Axis>) returns (sorted: seq<Axis>)
    ensures multiset(sorted) == multiset(axes) && Sorted(sorted)
  {
    sorted := [];
    if |axes| > 0 {
      var k := |axes| - 1;
      var inner := SortAxes(axes[..k]);
      assert |multiset(inner)| == |inner| && |multiset(axes[..k])| == k;
      var bound := if k == 0 || inner[k - 1].stride < axes[k].stride then axes[k].stride else inner[k - 1].stride;
      sorted := InsertSorted(inner, axes[k], bound);
      assert axes == axes[..k] + [axes[k]];
    }
  }

  lemma {:induction false} InsertSorted(axes: seq<Axis>, a: Axis, bound: int) returns (r: seq<Axis>)
    requires Sorted(axes) && StridesAtMost(axes, bound) && a.stride <= bound
    ensures Sorted(r) && multiset(r) == multiset(axes) + multiset{a} && StridesAtMost(r, bound)
  {
    var k := |axes| - 1;
    if |axes| == 0 || axes[k].stride <= a.stride {
      r := axes + [a];
      SortedSnoc(axes, a, bound);
    } else {
      assert axes == axes[..k] + [axes[k]];
      assert Sorted(axes[..k]) && StridesAtMost(axes[..k], axes[k].stride) && axes[k].stride <= bound;
      hide *;
      var inner := InsertSorted(axes[..k], a, axes[k].stride);
      r := inner + [axes[k]];
      SortedSnoc(inner, axes[k], bound);
    }
  }

  lemma SortedSnoc(axes: seq<Axis>, a: Axis, bound: int)
    requires Sorted(axes) && a.stride <= bound
    requires StridesAtMost(axes, a.stride) || (|axes| > 0 && axes[|axes| - 1].stride <= a.stride)
    ensures Sorted(axes + [a]) && StridesAtMost(axes + [a], bound)
  {
  }

  /** A separated layout whose extent is its element count minus one reaches every offset up to the extent. */
  lemma DenseReachesAll(sizes: seq<nat>, strides: seq<int>, x: int) returns (c: seq<int>)
    requires |sizes| == |strides| && Positive(sizes)
    requires Separated(AxesOf(sizes, strides)) && Extent(sizes, strides) + 1 == Numel(sizes)
    requires 0 <= x <= Extent(sizes, strides)
    ensures InBox(sizes, c) && Dot(strides, c) == x
  {
    var axes := AxesOf(sizes, strides);
    var sorted := SortAxes(axes);
    WalkMeansSeparated(sorted, sizes, strides);
    AxesNumelIsNumel(sizes, strides);
    AxesNumelPermutation(sorted, axes);
    SumsPermutation(sorted, axes, 0);
    var a := TightExtentFull(sorted, x);
    var b := PermuteAxes(sorted, axes, a);
    c := AxesToLayout(sizes, strides, b);
  }
}
