/**
 * Views of a tensor (tensor.h): the metadata operations, which element each coordinate of the result
 * reads, and why no chain of them leaves the storage it started from.
 */
module Views {
  import opened Arith
  import opened Layout
  import opened Shapes
  import opened Packing
  import opened Permutations
  import opened Nests
  import opened ViewStrides

  /** A view: its layout, where it starts in the storage, and how many elements lie from there to the end. */
  datatype View = View(sizes: seq<nat>, strides: seq<int>, offset: nat, window: nat)

  /** `Undefined` marks signed arithmetic that leaves int64_t, which C++ does not define. */
  datatype ViewResult = Ok(view: View) | Rejected | Undefined

  /** Storage element that coordinate `c` reads. */
  function At(v: View, c: seq<int>): int
    requires |c| == |v.strides|
  {
    v.offset + Dot(v.strides, c)
  }

  ghost predicate Inside(v: View) {
    |v.sizes| == |v.strides| && NonNegative(v.strides) && Extent(v.sizes, v.strides) <= INT64_MAX && Extent(v.sizes, v.strides) < v.window
  }

  /** A view that the geometry check accepts, into a storage of `n` elements. */
  ghost predicate Valid(v: View, n: nat) {
    |v.sizes| == |v.strides| && NonNegative(v.strides) && v.offset + v.window <= n && (Numel(v.sizes) > 0 ==> Inside(v))
  }

  /** Every element of a valid view exists. */
  lemma ValidInStorage(v: View, n: nat, c: seq<int>)
    requires Valid(v, n) && InBox(v.sizes, c)
    ensures 0 <= At(v, c) < n
  {
    FlattenInRange(v.sizes, c);
    DotWithinExtent(v.sizes, v.strides, c);
  }

  /** A view with elements is inside exactly when every coordinate is, and no offset leaves int64_t. */
  lemma InsideExactly(v: View)
    requires |v.sizes| == |v.strides| && Numel(v.sizes) > 0 && NonNegative(v.strides)
    ensures Inside(v) <==> forall c :: InBox(v.sizes, c) ==> 0 <= Dot(v.strides, c) < v.window && Dot(v.strides, c) <= INT64_MAX
  {
    hide *;
    NumelPositive(v.sizes);
    var last := LastCoordinate(v.sizes, v.strides);
    forall c | InBox(v.sizes, c) ensures |c| == |v.strides| && 0 <= Dot(v.strides, c) <= Extent(v.sizes, v.strides) {
      BoxLength(v.sizes, c);
      DotWithinExtent(v.sizes, v.strides, c);
    }
    InsideMeans(v);
  }

  lemma InsideMeans(v: View)
    requires |v.sizes| == |v.strides| && NonNegative(v.strides)
    ensures Inside(v) <==> Extent(v.sizes, v.strides) <= INT64_MAX && Extent(v.sizes, v.strides) < v.window
  {
  }

  /** The geometry check of the view constructors; `nullData` says that the view has no data pointer. */
  method CheckGeometry(v: View, nullData: bool) returns (ok: bool)
    requires |v.sizes| == |v.strides|
    ensures ok <==> (Numel(v.sizes) > 0 ==> !nullData && Inside(v))
  {
    hide Times;
    if Numel(v.sizes) == 0 {
      return true;
    }
    if nullData {
      return false;
    }
    NumelPositive(v.sizes);
    var extent := 0;
    for i := 0 to |v.sizes|
      invariant 0 <= extent <= INT64_MAX
      invariant extent == Extent(v.sizes[..i], v.strides[..i])
      invariant NonNegative(v.strides[..i])
    {
      PrefixStep(v.sizes, v.strides, i);
      var stride := v.strides[i];
      if stride < 0 {
        assert !NonNegative(v.strides);
        return false;
      }
      var count := v.sizes[i] - 1;
      if !(count == 0 || stride <= (INT64_MAX - extent) / count) {
        ExtentGuard(stride, count, extent);
        PrefixExtent(v.sizes, v.strides, i + 1);
        return false;
      }
      if count > 0 {
        ExtentGuard(stride, count, extent);
      } else {
        TimesAdd(stride, 0, 0);
      }
      TimesNonNegative(stride, count);
      extent := extent + Times(stride, count);
    }
    assert v.sizes[..|v.sizes|] == v.sizes && v.strides[..|v.sizes|] == v.strides;
    return extent < v.window;
  }

  lemma PrefixStep(sizes: seq<nat>, strides: seq<int>, i: nat)
    requires i < |sizes| == |strides|
    ensures Extent(sizes[..i + 1], strides[..i + 1]) == Extent(sizes[..i], strides[..i]) + Times(strides[i], sizes[i] as int - 1)
    ensures NonNegative(strides[..i + 1]) <==> NonNegative(strides[..i]) && strides[i] >= 0
  {
    assert sizes[..i + 1][..i] == sizes[..i] && strides[..i + 1][..i] == strides[..i];
    assert NonNegative(strides[..i]) && strides[i] >= 0 ==> NonNegative(strides[..i + 1]);
    assert NonNegative(strides[..i + 1]) ==> NonNegative(strides[..i]) && strides[..i + 1][i] >= 0 by {
      assert forall d :: 0 <= d < i ==> strides[..i][d] == strides[..i + 1][d];
    }
  }

  lemma ExtentGuard(stride: int, count: nat, extent: int)
    requires count > 0 && 0 <= extent <= INT64_MAX && stride >= 0
    ensures stride <= (INT64_MAX - extent) / count <==> extent + Times(stride, count) <= INT64_MAX
  {
    var room := INT64_MAX - extent;
    var q := room / count;
    assert room == q * count + room % count;
    if stride <= q { MulMono(stride, q, count); } else { MulMono(q + 1, stride, count); }
  }

  /** The extent only grows from the outer dimensions in. */
  lemma {:induction false} PrefixExtent(sizes: seq<nat>, strides: seq<int>, i: nat)
    requires i <= |sizes| == |strides| && Positive(sizes)
    ensures NonNegative(strides) ==> Extent(sizes, strides) >= Extent(sizes[..i], strides[..i])
    decreases |sizes|
  {
    hide Times;
    if i == |sizes| {
      assert sizes[..i] == sizes && strides[..i] == strides;
    } else {
      var k := |sizes| - 1;
      PrefixExtent(sizes[..k], strides[..k], i);
      assert sizes[..k][..i] == sizes[..i] && strides[..k][..i] == strides[..i];
      if NonNegative(strides) {
        TimesNonNegative(strides[k], sizes[k] - 1);
      }
    }
  }

  // ----- why a view of a view stays inside -----

  /** Every coordinate of `w` reads an element that some coordinate of `v` reads. */
  ghost predicate ReadsOnly(w: View, v: View)
    requires |w.sizes| == |w.strides| && |v.sizes| == |v.strides|
  {
    forall c :: InBox(w.sizes, c) ==> exists c' :: InBox(v.sizes, c') && At(w, c) == At(v, c')
  }

  /** `w` looks at the same storage, from the start of `v` or further in; an empty `w` may look anywhere in it. */
  ghost predicate Within(w: View, v: View) {
    w.offset >= v.offset && w.offset + w.window == v.offset + v.window
  }

  /** The geometry check never rejects a view that reads only what a valid view reads. */
  lemma ReadsOnlyValid(w: View, v: View, n: nat)
    requires Valid(v, n) && |w.sizes| == |w.strides| && Within(w, v) && ReadsOnly(w, v)
    requires NonNegative(w.strides)
    ensures Valid(w, n)
  {
    if Numel(w.sizes) > 0 {
      NumelPositive(w.sizes);
      var c := LastCoordinate(w.sizes, w.strides);
      var c' :| InBox(v.sizes, c') && At(w, c) == At(v, c');
      FlattenInRange(v.sizes, c');
      DotWithinExtent(v.sizes, v.strides, c');
    }
  }

  lemma LastCoordinate(sizes: seq<nat>, strides: seq<int>) returns (c: seq<int>)
    requires |sizes| == |strides| && Positive(sizes)
    ensures InBox(sizes, c) && Dot(strides, c) == Extent(sizes, strides)
  {
    ExtentReached(sizes, strides);
    c := seq(|sizes|, d requires 0 <= d < |sizes| => sizes[d] - 1);
  }

  // ----- t() and permute() -----

  predicate IsOrder(order: seq<nat>, rank: nat) {
    && |order| == rank && (forall i :: 0 <= i < rank ==> order[i] < rank)
    && Distinct(order)
  }

  /** A permutation is exactly a list of as many entries as there are axes, in which every axis occurs. */
  lemma OrderExactly(order: seq<nat>, rank: nat)
    ensures IsOrder(order, rank) <==> |order| == rank && forall d: nat :: d < rank ==> d in order
  {
    if IsOrder(order, rank) {
      forall d: nat | d < rank ensures d in order {
        OrderCovers(order, rank, d);
      }
    }
    if |order| == rank && forall d: nat :: d < rank ==> d in order {
      CoversOrder(order, rank);
    }
  }

  /** With no entry to spare, none is repeated and none is too large. */
  lemma {:induction false} CoversOrder(order: seq<nat>, rank: nat)
    requires |order| == rank && forall d: nat :: d < rank ==> d in order
    ensures IsOrder(order, rank)
    decreases rank
  {
    if rank > 0 {
      var last: nat := rank - 1;
      assert last in order;
      var p :| 0 <= p < rank && order[p] == last;
      var fewer := RemoveAt(order, p);
      forall d: nat | d < rank - 1 ensures d in fewer {
        assert d in order;
        var i :| 0 <= i < rank && order[i] == d;
        assert fewer[if i < p then i else i - 1] == d;
      }
      CoversOrder(fewer, rank - 1);
      forall i | 0 <= i < rank && i != p ensures order[i] < rank - 1 {
        assert order[i] == fewer[if i < p then i else i - 1];
      }
      forall i, j | 0 <= i < j < rank ensures order[i] != order[j] {
        if i != p && j != p {
          assert order[i] == fewer[if i < p then i else i - 1] && order[j] == fewer[if j < p then j else j - 1];
        }
      }
    }
  }

  function Permuted<A>(s: seq<A>, order: seq<nat>): (r: seq<A>)
    requires forall i :: 0 <= i < |order| ==> order[i] < |s|
    ensures |r| == |order| && forall i :: 0 <= i < |order| ==> r[i] == s[order[i]]
  {
    seq(|order|, i requires 0 <= i < |order| => s[order[i]])
  }

  /** `permute(order)`: dimension `i` of the result is dimension `order[i]`. */
  method DoPermute(v: View, order: seq<nat>) returns (r: ViewResult)
    requires |v.sizes| == |v.strides|
    ensures r == if IsOrder(order, |v.sizes|) then Ok(v.(sizes := Permuted(v.sizes, order), strides := Permuted(v.strides, order)))
                 else Rejected
  {
    var n := |v.sizes|;
    if |order| != n {
      return Rejected;
    }
    var sizes, strides := new nat[n](_ => 0), new int[n](_ => 0);
    for i := 0 to n
      invariant forall j :: 0 <= j < i ==> order[j] < n && sizes[j] == v.sizes[order[j]] && strides[j] == v.strides[order[j]]
      invariant forall j, k :: 0 <= j < k < i ==> order[j] != order[k]
    {
      var src := order[i];
      if src >= n {
        return Rejected;
      }
      for j := 0 to i
        invariant forall k :: 0 <= k < j ==> order[k] != src
      {
        if order[j] == src {
          return Rejected;
        }
      }
      sizes[i], strides[i] := v.sizes[src], v.strides[src];
    }
    assert sizes[..] == Permuted(v.sizes, order) && strides[..] == Permuted(v.strides, order);
    return Ok(v.(sizes := sizes[..], strides := strides[..]));
  }

  /** One operand's layout as a nest, so that the planner's reordering facts apply to views. */
  function AsNest(sizes: seq<nat>, strides: seq<int>): (dims: seq<Dim>)
    requires |sizes| == |strides|
    ensures |dims| == |sizes| && Uniform(dims, 1)
    ensures forall d :: 0 <= d < |dims| ==> dims[d] == Dim(sizes[d], [strides[d]])
  {
    seq(|sizes|, d requires 0 <= d < |sizes| => Dim(sizes[d], [strides[d]]))
  }

  /** Coordinate `c` of a permuted view reads the coordinate that has `c[i]` in dimension `order[i]`. */
  lemma PermuteLaw(v: View, order: seq<nat>, c: seq<int>)
    requires |v.sizes| == |v.strides| && IsOrder(order, |v.sizes|)
    requires InBox(Permuted(v.sizes, order), c)
    ensures var w := v.(sizes := Permuted(v.sizes, order), strides := Permuted(v.strides, order));
            var q := Scatter(|v.sizes|, order, c);
            && InBox(v.sizes, q) && At(w, c) == At(v, q)
            && forall i :: 0 <= i < |order| ==> q[order[i]] == c[i]
  {
    var n := |v.sizes|;
    var dims := AsNest(v.sizes, v.strides);
    var q := Scatter(n, order, c);
    ScatterKeepsOffset(dims, 1, order, c, 0);
    assert StridesOf(dims, 1, 0) == v.strides;
    assert StridesOf(Select(dims, order), 1, 0) == Permuted(v.strides, order);
    ScatterAt(n, order, c);
    forall d | 0 <= d < n ensures 0 <= q[d] < v.sizes[d] {
      OrderCovers(order, n, d);
      var i :| 0 <= i < n && order[i] == d;
    }
  }

  lemma OrderShrinks(order: seq<nat>, n: nat, p: nat)
    requires IsOrder(order, n) && p < n && order[p] == n - 1
    ensures IsOrder(RemoveAt(order, p), n - 1)
    ensures forall x :: x in RemoveAt(order, p) ==> x in order
  {
    var fewer := RemoveAt(order, p);
    forall i | 0 <= i < n - 1 ensures fewer[i] < n - 1 && fewer[i] in order {
      var j := if i < p then i else i + 1;
      assert fewer[i] == order[j] && order[j] != order[p];
    }
  }

  lemma OrderSkips(order: seq<nat>, n: nat)
    requires IsOrder(order, n) && n > 0 && n - 1 !in order
    ensures IsOrder(order[..n - 1], n - 1) && order[n - 1] < n - 1 && order[n - 1] !in order[..n - 1]
  {
    assert forall i :: 0 <= i < n ==> order[i] in order;
  }

  /** A list of `n` distinct numbers below `n` misses none. */
  lemma {:induction false} OrderCovers(order: seq<nat>, n: nat, d: nat)
    requires IsOrder(order, n) && d < n
    ensures d in order
    decreases n
  {
    if n - 1 !in order {
      OrderSkips(order, n);
      OrderCovers(order[..n - 1], n - 1, order[n - 1]);
    } else if d != n - 1 {
      var p :| 0 <= p < n && order[p] == n - 1;
      OrderShrinks(order, n, p);
      OrderCovers(RemoveAt(order, p), n - 1, d);
    }
    hide IsOrder, RemoveAt;
  }

  /** Without the place of the last dimension, the others are still reordered. */
  lemma PermutedWithout(sizes: seq<nat>, order: seq<nat>, p: nat)
    requires IsOrder(order, |sizes|) && p < |sizes| && order[p] == |sizes| - 1
    requires IsOrder(RemoveAt(order, p), |sizes| - 1)
    ensures Permuted(sizes, order)[p] == sizes[|sizes| - 1] && |Permuted(sizes, order)| == |sizes|
    ensures RemoveAt(Permuted(sizes, order), p) == Permuted(sizes[..|sizes| - 1], RemoveAt(order, p))
  {
  }

  /** Reordering dimensions keeps the element count. */
  lemma {:induction false} PermutedNumel(sizes: seq<nat>, order: seq<nat>)
    requires IsOrder(order, |sizes|)
    ensures Numel(Permuted(sizes, order)) == Numel(sizes)
    decreases |sizes|
  {
    var n := |sizes|;
    if n > 0 {
      OrderCovers(order, n, n - 1);
      var p :| 0 <= p < n && order[p] == n - 1;
      OrderShrinks(order, n, p);
      NumelLast(sizes);
      PermutedWithout(sizes, order, p);
      hide *;
      PermutedNumel(sizes[..n - 1], RemoveAt(order, p));
      NumelRemove(Permuted(sizes, order), p);
    } else {
      assert Permuted(sizes, order) == sizes;
    }
  }

  /** `t()`: swaps the two dimensions of a matrix. */
  method DoTranspose(v: View) returns (r: ViewResult)
    requires |v.sizes| == |v.strides|
    ensures r == if |v.sizes| == 2 then Ok(v.(sizes := Permuted(v.sizes, [1, 0]), strides := Permuted(v.strides, [1, 0])))
                 else Rejected
  {
    if |v.sizes| != 2 {
      return Rejected;
    }
    var sizes := v.sizes[0 := v.sizes[1]][1 := v.sizes[0]];
    var strides := v.strides[0 := v.strides[1]][1 := v.strides[0]];
    assert sizes == Permuted(v.sizes, [1, 0]) && strides == Permuted(v.strides, [1, 0]);
    return Ok(v.(sizes := sizes, strides := strides));
  }

  // ----- expand() -----

  /** Strides of a view repeated to `dims`: zero for leading dimensions and for those that grow from one. */
  function ExpandedStrides(sizes: seq<nat>, strides: seq<int>, dims: seq<nat>): (r: seq<int>)
    requires |sizes| == |strides| <= |dims|
    ensures |r| == |dims|
  {
    var lead := |dims| - |sizes|;
    seq(|dims|, d requires 0 <= d < |dims| =>
      if d < lead then 0 else if sizes[d - lead] == dims[d] then strides[d - lead] else 0)
  }

  predicate DimensionsFit(dims: seq<nat>) {
    forall d :: 0 <= d < |dims| ==> dims[d] <= INT64_MAX
  }

  /** `expand(dims)`. */
  method DoExpand(v: View, dims: seq<nat>) returns (r: ViewResult)
    requires |v.sizes| == |v.strides|
    ensures r.Ok? <==> Expands(v.sizes, dims) && DimensionsFit(dims)
    ensures r.Ok? ==> r.view == v.(sizes := dims, strides := ExpandedStrides(v.sizes, v.strides, dims))
    ensures !r.Undefined?
  {
    var n, m := |v.sizes|, |dims|;
    if m < n {
      return Rejected;
    }
    var strides := new int[m](_ => 0);
    for i := 0 to m
      invariant forall d :: 0 <= d < i ==> dims[d] <= INT64_MAX && strides[d] == ExpandedStrides(v.sizes, v.strides, dims)[d]
      invariant forall j :: 0 <= j < n && j + m - n < i ==> v.sizes[j] == 1 || v.sizes[j] == dims[j + m - n]
    {
      if dims[i] > INT64_MAX {
        return Rejected;
      }
      if i < m - n {
        strides[i] := 0;
      } else {
        var j := i - (m - n);
        if !(v.sizes[j] == dims[i] || v.sizes[j] == 1) {
          assert !(v.sizes[j] == 1 || v.sizes[j] == dims[j + |dims| - |v.sizes|]);
          return Rejected;
        }
        strides[i] := if v.sizes[j] == dims[i] then v.strides[j] else 0;
      }
    }
    assert strides[..] == ExpandedStrides(v.sizes, v.strides, dims);
    return Ok(v.(sizes := dims, strides := strides[..]));
  }

  lemma {:induction false} DotPointwise(a: seq<int>, b: seq<int>, c: seq<int>)
    requires |a| == |b| == |c| && forall d :: 0 <= d < |c| ==> Times(a[d], c[d]) == Times(b[d], c[d])
    ensures Dot(a, c) == Dot(b, c)
  {
    hide Times;
    if |c| > 0 {
      DotPointwise(a[..|c| - 1], b[..|c| - 1], c[..|c| - 1]);
    }
  }

  /** An expanded view reads at `c` the element that broadcasting selects there. */
  lemma ExpandLaw(v: View, dims: seq<nat>, c: seq<int>)
    requires |v.sizes| == |v.strides| && Expands(v.sizes, dims) && InBox(dims, c)
    ensures var w := v.(sizes := dims, strides := ExpandedStrides(v.sizes, v.strides, dims));
            InBox(v.sizes, Project(v.sizes, c)) && At(w, c) == At(v, Project(v.sizes, c))
  {
    ProjectInBox(v.sizes, dims, c);
    BroadcastReads(v.sizes, v.strides, c);
    var a, b := ExpandedStrides(v.sizes, v.strides, dims), BroadcastStrides(|c|, v.sizes, v.strides);
    forall d | 0 <= d < |c| ensures Times(a[d], c[d]) == Times(b[d], c[d]) {
      SameTerm(v.sizes, v.strides, dims, c, d);
    }
    DotPointwise(a, b, c);
    hide ExpandedStrides, BroadcastStrides, Dot, Project, Expands;
  }

  /** Where the strides differ the coordinate is zero. */
  lemma SameTerm(sizes: seq<nat>, strides: seq<int>, dims: seq<nat>, c: seq<int>, d: nat)
    requires |sizes| == |strides| && Expands(sizes, dims) && InBox(dims, c) && d < |c|
    ensures Times(ExpandedStrides(sizes, strides, dims)[d], c[d]) == Times(BroadcastStrides(|c|, sizes, strides)[d], c[d])
  {
    var a, b := ExpandedStrides(sizes, strides, dims), BroadcastStrides(|c|, sizes, strides);
    var j := d - (|dims| - |sizes|);
    if j >= 0 {
      assert sizes[j] == 1 || sizes[j] == dims[j + |dims| - |sizes|];
      TimesAdd(a[d], 0, 0);
      TimesAdd(b[d], 0, 0);
    }
  }

  // ----- squeeze() and unsqueeze() -----

  /** The entries of `xs` at the dimensions whose size is not one. */
  function Wide<A>(sizes: seq<nat>, xs: seq<A>): (r: seq<A>)
    requires |sizes| == |xs|
    ensures |r| <= |xs|
  {
    if |sizes| == 0 then []
    else
      var k := |sizes| - 1;
      if sizes[k] != 1 then Wide(sizes[..k], xs[..k]) + [xs[k]] else Wide(sizes[..k], xs[..k])
  }

  lemma {:induction false} WideLengths<A, B>(sizes: seq<nat>, xs: seq<A>, ys: seq<B>)
    requires |sizes| == |xs| == |ys|
    ensures |Wide(sizes, xs)| == |Wide(sizes, ys)|
  {
    if |sizes| > 0 {
      WideLengths(sizes[..|sizes| - 1], xs[..|sizes| - 1], ys[..|sizes| - 1]);
    }
  }

  /** The coordinate of the original view: zero where a dimension of size one was dropped. */
  function Spread(sizes: seq<nat>, c: seq<int>): (q: seq<int>)
    requires |c| == |Wide(sizes, sizes)|
    ensures |q| == |sizes|
  {
    if |sizes| == 0 then []
    else
      var k := |sizes| - 1;
      WideLengths(sizes[..k], sizes[..k], sizes[..k]);
      if sizes[k] != 1 then Spread(sizes[..k], c[..|c| - 1]) + [c[|c| - 1]] else Spread(sizes[..k], c) + [0]
  }

  method CountWide(sizes: seq<nat>) returns (count: nat)
    ensures count == |Wide(sizes, sizes)|
  {
    hide Wide;
    NothingWide(sizes, sizes);
    count := 0;
    for i := 0 to |sizes|
      invariant count == |Wide(sizes[..i], sizes[..i])|
    {
      WideStep(sizes, sizes, i);
      count := count + if sizes[i] != 1 then 1 else 0;
    }
    assert sizes[..|sizes|] == sizes;
  }

  /** `squeeze()`: drops every dimension of size one. */
  method DoSqueezeAll(v: View) returns (r: ViewResult)
    requires |v.sizes| == |v.strides|
    ensures r == Ok(v.(sizes := Wide(v.sizes, v.sizes), strides := Wide(v.sizes, v.strides)))
  {
    hide Wide;
    NothingWide(v.sizes, v.strides);
    var count := CountWide(v.sizes);
    assert v.sizes[..|v.sizes|] == v.sizes && v.strides[..|v.sizes|] == v.strides;
    var sizes, strides := new nat[count](_ => 0), new int[count](_ => 0);
    var k := 0;
    for i := 0 to |v.sizes|
      invariant k == |Wide(v.sizes[..i], v.sizes[..i])| <= count
      invariant sizes[..k] == Wide(v.sizes[..i], v.sizes[..i]) && strides[..k] == Wide(v.sizes[..i], v.strides[..i])
    {
      WideStep(v.sizes, v.sizes, i);
      WideStep(v.sizes, v.strides, i);
      WideMonotone(v.sizes, i + 1);
      if v.sizes[i] != 1 {
        sizes[k], strides[k] := v.sizes[i], v.strides[i];
        k := k + 1;
      }
    }
    assert sizes[..k] == sizes[..] && strides[..k] == strides[..];
    return Ok(v.(sizes := sizes[..], strides := strides[..]));
  }

  lemma NothingWide<A, B>(xs: seq<A>, ys: seq<B>)
    ensures Wide([], xs[..0]) == [] && Wide([], ys[..0]) == []
  {
  }

  lemma WideStep<A>(sizes: seq<nat>, xs: seq<A>, i: nat)
    requires i < |sizes| == |xs|
    ensures Wide(sizes[..i + 1], xs[..i + 1]) == Wide(sizes[..i], xs[..i]) + if sizes[i] != 1 then [xs[i]] else []
  {
    assert sizes[..i + 1][..i] == sizes[..i] && xs[..i + 1][..i] == xs[..i];
  }

  lemma {:induction false} WideMonotone(sizes: seq<nat>, i: nat)
    requires i <= |sizes|
    ensures |Wide(sizes[..i], sizes[..i])| <= |Wide(sizes, sizes)|
    decreases |sizes| - i
  {
    if i == |sizes| {
      assert sizes[..i] == sizes;
    } else {
      WideStep(sizes, sizes, i);
      WideMonotone(sizes, i + 1);
    }
  }

  /** The last dimension, when it is wide. */
  lemma WideLast(sizes: seq<nat>, strides: seq<int>, c: seq<int>)
    requires 0 < |sizes| == |strides| && |c| == |Wide(sizes, sizes)| && sizes[|sizes| - 1] != 1
    ensures var k := |sizes| - 1;
            && |c| > 0 && |c| - 1 == |Wide(sizes[..k], sizes[..k])| && Wide(sizes, sizes)[..|c| - 1] == Wide(sizes[..k], sizes[..k])
            && Wide(sizes, sizes)[|c| - 1] == sizes[k]
            && Wide(sizes, strides) == Wide(sizes[..k], strides[..k]) + [strides[k]]
            && Spread(sizes, c) == Spread(sizes[..k], c[..|c| - 1]) + [c[|c| - 1]]
  {
  }

  /** And when it is not. */
  lemma NarrowLast(sizes: seq<nat>, strides: seq<int>, c: seq<int>)
    requires 0 < |sizes| == |strides| && |c| == |Wide(sizes, sizes)| && sizes[|sizes| - 1] == 1
    ensures var k := |sizes| - 1;
            && Wide(sizes, sizes) == Wide(sizes[..k], sizes[..k]) && Wide(sizes, strides) == Wide(sizes[..k], strides[..k])
            && Spread(sizes, c) == Spread(sizes[..k], c) + [0]
  {
  }

  lemma NothingSpread(sizes: seq<nat>, strides: seq<int>, c: seq<int>)
    requires |sizes| == |strides| == 0 && InBox(Wide(sizes, sizes), c)
    ensures |Wide(sizes, strides)| == |c| == |Wide(sizes, sizes)|
    ensures InBox(sizes, Spread(sizes, c)) && Dot(Wide(sizes, strides), c) == Dot(strides, Spread(sizes, c))
  {
  }

  /** A squeezed view reads at `c` the coordinate with zeros put back. */
  lemma {:induction false} SqueezeAllLaw(sizes: seq<nat>, strides: seq<int>, c: seq<int>)
    requires |sizes| == |strides| && InBox(Wide(sizes, sizes), c)
    ensures |Wide(sizes, strides)| == |c|
    ensures InBox(sizes, Spread(sizes, c)) && Dot(Wide(sizes, strides), c) == Dot(strides, Spread(sizes, c))
  {
    hide *;
    WideLengths(sizes, sizes, strides);
    BoxLength(Wide(sizes, sizes), c);
    if |sizes| == 0 {
      NothingSpread(sizes, strides, c);
    } else {
      var k := |sizes| - 1;
      var pre, preStrides := sizes[..k], strides[..k];
      assert strides == preStrides + [strides[k]];
      if sizes[k] != 1 {
        WideLast(sizes, strides, c);
        var less, x := c[..|c| - 1], c[|c| - 1];
        assert c == less + [x];
        BoxLast(Wide(sizes, sizes), c);
        SqueezeAllLaw(pre, preStrides, less);
        BoxSnoc(sizes, Spread(pre, less), x);
        DotSnoc(Wide(pre, preStrides), strides[k], less, x);
        DotSnoc(preStrides, strides[k], Spread(pre, less), x);
      } else {
        NarrowLast(sizes, strides, c);
        SqueezeAllLaw(pre, preStrides, c);
        BoxSnoc(sizes, Spread(pre, c), 0);
        DotSnoc(preStrides, strides[k], Spread(pre, c), 0);
        TimesAdd(strides[k], 0, 0);
      }
    }
  }

  function InsertAt<A>(xs: seq<A>, p: nat, x: A): (r: seq<A>)
    requires p <= |xs|
    ensures |r| == |xs| + 1 && r[p] == x
    ensures (forall i :: 0 <= i < p ==> r[i] == xs[i]) && (forall i :: p <= i < |xs| ==> r[i + 1] == xs[i])
  {
    xs[..p] + [x] + xs[p..]
  }

  /** A dimension of its own adds its own term to the offset. */
  lemma {:induction false} DotInsert(strides: seq<int>, c: seq<int>, p: nat, s: int, x: int)
    requires |strides| == |c| && p <= |c|
    ensures Dot(InsertAt(strides, p, s), InsertAt(c, p, x)) == Dot(strides, c) + Times(s, x)
  {
    var n := |c|;
    if p == n {
      hide *;
      InsertAtEnd(strides, s);
      InsertAtEnd(c, x);
      DotSnoc(strides, s, c, x);
    } else {
      hide *;
      InsertBeforeLast(strides, p, s);
      InsertBeforeLast(c, p, x);
      DotInsert(strides[..n - 1], c[..n - 1], p, s, x);
      DotSnoc(InsertAt(strides[..n - 1], p, s), strides[n - 1], InsertAt(c[..n - 1], p, x), c[n - 1]);
      DotSnoc(strides[..n - 1], strides[n - 1], c[..n - 1], c[n - 1]);
      assert strides == strides[..n - 1] + [strides[n - 1]] && c == c[..n - 1] + [c[n - 1]];
    }
  }

  lemma InsertAtEnd<A>(xs: seq<A>, x: A)
    ensures InsertAt(xs, |xs|, x) == xs + [x]
  {
  }

  lemma InsertBeforeLast<A>(xs: seq<A>, p: nat, x: A)
    requires p < |xs|
    ensures |InsertAt(xs[..|xs| - 1], p, x)| == |xs|
    ensures InsertAt(xs, p, x) == InsertAt(xs[..|xs| - 1], p, x) + [xs[|xs| - 1]]
  {
  }

  lemma RemoveInsert<A>(xs: seq<A>, p: nat)
    requires p < |xs|
    ensures InsertAt(RemoveAt(xs, p), p, xs[p]) == xs
  {
  }

  /** `squeeze(dim)`: drops one dimension if its size is one, and otherwise changes nothing. */
  method DoSqueeze(v: View, dim: nat) returns (r: ViewResult)
    requires |v.sizes| == |v.strides|
    ensures r == if dim >= |v.sizes| then Rejected
                 else if v.sizes[dim] != 1 then Ok(v)
                 else Ok(v.(sizes := RemoveAt(v.sizes, dim), strides := RemoveAt(v.strides, dim)))
  {
    var n := |v.sizes|;
    if dim >= n {
      return Rejected;
    }
    if v.sizes[dim] != 1 {
      return Ok(v);
    }
    var sizes, strides := new nat[n - 1](_ => 0), new int[n - 1](_ => 0);
    var k := 0;
    for i := 0 to n
      invariant k == if i <= dim then i else i - 1
      invariant forall j :: 0 <= j < k ==> sizes[j] == RemoveAt(v.sizes, dim)[j] && strides[j] == RemoveAt(v.strides, dim)[j]
    {
      if i != dim {
        sizes[k], strides[k] := v.sizes[i], v.strides[i];
        k := k + 1;
      }
    }
    assert sizes[..] == RemoveAt(v.sizes, dim) && strides[..] == RemoveAt(v.strides, dim);
    return Ok(v.(sizes := sizes[..], strides := strides[..]));
  }

  /** Dropping a dimension of size one: `c` reads the coordinate with a zero put back there. */
  lemma SqueezeLaw(v: View, dim: nat, c: seq<int>)
    requires |v.sizes| == |v.strides| && dim < |v.sizes| && v.sizes[dim] == 1 && InBox(RemoveAt(v.sizes, dim), c)
    ensures var w := v.(sizes := RemoveAt(v.sizes, dim), strides := RemoveAt(v.strides, dim));
            InBox(v.sizes, InsertAt(c, dim, 0)) && At(w, c) == At(v, InsertAt(c, dim, 0))
  {
    RemoveInsert(v.strides, dim);
    DotInsert(RemoveAt(v.strides, dim), c, dim, v.strides[dim], 0);
    TimesAdd(v.strides[dim], 0, 0);
    ZeroInBox(v.sizes, dim, c);
    hide Times, RemoveAt, InsertAt, Dot, InBox;
  }

  lemma ZeroInBox(sizes: seq<nat>, dim: nat, c: seq<int>)
    requires dim < |sizes| && sizes[dim] == 1 && InBox(RemoveAt(sizes, dim), c)
    ensures InBox(sizes, InsertAt(c, dim, 0))
  {
    InsertedItems(c, dim, 0);
    var q := InsertAt(c, dim, 0);
    forall d | 0 <= d < |sizes| ensures 0 <= q[d] < sizes[d] {
      if d < dim {
        assert c[d] < RemoveAt(sizes, dim)[d];
      } else if d > dim {
        assert q[d] == c[d - 1] && RemoveAt(sizes, dim)[d - 1] == sizes[d];
      }
    }
  }

  lemma InsertedItems<A>(xs: seq<A>, p: nat, x: A)
    requires p <= |xs|
    ensures |InsertAt(xs, p, x)| == |xs| + 1 && InsertAt(xs, p, x)[p] == x
    ensures forall i :: 0 <= i < p ==> InsertAt(xs, p, x)[i] == xs[i]
    ensures forall i :: p < i <= |xs| ==> InsertAt(xs, p, x)[i] == xs[i - 1]
  {
  }

  /** The stride of an inserted dimension: the extent of the dimension it precedes. */
  function InsertedStride(v: View, dim: nat): int
    requires |v.sizes| == |v.strides| && dim <= |v.sizes|
  {
    if dim < |v.sizes| then v.sizes[dim] * v.strides[dim] else 1
  }

  /** `unsqueeze(dim)`: puts a dimension of size one before `dim`. */
  method DoUnsqueeze(v: View, dim: nat) returns (r: ViewResult)
    requires |v.sizes| == |v.strides|
    ensures r == if dim > |v.sizes| then Rejected
                 else if !FitsInt64(InsertedStride(v, dim)) then Undefined
                 else Ok(v.(sizes := InsertAt(v.sizes, dim, 1), strides := InsertAt(v.strides, dim, InsertedStride(v, dim))))
  {
    var n := |v.sizes|;
    if dim > n {
      return Rejected;
    }
    var sizes, strides := new nat[n + 1](_ => 0), new int[n + 1](_ => 0);
    var k := 0;
    ghost var wider, strided := InsertAt(v.sizes, dim, 1), InsertAt(v.strides, dim, InsertedStride(v, dim));
    InsertedItems(v.sizes, dim, 1);
    InsertedItems(v.strides, dim, InsertedStride(v, dim));
    hide InsertAt, FitsInt64;
    for i := 0 to n + 1
      invariant k == if i <= dim then i else i - 1
      invariant i > dim ==> FitsInt64(InsertedStride(v, dim))
      invariant forall j :: 0 <= j < i ==> sizes[j] == wider[j] && strides[j] == strided[j]
    {
      if i == dim {
        if !FitsInt64(InsertedStride(v, dim)) {
          return Undefined;
        }
        sizes[i], strides[i] := 1, if dim < n then v.sizes[dim] * v.strides[dim] else 1;
      } else {
        sizes[i], strides[i] := v.sizes[k], v.strides[k];
        k := k + 1;
      }
    }
    assert sizes[..] == InsertAt(v.sizes, dim, 1) && strides[..] == InsertAt(v.strides, dim, InsertedStride(v, dim));
    return Ok(v.(sizes := sizes[..], strides := strides[..]));
  }

  /** An inserted dimension has index zero: `c` reads the coordinate without it. */
  lemma UnsqueezeLaw(v: View, dim: nat, s: int, c: seq<int>)
    requires |v.sizes| == |v.strides| && dim <= |v.sizes| && InBox(InsertAt(v.sizes, dim, 1), c)
    ensures var w := v.(sizes := InsertAt(v.sizes, dim, 1), strides := InsertAt(v.strides, dim, s));
            InBox(v.sizes, RemoveAt(c, dim)) && At(w, c) == At(v, RemoveAt(c, dim))
  {
    assert c[dim] == 0;
    RemoveInsert(c, dim);
    DotInsert(v.strides, RemoveAt(c, dim), dim, s, 0);
    TimesAdd(s, 0, 0);
    hide Times;
    forall d | 0 <= d < |v.sizes| ensures 0 <= RemoveAt(c, dim)[d] < v.sizes[d] {
      var j := if d < dim then d else d + 1;
      assert RemoveAt(c, dim)[d] == c[j] && InsertAt(v.sizes, dim, 1)[j] == v.sizes[d];
    }
  }

  /** Squeezing leaves no dimension of size one. */
  lemma {:induction false} WideHasNoOnes(sizes: seq<nat>)
    ensures forall d :: 0 <= d < |Wide(sizes, sizes)| ==> Wide(sizes, sizes)[d] != 1
  {
    if |sizes| > 0 {
      WideHasNoOnes(sizes[..|sizes| - 1]);
    }
  }

  lemma InsertedNumel(sizes: seq<nat>, dim: nat)
    requires dim <= |sizes|
    ensures Numel(InsertAt(sizes, dim, 1)) == Numel(sizes)
  {
    NumelRemove(InsertAt(sizes, dim, 1), dim);
    assert RemoveAt(InsertAt(sizes, dim, 1), dim) == sizes;
  }
}
