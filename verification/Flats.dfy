/**
 * Flat indexing of broadcast expressions (expression_shape.h, strided_ref.h): the shortcut for packed
 * leaves, the rewriting of leaves into the index space of the result, and the reference semantics
 * all read the same elements.
 */
module Flats {
  import opened Arith
  import opened Layout
  import opened StridedRefs
  import opened Shapes
  import opened Packing
  import opened Exprs
  import opened Pools

  /** What `expression_shape::numel` returns: the element count, in size_t arithmetic. */
  function ElementCount(sizes: seq<nat>): nat {
    Numel(sizes) % UINT64_LIMIT
  }

  /** The loop of `expression_shape::numel`, which wraps at every product. */
  method ShapeNumel(sizes: seq<nat>) returns (n: nat)
    ensures n == ElementCount(sizes)
  {
    n := 1;
    for d := 0 to |sizes|
      invariant n == ElementCount(sizes[..d])
    {
      assert sizes[..d + 1][..d] == sizes[..d];
      WrapOnce(Numel(sizes[..d]), sizes[d]);
      n := n * sizes[d] % UINT64_LIMIT;
    }
    assert sizes[..|sizes|] == sizes;
  }

  lemma WrapOnce(x: nat, d: nat)
    ensures x % UINT64_LIMIT * d % UINT64_LIMIT == x * d % UINT64_LIMIT
  {
    var q, r := x / UINT64_LIMIT, x % UINT64_LIMIT;
    var p, s := r * d / UINT64_LIMIT, r * d % UINT64_LIMIT;
    assert x * d == (q * UINT64_LIMIT + r) * d == q * d * UINT64_LIMIT + r * d;
    assert x * d == (q * d + p) * UINT64_LIMIT + s;
    DivModUnique(x * d, q * d + p, s, UINT64_LIMIT);
  }

  /** The count is that of the elements exactly when size_t can hold it; it is never more. */
  lemma CountedWhenFits(sizes: seq<nat>)
    ensures ElementCount(sizes) == Numel(sizes) <==> Numel(sizes) < UINT64_LIMIT
    ensures ElementCount(sizes) <= Numel(sizes)
  {
    hide Numel;
  }

  /** The flag of a non-empty leaf is right. */
  ghost predicate Flagged(l: StridedRef) {
    |l.sizes| == |l.strides| && (l.numel > 0 && l.contiguous ==> Packed(l.sizes, l.strides))
  }

  // ----- equal element counts leave nothing to broadcast -----

  lemma {:induction false} ExpandsNumel(a: seq<nat>, out: seq<nat>)
    requires Expands(a, out) && Positive(out)
    ensures Positive(a) && Numel(a) <= Numel(out)
  {
    NumelPositive(out);
    NumelPositive(a);
    if |a| > 0 {
      var k, n := |a| - 1, |out| - 1;
      ExpandsPrefix(a, out);
      ExpandsNumel(a[..k], out[..n]);
      ProductGrows(Numel(a[..k]), Numel(out[..n]), a[k], out[n]);
    }
  }

  lemma ProductGrows(x: nat, y: nat, a: nat, b: nat)
    requires 0 < x <= y && 0 < b && (a == 1 || a == b)
    ensures x * a <= y * b
    ensures x * a == y * b ==> a == b && x == y
  {
    MulMono(x, y, b);
    if a == 1 {
      if b > 1 {
        MulMono(2, b, y);
        assert b * y == y * b;
      }
    } else if x < y {
      MulMono(x + 1, y, b);
      assert (x + 1) * b == x * b + b;
    }
  }

  lemma ExpandsLength(a: seq<nat>, out: seq<nat>)
    requires Expands(a, out)
    ensures |a| <= |out|
  {
  }

  lemma LastFactor(sizes: seq<nat>, x: nat, d: nat)
    requires |sizes| > 0 && x == Numel(sizes[..|sizes| - 1]) && d == sizes[|sizes| - 1]
    ensures Numel(sizes) == Times(x, d)
  {
  }

  lemma EqualProducts(x: nat, y: nat, a: nat, b: nat)
    requires 0 < x <= y && 0 < b && (a == 1 || a == b) && Times(x, a) == Times(y, b)
    ensures a == b && x == y
  {
    ProductGrows(x, y, a, b);
  }

  /** With as many elements as the result, a leaf differs from it only by leading dimensions of size one. */
  lemma SameNumelStep(a: seq<nat>, out: seq<nat>)
    requires Expands(a, out) && Positive(out) && Numel(a) == Numel(out) && |a| > 0
    ensures a[|a| - 1] == out[|out| - 1]
    ensures Expands(a[..|a| - 1], out[..|out| - 1]) && Numel(a[..|a| - 1]) == Numel(out[..|out| - 1])
    ensures Positive(a[..|a| - 1]) && Positive(out[..|out| - 1]) && a[|a| - 1] > 0
  {
    hide *;
    ExpandsLength(a, out);
    var k, n := |a| - 1, |out| - 1;
    ExpandsPrefix(a, out);
    ExpandsNumel(a[..k], out[..n]);
    NumelPositive(a[..k]);
    NumelPositive(out[..n]);
    LastFactor(a, Numel(a[..k]), a[k]);
    LastFactor(out, Numel(out[..n]), out[n]);
    EqualProducts(Numel(a[..k]), Numel(out[..n]), a[k], out[n]);
  }

  lemma ExpandsPrefix(a: seq<nat>, out: seq<nat>)
    requires Expands(a, out) && |a| > 0
    ensures Expands(a[..|a| - 1], out[..|out| - 1])
    ensures a[|a| - 1] == 1 || a[|a| - 1] == out[|out| - 1]
    ensures Positive(out) ==> Positive(out[..|out| - 1]) && out[|out| - 1] > 0
  {
    var k, n := |a| - 1, |out| - 1;
    assert a[k] == 1 || a[k] == out[n];
    assert forall j :: 0 <= j < k ==> a[j] == 1 || a[j] == out[j + |out| - |a|];
  }

  lemma {:induction false} RepeatedOffset(out: seq<nat>, f: nat)
    requires Positive(out)
    ensures FlatOffset(out, BroadcastStrides(|out|, [], []), f) == 0
  {
    if |out| > 0 {
      var n := |out| - 1;
      assert BroadcastStrides(|out|, [], [])[..n] == BroadcastStrides(n, [], []);
      RepeatedOffset(out[..n], f / out[n]);
    }
  }

  /** With equal element counts, the rewritten strides visit the leaf in its own C order. */
  lemma {:induction false} BroadcastFlat(a: seq<nat>, sa: seq<int>, out: seq<nat>, f: nat)
    requires Expands(a, out) && |sa| == |a| && Positive(out) && Numel(a) == Numel(out) && f < Numel(out)
    ensures Positive(a)
    ensures FlatOffset(out, BroadcastStrides(|out|, a, sa), f) == FlatOffset(a, sa, f)
  {
    ExpandsNumel(a, out);
    if |a| == 0 {
      assert a == [] && sa == [];
      RepeatedOffset(out, f);
    } else {
      var k, n := |a| - 1, |out| - 1;
      SameNumelStep(a, out);
      OuterInRange(out, f);
      BroadcastFlat(a[..k], sa[..k], out[..n], f / out[n]);
      assert BroadcastStrides(|out|, a, sa)[..n] == BroadcastStrides(n, a[..k], sa[..k]);
      if a[k] == 1 {
        DivModUnique(f, f, 0, 1);
        TimesAdd(sa[k], 0, 0);
      }
    }
    hide Times, Numel;
  }

  // ----- which element a leaf reads at flat index f -----

  function FlatIndex(l: StridedRef, f: nat): int
    requires l.elem.bytes > 0 && |l.sizes| == |l.strides|
  {
    Base(l) + LogicalOffset(l.sizes, l.strides, l.contiguous, f)
  }

  /** Every leaf is packed and has exactly `numel` elements. */
  predicate AllFlat(ls: seq<StridedRef>, numel: nat) {
    forall l :: l in ls ==> l.contiguous && l.numel == numel
  }

  lemma OneFlat(r: StridedRef, numel: nat)
    ensures AllFlat([], numel) && (AllFlat([r], numel) <==> r.contiguous && r.numel == numel)
  {
    assert r in [r];
  }

  lemma AllFlatConcat(a: seq<StridedRef>, b: seq<StridedRef>, numel: nat)
    ensures AllFlat(a + b, numel) <==> AllFlat(a, numel) && AllFlat(b, numel)
  {
    assert forall l :: l in a + b <==> l in a || l in b;
  }

  /** The recursion of `leaves_flat`. */
  predicate LeavesFlat<T>(e: Expr<T>, numel: nat)
    ensures LeavesFlat(e, numel) <==> forall l :: l in Leaves(e) ==> l.contiguous && l.numel == numel
  {
    match e
    case Scalar(_) => true
    case Leaf(r) =>
      OneFlat(r, numel);
      r.contiguous && r.numel == numel
    case Data(v) =>
      OneFlat(AsRef(v), numel);
      v.size == numel
    case Unary(_, x) => LeavesFlat(x, numel)
    case Binary(_, x, y) =>
      AllFlatConcat(Leaves(x), Leaves(y), numel);
      LeavesFlat(x, numel) && LeavesFlat(y, numel)
    case Trinary(_, x, y, z) =>
      AllFlatConcat(Leaves(x), Leaves(y), numel);
      AllFlatConcat(Leaves(x) + Leaves(y), Leaves(z), numel);
      LeavesFlat(x, numel) && LeavesFlat(y, numel) && LeavesFlat(z, numel)
  }

  /** A packed leaf with all the elements of the result reads, at flat index `f`, what broadcasting selects there. */
  lemma FlatLeafReads(l: StridedRef, out: seq<nat>, f: nat)
    requires l.Valid() && Flagged(l) && Expands(l.sizes, out) && Positive(out)
    requires l.contiguous && l.numel == Numel(out) && f < Numel(out)
    ensures FlatIndex(l, f) == Base(l) + f == LeafIndex(l, Unflatten(out, f))
  {
    NumelPositive(out);
    BroadcastFlat(l.sizes, l.strides, out, f);
    RebasedReads(l, out, f);
    PackedOffset(l.sizes, l.strides, 1, f);
    TimesOne(f);
    hide Times;
  }

  lemma RebasedReads(l: StridedRef, out: seq<nat>, f: nat)
    requires l.elem.bytes > 0 && |l.sizes| == |l.strides| <= |out| && Positive(out)
    ensures Base(l) + FlatOffset(out, BroadcastStrides(|out|, l.sizes, l.strides), f) == LeafIndex(l, Unflatten(out, f))
  {
    FlatOffsetIsDot(out, BroadcastStrides(|out|, l.sizes, l.strides), f);
    BroadcastReads(l.sizes, l.strides, Unflatten(out, f));
  }

  // ----- rewriting the leaves -----

  /** A leaf rewritten into the index space of `out`. */
  function RebasedLeaf(l: StridedRef, out: seq<nat>): (r: StridedRef)
    requires |l.sizes| == |l.strides| <= |out|
    ensures r.elem == l.elem && r.sizes == out && |r.strides| == |out|
  {
    var strides := BroadcastStrides(|out|, l.sizes, l.strides);
    l.(sizes := out, strides := strides, numel := ElementCount(out), contiguous := PackedUntilZero(out, strides, 1))
  }

  function Rebased<T>(e: Expr<T>, out: seq<nat>): Expr<T>
    requires forall l :: l in Leaves(e) ==> |l.sizes| == |l.strides| <= |out|
  {
    match e
    case Scalar(_) => e
    case Leaf(r) =>
      assert r in Leaves(e);
      Leaf(RebasedLeaf(r, out))
    case Data(_) => e
    case Unary(f, x) => Unary(f, Rebased(x, out))
    case Binary(f, x, y) => Binary(f, Rebased(x, out), Rebased(y, out))
    case Trinary(f, x, y, z) => Trinary(f, Rebased(x, out), Rebased(y, out), Rebased(z, out))
  }

  /** Every shapeless leaf has as many elements as the result. */
  predicate DataFits<T>(e: Expr<T>, numel: nat) {
    match e
    case Scalar(_) => true
    case Leaf(_) => true
    case Data(v) => v.size == numel
    case Unary(_, x) => DataFits(x, numel)
    case Binary(_, x, y) => DataFits(x, numel) && DataFits(y, numel)
    case Trinary(_, x, y, z) => DataFits(x, numel) && DataFits(y, numel) && DataFits(z, numel)
  }

  /** `rebase_leaves` on a copy of the tree; refuses a shapeless leaf that would have to be broadcast. */
  method FlatLowered<T>(e: Expr<T>, out: seq<nat>) returns (ok: bool, lowered: Expr<T>)
    requires forall l :: l in Leaves(e) ==> |l.sizes| == |l.strides| <= |out|
    ensures ok <==> DataFits(e, ElementCount(out))
    ensures ok ==> lowered == Rebased(e, out)
    decreases e
  {
    match e
    case Scalar(_) =>
      return true, e;
    case Leaf(r) =>
      assert r in Leaves(e);
      var strides := new int[|out|](_ => 0);
      FillBroadcastStrides(|out|, r.sizes, r.strides, strides);
      var rewritten := strides[..|out|];
      var packed, _ := IsPacked(out, rewritten);
      var n := ShapeNumel(out);
      return true, Leaf(r.(sizes := out, strides := rewritten, numel := n, contiguous := packed));
    case Data(v) =>
      var n := ShapeNumel(out);
      return v.size == n, e;
    case Unary(f, x) =>
      var a;
      ok, a := FlatLowered(x, out);
      lowered := Unary(f, a);
    case Binary(f, x, y) =>
      var a, b := x, y;
      ok, a := FlatLowered(x, out);
      if ok {
        ok, b := FlatLowered(y, out);
      }
      lowered := Binary(f, a, b);
    case Trinary(f, x, y, z) =>
      var a, b, c := x, y, z;
      ok, a := FlatLowered(x, out);
      if ok {
        ok, b := FlatLowered(y, out);
      }
      if ok {
        ok, c := FlatLowered(z, out);
      }
      lowered := Trinary(f, a, b, c);
  }

  // ----- the three strategies -----

  ghost predicate FlatWithin(ls: seq<StridedRef>, f: nat, n: nat) {
    forall l :: l in ls ==> l.elem.bytes > 0 && |l.sizes| == |l.strides| && 0 <= FlatIndex(l, f) < n
  }

  /** The scalar loader at flat index `f`. */
  function FlatEval<T>(e: Expr<T>, f: nat, heap: seq<T>): T
    requires FlatWithin(Leaves(e), f, |heap|)
  {
    match e
    case Scalar(v) => v
    case Leaf(r) =>
      assert r in Leaves(e);
      heap[FlatIndex(r, f)]
    case Data(v) =>
      assert AsRef(v) in Leaves(e);
      heap[FlatIndex(AsRef(v), f)]
    case Unary(op, x) => op(FlatEval(x, f, heap))
    case Binary(op, x, y) => op(FlatEval(x, f, heap), FlatEval(y, f, heap))
    case Trinary(op, x, y, z) => op(FlatEval(x, f, heap), FlatEval(y, f, heap), FlatEval(z, f, heap))
  }

  ghost predicate AllFlagged(ls: seq<StridedRef>) {
    forall l :: l in ls ==> Flagged(l)
  }

  /** Strategy one: when every leaf is flat, flat indexing is the reference semantics. */
  lemma {:induction false} FlatEvalIsDenote<T>(e: Expr<T>, p: Pool, out: seq<nat>, f: nat, heap: seq<T>)
    requires AllHeld(p, Leaves(e), out) && AllFlagged(Leaves(e)) && Positive(out) && |heap| == p.length
    requires LeavesFlat(e, Numel(out)) && f < Numel(out)
    ensures FlatWithin(Leaves(e), f, |heap|) && InBox(out, Unflatten(out, f))
    ensures FlatEval(e, f, heap) == Denote(e, p, out, Unflatten(out, f), heap)
    decreases e
  {
    hide FlatIndex, LeafIndex, Unflatten, Numel;
    UnflattenInBox(out, f);
    forall l | l in Leaves(e)
      ensures l.elem.bytes > 0 && |l.sizes| == |l.strides| && 0 <= FlatIndex(l, f) < p.length
    {
      FlatLeafReads(l, out, f);
      IndexInPool(p, l, out, Unflatten(out, f));
    }
    match e
    case Scalar(_) =>
    case Leaf(r) => FlatLeafReads(r, out, f);
    case Data(v) => FlatLeafReads(AsRef(v), out, f);
    case Unary(_, x) => FlatEvalIsDenote(x, p, out, f, heap);
    case Binary(_, x, y) =>
      FlatEvalIsDenote(x, p, out, f, heap);
      FlatEvalIsDenote(y, p, out, f, heap);
    case Trinary(_, x, y, z) =>
      FlatEvalIsDenote(x, p, out, f, heap);
      FlatEvalIsDenote(y, p, out, f, heap);
      FlatEvalIsDenote(z, p, out, f, heap);
  }

  lemma RebasedLeafReads(l: StridedRef, out: seq<nat>, f: nat)
    requires l.elem.bytes > 0 && |l.sizes| == |l.strides| <= |out| && Positive(out) && f < Numel(out)
    ensures FlatIndex(RebasedLeaf(l, out), f) == LeafIndex(l, Unflatten(out, f))
  {
    var strides := BroadcastStrides(|out|, l.sizes, l.strides);
    RebasedReads(l, out, f);
    if RebasedLeaf(l, out).contiguous {
      PackedTestsAgree(out, strides, 1);
      PackedOffset(out, strides, 1, f);
      TimesOne(f);
    }
    hide Times;
  }

  /** Strategy two: the rewritten tree, read flat, is the reference semantics for any strides and broadcasting. */
  lemma {:induction false} RebasedEvalIsDenote<T>(e: Expr<T>, p: Pool, out: seq<nat>, n: nat, f: nat, heap: seq<T>)
    requires AllHeld(p, Leaves(e), out) && Positive(out) && |heap| == p.length
    requires DataFits(e, n) && f < n && f < Numel(out)
    ensures FlatWithin(Leaves(Rebased(e, out)), f, |heap|) && InBox(out, Unflatten(out, f))
    ensures FlatEval(Rebased(e, out), f, heap) == Denote(e, p, out, Unflatten(out, f), heap)
    decreases e
  {
    hide FlatIndex, LeafIndex, Unflatten, Numel, RebasedLeaf;
    UnflattenInBox(out, f);
    match e
    case Scalar(_) =>
    case Leaf(r) =>
      assert r in Leaves(e);
      RebasedLeafReads(r, out, f);
      IndexInPool(p, r, out, Unflatten(out, f));
    case Data(v) =>
      assert AsRef(v) in Leaves(e);
      DataReads(v, out, f);
      IndexInPool(p, AsRef(v), out, Unflatten(out, f));
    case Unary(_, x) => RebasedEvalIsDenote(x, p, out, n, f, heap);
    case Binary(_, x, y) =>
      RebasedEvalIsDenote(x, p, out, n, f, heap);
      RebasedEvalIsDenote(y, p, out, n, f, heap);
    case Trinary(_, x, y, z) =>
      RebasedEvalIsDenote(x, p, out, n, f, heap);
      RebasedEvalIsDenote(y, p, out, n, f, heap);
      RebasedEvalIsDenote(z, p, out, n, f, heap);
  }

  lemma DataReads(v: DataView, out: seq<nat>, f: nat)
    requires AsRef(v).Valid() && Expands([v.size], out) && Positive(out) && f < v.size && f < Numel(out)
    ensures FlatIndex(AsRef(v), f) == LeafIndex(AsRef(v), Unflatten(out, f))
  {
    var n, c := |out| - 1, Unflatten(out, f);
    var i := Project([v.size], c);
    assert v.size == 1 || v.size == out[n];
    assert c[n] == f % out[n];
    assert i == [f] by {
      if v.size != 1 {
        DivModUnique(f, 0, f, out[n]);
      }
    }
    DotSingle(1, f);
    TimesOne(f);
    hide Times, Dot;
  }

  lemma DotSingle(s: int, x: int)
    ensures Dot([s], [x]) == Times(s, x)
  {
  }
}
