/**
 * CPU memory as a pool of equally wide elements, the reference meaning of an expression over it, and
 * the overlap check of a whole assignment (overlap.h).
 */
module Pools {
  import opened Arith
  import opened Layout
  import opened StridedRefs
  import opened Shapes
  import opened Axes
  import opened Lattice
  import opened Overlap
  import opened Exprs

  datatype Pool = Pool(elem: Elem, deviceIndex: int, length: nat)

  /** Pool element at which a descriptor starts. */
  function Base(r: StridedRef): int
    requires r.elem.bytes > 0
  {
    r.address / r.elem.bytes
  }

  /** The descriptor is an aligned CPU view of pool elements that all exist. */
  ghost predicate Holds(p: Pool, r: StridedRef) {
    && r.Valid()
    && r.elem == p.elem && r.device == CPU && r.deviceIndex == p.deviceIndex
    && r.address % r.elem.bytes == 0
    && (r.numel > 0 ==> r.address != 0 && Base(r) + Extent(r.sizes, r.strides) < p.length)
  }

  ghost predicate AllHeld(p: Pool, ls: seq<StridedRef>, out: seq<nat>) {
    forall l :: l in ls ==> Holds(p, l) && Expands(l.sizes, out)
  }

  /** Pool element that a leaf reads for result coordinate `c`. */
  function LeafIndex(l: StridedRef, c: seq<int>): int
    requires l.elem.bytes > 0 && |l.sizes| == |l.strides| <= |c|
  {
    Base(l) + Dot(l.strides, Project(l.sizes, c))
  }

  lemma IndexInPool(p: Pool, l: StridedRef, out: seq<nat>, c: seq<int>)
    requires Holds(p, l) && Expands(l.sizes, out) && InBox(out, c)
    ensures 0 <= LeafIndex(l, c) < p.length
  {
    HeldExtent(p, l);
    ProjectInBox(l.sizes, out, c);
    hide Holds, Expands, Numel, Extent, Dot, InBox, Base, StridedRef.Valid;
    FlattenInRange(l.sizes, Project(l.sizes, c));
    DotWithinExtent(l.sizes, l.strides, Project(l.sizes, c));
  }

  lemma HeldExtent(p: Pool, l: StridedRef)
    requires Holds(p, l)
    ensures l.elem.bytes > 0 && |l.sizes| == |l.strides| && NonNegative(l.strides) && Base(l) >= 0
    ensures Numel(l.sizes) > 0 ==> Base(l) + Extent(l.sizes, l.strides) < p.length
  {
    hide Numel, Extent;
  }

  /** The reference meaning: the operators applied to the elements that broadcasting selects. */
  ghost function Denote<T>(e: Expr<T>, p: Pool, out: seq<nat>, c: seq<int>, heap: seq<T>): T
    requires AllHeld(p, Leaves(e), out) && InBox(out, c) && |heap| == p.length
  {
    match e
    case Scalar(v) => v
    case Leaf(r) =>
      assert r in Leaves(e);
      IndexInPool(p, r, out, c);
      heap[LeafIndex(r, c)]
    case Data(v) =>
      assert AsRef(v) in Leaves(e);
      IndexInPool(p, AsRef(v), out, c);
      heap[LeafIndex(AsRef(v), c)]
    case Unary(f, x) => f(Denote(x, p, out, c, heap))
    case Binary(f, x, y) => f(Denote(x, p, out, c, heap), Denote(y, p, out, c, heap))
    case Trinary(f, x, y, z) =>
      f(Denote(x, p, out, c, heap), Denote(y, p, out, c, heap), Denote(z, p, out, c, heap))
  }

  /** The values the leaves read, in tree order. */
  ghost function LeafValues<T>(ls: seq<StridedRef>, p: Pool, out: seq<nat>, c: seq<int>, heap: seq<T>): (g: seq<T>)
    requires AllHeld(p, ls, out) && InBox(out, c) && |heap| == p.length
    ensures |g| == |ls|
  {
    seq(|ls|, k requires 0 <= k < |ls| =>
      assert ls[k] in ls;
      IndexInPool(p, ls[k], out, c);
      heap[LeafIndex(ls[k], c)])
  }

  /** The meaning depends on the leaves only through the values they read, taken in tree order. */
  lemma {:induction false} DenoteReadsLeaves<T>(e: Expr<T>, p: Pool, out: seq<nat>, c: seq<int>, heap: seq<T>)
    requires AllHeld(p, Leaves(e), out) && InBox(out, c) && |heap| == p.length
    ensures Denote(e, p, out, c, heap) == EvalAt(e, LeafValues(Leaves(e), p, out, c, heap))
    decreases e
  {
    hide *;
    PartsHeld(e, p, out);
    match e
    case Scalar(_) => ReadsOwnLeaf(e, p, out, c, heap);
    case Leaf(_) => ReadsOwnLeaf(e, p, out, c, heap);
    case Data(_) => ReadsOwnLeaf(e, p, out, c, heap);
    case Unary(_, x) =>
      DenoteReadsLeaves(x, p, out, c, heap);
      ReadsPart(e, p, out, c, heap);
    case Binary(_, x, y) =>
      DenoteReadsLeaves(x, p, out, c, heap);
      DenoteReadsLeaves(y, p, out, c, heap);
      ReadsTwoParts(e, p, out, c, heap);
    case Trinary(_, x, y, z) =>
      DenoteReadsLeaves(x, p, out, c, heap);
      DenoteReadsLeaves(y, p, out, c, heap);
      DenoteReadsLeaves(z, p, out, c, heap);
      ReadsThreeParts(e, p, out, c, heap);
  }

  lemma PartsHeld<T>(e: Expr<T>, p: Pool, out: seq<nat>)
    requires AllHeld(p, Leaves(e), out)
    ensures e.Unary? ==> AllHeld(p, Leaves(e.rhs), out)
    ensures e.Binary? ==> AllHeld(p, Leaves(e.lhs), out) && AllHeld(p, Leaves(e.rhs), out)
    ensures e.Trinary? ==> AllHeld(p, Leaves(e.lhs), out) && AllHeld(p, Leaves(e.mhs), out) && AllHeld(p, Leaves(e.rhs), out)
  {
    hide Holds, Expands;
  }

  lemma ReadsOwnLeaf<T>(e: Expr<T>, p: Pool, out: seq<nat>, c: seq<int>, heap: seq<T>)
    requires AllHeld(p, Leaves(e), out) && InBox(out, c) && |heap| == p.length && (e.Scalar? || e.Leaf? || e.Data?)
    ensures Denote(e, p, out, c, heap) == EvalAt(e, LeafValues(Leaves(e), p, out, c, heap))
  {
    hide AllHeld, InBox, LeafIndex;
  }

  lemma ReadsPart<T>(e: Expr<T>, p: Pool, out: seq<nat>, c: seq<int>, heap: seq<T>)
    requires e.Unary? && AllHeld(p, Leaves(e), out) && AllHeld(p, Leaves(e.rhs), out) && InBox(out, c) && |heap| == p.length
    requires Denote(e.rhs, p, out, c, heap) == EvalAt(e.rhs, LeafValues(Leaves(e.rhs), p, out, c, heap))
    ensures Denote(e, p, out, c, heap) == EvalAt(e, LeafValues(Leaves(e), p, out, c, heap))
  {
    hide AllHeld, InBox, LeafValues;
  }

  lemma ReadsTwoParts<T>(e: Expr<T>, p: Pool, out: seq<nat>, c: seq<int>, heap: seq<T>)
    requires e.Binary? && AllHeld(p, Leaves(e), out) && InBox(out, c) && |heap| == p.length
    requires AllHeld(p, Leaves(e.lhs), out) && AllHeld(p, Leaves(e.rhs), out)
    requires Denote(e.lhs, p, out, c, heap) == EvalAt(e.lhs, LeafValues(Leaves(e.lhs), p, out, c, heap))
    requires Denote(e.rhs, p, out, c, heap) == EvalAt(e.rhs, LeafValues(Leaves(e.rhs), p, out, c, heap))
    ensures Denote(e, p, out, c, heap) == EvalAt(e, LeafValues(Leaves(e), p, out, c, heap))
  {
    LeafValuesConcat(Leaves(e.lhs), Leaves(e.rhs), p, out, c, heap);
    hide AllHeld, InBox, LeafValues;
  }

  lemma ReadsThreeParts<T>(e: Expr<T>, p: Pool, out: seq<nat>, c: seq<int>, heap: seq<T>)
    requires e.Trinary? && AllHeld(p, Leaves(e), out) && InBox(out, c) && |heap| == p.length
    requires AllHeld(p, Leaves(e.lhs), out) && AllHeld(p, Leaves(e.mhs), out) && AllHeld(p, Leaves(e.rhs), out)
    requires Denote(e.lhs, p, out, c, heap) == EvalAt(e.lhs, LeafValues(Leaves(e.lhs), p, out, c, heap))
    requires Denote(e.mhs, p, out, c, heap) == EvalAt(e.mhs, LeafValues(Leaves(e.mhs), p, out, c, heap))
    requires Denote(e.rhs, p, out, c, heap) == EvalAt(e.rhs, LeafValues(Leaves(e.rhs), p, out, c, heap))
    ensures Denote(e, p, out, c, heap) == EvalAt(e, LeafValues(Leaves(e), p, out, c, heap))
  {
    hide *;
    LeafValuesThree(Leaves(e.lhs), Leaves(e.mhs), Leaves(e.rhs), p, out, c, heap);
    DenoteThree(e, p, out, c, heap);
    EvalThree(e, LeafValues(Leaves(e), p, out, c, heap));
  }

  lemma DenoteThree<T>(e: Expr<T>, p: Pool, out: seq<nat>, c: seq<int>, heap: seq<T>)
    requires e.Trinary? && AllHeld(p, Leaves(e), out) && InBox(out, c) && |heap| == p.length
    requires AllHeld(p, Leaves(e.lhs), out) && AllHeld(p, Leaves(e.mhs), out) && AllHeld(p, Leaves(e.rhs), out)
    ensures Leaves(e) == Leaves(e.lhs) + Leaves(e.mhs) + Leaves(e.rhs)
    ensures Denote(e, p, out, c, heap)
         == e.op3(Denote(e.lhs, p, out, c, heap), Denote(e.mhs, p, out, c, heap), Denote(e.rhs, p, out, c, heap))
  {
    hide AllHeld, InBox;
  }

  lemma EvalThree<T>(e: Expr<T>, vals: seq<T>)
    requires e.Trinary? && |vals| == |Leaves(e)|
    ensures var n, m := |Leaves(e.lhs)|, |Leaves(e.lhs)| + |Leaves(e.mhs)|;
            && |vals| == m + |Leaves(e.rhs)|
            && EvalAt(e, vals) == e.op3(EvalAt(e.lhs, vals[..n]), EvalAt(e.mhs, vals[n..m]), EvalAt(e.rhs, vals[m..]))
  {
  }

  lemma LeafValuesThree<T>(a: seq<StridedRef>, b: seq<StridedRef>, d: seq<StridedRef>, p: Pool, out: seq<nat>, c: seq<int>,
                           heap: seq<T>)
    requires AllHeld(p, a, out) && AllHeld(p, b, out) && AllHeld(p, d, out) && InBox(out, c) && |heap| == p.length
    ensures AllHeld(p, a + b + d, out)
    ensures var g, n, m := LeafValues(a + b + d, p, out, c, heap), |a|, |a| + |b|;
            && g[..n] == LeafValues(a, p, out, c, heap) && g[n..m] == LeafValues(b, p, out, c, heap)
            && g[m..] == LeafValues(d, p, out, c, heap)
  {
    hide *;
    LeafValuesConcat(a, b, p, out, c, heap);
    LeafValuesConcat(a + b, d, p, out, c, heap);
    var g, n, m := LeafValues(a + b + d, p, out, c, heap), |a|, |a| + |b|;
    assert g[..m][..n] == g[..n] && g[..m][n..] == g[n..m];
  }

  lemma LeafValuesConcat<T>(a: seq<StridedRef>, b: seq<StridedRef>, p: Pool, out: seq<nat>, c: seq<int>, heap: seq<T>)
    requires AllHeld(p, a, out) && AllHeld(p, b, out) && InBox(out, c) && |heap| == p.length
    ensures AllHeld(p, a + b, out)
    ensures LeafValues(a + b, p, out, c, heap)[..|a|] == LeafValues(a, p, out, c, heap)
    ensures LeafValues(a + b, p, out, c, heap)[|a|..] == LeafValues(b, p, out, c, heap)
  {
    forall l | l in a + b ensures Holds(p, l) && Expands(l.sizes, out) {
      assert l in a || l in b;
    }
  }

  // ----- the overlap check of an assignment -----

  datatype CheckResult = Accepted | PartialOverlap | UnprovenOverlap

  ghost predicate IdenticalMapping(dst: StridedRef, l: StridedRef)
    requires |dst.sizes| == |dst.strides|
  {
    dst.elem == l.elem && SameMapping(dst, l) && Proven(dst)
  }

  /** What the check asks of one leaf. `noalias` waives only the layouts the classifier declines. */
  ghost predicate LeafAllowed(dst: StridedRef, l: StridedRef, noalias: bool)
    requires dst.Valid() && l.Valid()
  {
    if Declined(dst, l) then noalias else !SharesByte(dst, l) || IdenticalMapping(dst, l)
  }

  ghost predicate AllValid(ls: seq<StridedRef>) {
    forall l :: l in ls ==> l.Valid()
  }

  ghost predicate AllAllowed(dst: StridedRef, ls: seq<StridedRef>, noalias: bool)
    requires dst.Valid() && AllValid(ls)
  {
    forall l :: l in ls ==> LeafAllowed(dst, l, noalias)
  }

  lemma SharingRangesMeet(a: StridedRef, b: StridedRef)
    requires a.Valid() && b.Valid() && SharesByte(a, b)
    ensures RangesMeet(a, b)
  {
    var x :| a.TouchesByte(x) && b.TouchesByte(x);
    if a.numel == 0 { EmptyTouchesNothing(a, x); }
    if b.numel == 0 { EmptyTouchesNothing(b, x); }
    if a.EndAddress() <= b.address || b.EndAddress() <= a.address {
      DisjointRanges(a, b);
    }
  }

  /** The reason for which one leaf is refused. */
  ghost predicate Refuses(r: CheckResult, dst: StridedRef, l: StridedRef, noalias: bool)
    requires dst.Valid() && l.Valid()
  {
    && !r.Accepted?
    && (r.PartialOverlap? <==> !Declined(dst, l) && SharesByte(dst, l) && !IdenticalMapping(dst, l))
    && (r.UnprovenOverlap? <==> Declined(dst, l) && !noalias)
  }

  /** Leaf `i` is refused for the reason `r`, and none before it is refused. */
  ghost predicate FirstRefused(r: CheckResult, dst: StridedRef, ls: seq<StridedRef>, noalias: bool, i: nat)
    requires dst.Valid() && AllValid(ls)
  {
    i < |ls| && AllAllowed(dst, ls[..i], noalias) && Refuses(r, dst, ls[i], noalias)
  }

  /** `r` is the verdict on the first refused leaf. */
  ghost predicate FirstVerdict(r: CheckResult, dst: StridedRef, ls: seq<StridedRef>, noalias: bool)
    requires dst.Valid() && AllValid(ls)
  {
    exists i: nat :: FirstRefused(r, dst, ls, noalias, i)
  }

  lemma AllowedConcat(dst: StridedRef, a: seq<StridedRef>, b: seq<StridedRef>, noalias: bool)
    requires dst.Valid() && AllValid(a) && AllValid(b)
    ensures AllValid(a + b)
    ensures AllAllowed(dst, a + b, noalias) <==> AllAllowed(dst, a, noalias) && AllAllowed(dst, b, noalias)
  {
    hide *;
    assert forall l :: l in a + b <==> l in a || l in b;
    AllValidMeans(a);
    AllValidMeans(b);
    AllValidMeans(a + b);
    AllAllowedMeans(dst, a, noalias);
    AllAllowedMeans(dst, b, noalias);
    AllAllowedMeans(dst, a + b, noalias);
  }

  lemma AllValidMeans(ls: seq<StridedRef>)
    ensures AllValid(ls) <==> forall l :: l in ls ==> l.Valid()
  {
  }

  lemma AllAllowedMeans(dst: StridedRef, ls: seq<StridedRef>, noalias: bool)
    requires dst.Valid() && AllValid(ls)
    ensures AllAllowed(dst, ls, noalias) <==> forall l :: l in ls ==> LeafAllowed(dst, l, noalias)
  {
  }

  lemma OneVerdict(r: CheckResult, dst: StridedRef, l: StridedRef, noalias: bool)
    requires dst.Valid() && l.Valid()
    ensures AllValid([l]) && (AllAllowed(dst, [l], noalias) <==> LeafAllowed(dst, l, noalias))
    ensures Refuses(r, dst, l, noalias) ==> FirstVerdict(r, dst, [l], noalias)
  {
    assert l in [l];
    if Refuses(r, dst, l, noalias) {
      hide LeafAllowed, Refuses, StridedRef.Valid;
      assert FirstRefused(r, dst, [l], noalias, 0);
    }
  }

  /** The first refused leaf of a list is the first of its front, or, if none there is refused, of its back. */
  lemma VerdictConcat(r: CheckResult, dst: StridedRef, a: seq<StridedRef>, b: seq<StridedRef>, noalias: bool)
    requires dst.Valid() && AllValid(a) && AllValid(b)
    ensures AllValid(a + b)
    ensures FirstVerdict(r, dst, a, noalias) ==> FirstVerdict(r, dst, a + b, noalias)
    ensures AllAllowed(dst, a, noalias) && FirstVerdict(r, dst, b, noalias) ==> FirstVerdict(r, dst, a + b, noalias)
  {
    AllowedConcat(dst, a, b, noalias);
    hide AllAllowed, Refuses, AllValid, StridedRef.Valid;
    if FirstVerdict(r, dst, a, noalias) {
      var i: nat :| FirstRefused(r, dst, a, noalias, i);
      assert (a + b)[..i] == a[..i] && (a + b)[i] == a[i];
      assert FirstRefused(r, dst, a + b, noalias, i);
    }
    if AllAllowed(dst, a, noalias) && FirstVerdict(r, dst, b, noalias) {
      var i: nat :| FirstRefused(r, dst, b, noalias, i);
      assert (a + b)[..|a| + i] == a + b[..i] && (a + b)[|a| + i] == b[i];
      PrefixValid(b, i);
      AllowedConcat(dst, a, b[..i], noalias);
      assert FirstRefused(r, dst, a + b, noalias, |a| + i);
    }
  }

  lemma PrefixValid(ls: seq<StridedRef>, i: nat)
    requires AllValid(ls) && i <= |ls|
    ensures AllValid(ls[..i])
  {
  }

  /** Classifies one leaf against the destination and turns the status into a verdict. */
  method CheckLeaf(l: StridedRef, dst: StridedRef, noalias: bool) returns (r: CheckResult)
    requires dst.Valid() && l.Valid()
    ensures r.Accepted? <==> LeafAllowed(dst, l, noalias)
    ensures r.UnprovenOverlap? <==> !noalias && Declined(dst, l)
    ensures r.PartialOverlap? <==> !Declined(dst, l) && SharesByte(dst, l) && !IdenticalMapping(dst, l)
  {
    var status := ClassifyOverlap(dst, l);
    if SharesByte(dst, l) {
      SharingRangesMeet(dst, l);
    }
    if status == Partial {
      return PartialOverlap;
    }
    if !noalias && status == TooHard {
      return UnprovenOverlap;
    }
    return Accepted;
  }

  /**
   * The recursion over the tree: left to right, stopping at the first refused leaf. `release` is a
   * build without assertions, where `noalias` skips the check altogether; otherwise acceptance is
   * exactly `AllAllowed`.
   */
  method CheckAssignmentOverlap<T>(e: Expr<T>, dst: StridedRef, noalias: bool, release: bool) returns (r: CheckResult)
    requires dst.Valid() && AllValid(Leaves(e))
    ensures r.Accepted? <==> (release && noalias) || AllAllowed(dst, Leaves(e), noalias)
    ensures !r.Accepted? ==> FirstVerdict(r, dst, Leaves(e), noalias)
    decreases e
  {
    hide *;
    if release && noalias {
      return Accepted;
    }
    LeafParts(e);
    match e
    case Scalar(_) =>
      NoneAllowed(dst, noalias);
      return Accepted;
    case Leaf(l) =>
      r := CheckLeaf(l, dst, noalias);
      OneVerdict(r, dst, l, noalias);
      RefusedLeaf(r, dst, l, noalias);
    case Data(v) =>
      r := CheckLeaf(AsRef(v), dst, noalias);
      OneVerdict(r, dst, AsRef(v), noalias);
      RefusedLeaf(r, dst, AsRef(v), noalias);
    case Unary(_, x) =>
      r := CheckAssignmentOverlap(x, dst, noalias, release);
    case Binary(_, x, y) =>
      AllowedConcat(dst, Leaves(x), Leaves(y), noalias);
      r := CheckAssignmentOverlap(x, dst, noalias, release);
      if r.Accepted? {
        r := CheckAssignmentOverlap(y, dst, noalias, release);
      }
      VerdictConcat(r, dst, Leaves(x), Leaves(y), noalias);
    case Trinary(_, x, y, z) =>
      AllowedConcat(dst, Leaves(x), Leaves(y), noalias);
      AllowedConcat(dst, Leaves(x) + Leaves(y), Leaves(z), noalias);
      r := CheckAssignmentOverlap(x, dst, noalias, release);
      if r.Accepted? {
        r := CheckAssignmentOverlap(y, dst, noalias, release);
      }
      VerdictConcat(r, dst, Leaves(x), Leaves(y), noalias);
      if r.Accepted? {
        r := CheckAssignmentOverlap(z, dst, noalias, release);
      }
      VerdictConcat(r, dst, Leaves(x) + Leaves(y), Leaves(z), noalias);
  }

  lemma NoneAllowed(dst: StridedRef, noalias: bool)
    requires dst.Valid()
    ensures AllAllowed(dst, [], noalias)
  {
  }

  lemma RefusedLeaf(r: CheckResult, dst: StridedRef, l: StridedRef, noalias: bool)
    requires dst.Valid() && l.Valid()
    requires r.UnprovenOverlap? <==> !noalias && Declined(dst, l)
    requires r.PartialOverlap? <==> !Declined(dst, l) && SharesByte(dst, l) && !IdenticalMapping(dst, l)
    ensures !r.Accepted? ==> Refuses(r, dst, l, noalias)
  {
  }

  /** The leaves of a tree are those of its parts, in order. */
  lemma LeafParts<T>(e: Expr<T>)
    requires AllValid(Leaves(e))
    ensures e.Scalar? ==> Leaves(e) == []
    ensures e.Leaf? ==> Leaves(e) == [e.ref] && e.ref.Valid()
    ensures e.Data? ==> Leaves(e) == [AsRef(e.view)] && AsRef(e.view).Valid()
    ensures e.Unary? ==> Leaves(e) == Leaves(e.rhs)
    ensures e.Binary? ==> Leaves(e) == Leaves(e.lhs) + Leaves(e.rhs) && AllValid(Leaves(e.lhs)) && AllValid(Leaves(e.rhs))
    ensures e.Trinary? ==> (
      && Leaves(e) == Leaves(e.lhs) + Leaves(e.mhs) + Leaves(e.rhs)
      && AllValid(Leaves(e.lhs)) && AllValid(Leaves(e.mhs)) && AllValid(Leaves(e.rhs)))
  {
    hide StridedRef.Valid;
    assert e.Leaf? ==> e.ref in Leaves(e);
    assert e.Data? ==> AsRef(e.view) in Leaves(e);
  }

  // ----- what an accepted assignment guarantees -----

  /** No element is read for one coordinate and written for another. */
  ghost predicate NoHazard(dst: StridedRef, ls: seq<StridedRef>, p: Pool)
    requires Holds(p, dst) && AllHeld(p, ls, dst.sizes)
  {
    forall l, c, c' :: l in ls && InBox(dst.sizes, c) && InBox(dst.sizes, c') && LeafIndex(l, c) == LeafIndex(dst, c') ==> c == c'
  }

  lemma IndexToByte(r: StridedRef, c: seq<int>)
    requires r.elem.bytes > 0 && r.address % r.elem.bytes == 0 && |c| == |r.strides|
    ensures r.ByteOf(c) == (Base(r) + Dot(r.strides, c)) * r.elem.bytes
  {
    assert r.address == Base(r) * r.elem.bytes;
    assert (Base(r) + Dot(r.strides, c)) * r.elem.bytes == Base(r) * r.elem.bytes + Dot(r.strides, c) * r.elem.bytes;
  }

  /** A pool element of the view is one of the bytes the descriptor touches. */
  lemma ElementTouched(p: Pool, r: StridedRef, q: seq<int>)
    requires Holds(p, r) && InBox(r.sizes, q)
    ensures r.TouchesByte((Base(r) + Dot(r.strides, q)) * p.elem.bytes)
  {
    FlattenInRange(r.sizes, q);
    TouchFirst(r, q);
    IndexToByte(r, q);
    hide *;
  }

  lemma TouchFirst(r: StridedRef, q: seq<int>)
    requires r.Valid() && r.address != 0 && InBox(r.sizes, q)
    ensures r.TouchesByte(r.ByteOf(q))
  {
    TouchIntro(r, q, r.ByteOf(q));
  }

  lemma SameIndexSharesByte(p: Pool, dst: StridedRef, l: StridedRef, c: seq<int>, c': seq<int>)
    requires Holds(p, dst) && Holds(p, l) && Expands(l.sizes, dst.sizes)
    requires InBox(dst.sizes, c) && InBox(dst.sizes, c') && LeafIndex(l, c) == LeafIndex(dst, c')
    ensures SharesByte(dst, l)
  {
    hide Dot, Numel, Extent, StridedRef.TouchesByte, StridedRef.Valid;
    ProjectInBox(l.sizes, dst.sizes, c);
    ProjectSameShape(dst.sizes, c');
    ElementTouched(p, l, Project(l.sizes, c));
    ElementTouched(p, dst, c');
  }

  /** An accepted overlap check and an injective destination leave no hazard. */
  lemma AcceptedNoHazard(dst: StridedRef, ls: seq<StridedRef>, p: Pool)
    requires Holds(p, dst) && AllHeld(p, ls, dst.sizes) && AllAllowed(dst, ls, false)
    ensures NoHazard(dst, ls, p)
  {
    forall l, c, c' | l in ls && InBox(dst.sizes, c) && InBox(dst.sizes, c') && LeafIndex(l, c) == LeafIndex(dst, c')
      ensures c == c'
    {
      NoSharedIndex(dst, l, ls, p, c, c');
    }
    hide *;
  }

  lemma NoSharedIndex(dst: StridedRef, l: StridedRef, ls: seq<StridedRef>, p: Pool, c: seq<int>, c': seq<int>)
    requires Holds(p, dst) && AllHeld(p, ls, dst.sizes) && AllAllowed(dst, ls, false) && l in ls
    requires InBox(dst.sizes, c) && InBox(dst.sizes, c') && LeafIndex(l, c) == LeafIndex(dst, c')
    ensures c == c'
  {
    assert LeafAllowed(dst, l, false);
    SameIndexSharesByte(p, dst, l, c, c');
    assert IdenticalMapping(dst, l);
    ProjectSameShape(dst.sizes, c);
    ProjectSameShape(dst.sizes, c');
    SeparatedInjective(dst.sizes, dst.strides);
  }
}
