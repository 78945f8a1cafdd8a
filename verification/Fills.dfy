/** Filling a destination with one value (expressions_evaluator.h, `fill`). */
module Fills {
  import opened Arith
  import opened Layout
  import opened StridedRefs
  import opened Shapes
  import opened Packing
  import opened Axes
  import opened Exprs
  import opened Pools
  import opened Sweeps
  import opened Rows
  import opened Assignments
  import opened Spans
  import opened Peels
  import opened Schedules
  import opened Loops
  import opened Planned
  import opened Flats
  import opened Kernels
  import opened Evaluators

  /** The elements of a strided destination in C order. */
  ghost function FillSweep<T>(value: T, dst: StridedRef): (s: Sweep<T>)
    requires dst.elem.bytes > 0 && |dst.sizes| == |dst.strides| && Positive(dst.sizes)
    ensures s.e == Expr.Scalar(value) && |s.writes| == |s.sources| == Numel(dst.sizes)
    ensures forall g :: 0 <= g < |s.writes| ==>
              s.writes[g] == Base(dst) + FlatOffset(dst.sizes, dst.strides, g) && s.sources[g] == []
  {
    var n := Numel(dst.sizes);
    Sweep(Expr.Scalar(value), seq(n, g requires 0 <= g < n => Base(dst) + FlatOffset(dst.sizes, dst.strides, g)), seq(n, _ => []))
  }

  lemma ScalarSound<T>(value: T, dst: StridedRef, p: Pool)
    requires Holds(p, dst) && Injective(dst.sizes, dst.strides)
    ensures Sound(Expr.Scalar(value), dst, p)
    ensures dst.contiguous && Flagged(dst) ==> FlatSound(Expr.Scalar(value), dst, p)
  {
    hide Injective, Holds;
  }

  lemma FillFollows<T>(value: T, dst: StridedRef, p: Pool)
    requires Holds(p, dst) && Injective(dst.sizes, dst.strides) && Positive(dst.sizes)
    ensures var s := FillSweep(value, dst);
            && Follows(s, dst, FlatCoords(dst.sizes)) && s.Fits(p.length) && s.Safe()
  {
    hide LeafIndex, Unflatten, Numel, Base, NoHazard, Injective, Enumerates, FlatOffset;
    var s := FillSweep(value, dst);
    ScalarSound(value, dst, p);
    FlatEnumerates(dst.sizes);
    forall g | 0 <= g < |s.writes| ensures s.writes[g] == LeafIndex(dst, Unflatten(dst.sizes, g)) {
      ElementAt(dst, p, g);
    }
    FollowsFits(s, dst, p, FlatCoords(dst.sizes));
    FollowsSafe(s, dst, p, FlatCoords(dst.sizes));
  }

  lemma ElementAt(dst: StridedRef, p: Pool, g: nat)
    requires Holds(p, dst) && Positive(dst.sizes) && g < Numel(dst.sizes)
    ensures Base(dst) + FlatOffset(dst.sizes, dst.strides, g) == LeafIndex(dst, Unflatten(dst.sizes, g))
  {
    FlatOffsetIsDot(dst.sizes, dst.strides, g);
    UnflattenInBox(dst.sizes, g);
    ProjectSameShape(dst.sizes, Unflatten(dst.sizes, g));
  }

  /** The loop over a destination that is not contiguous. */
  method FillStrided<T>(value: T, dst: StridedRef, heap: array<T>, ghost p: Pool)
    requires Holds(p, dst) && Injective(dst.sizes, dst.strides) && heap.Length == p.length && !dst.contiguous
    modifies heap
    ensures AllHeld(p, Leaves(Expr.Scalar(value)), dst.sizes)
    ensures Assigned(Expr.Scalar(value), dst, p, old(heap[..]), heap[..])
  {
    hide LeafIndex, Unflatten, Numel, Base, NoHazard, Injective, FlatOffset, Assigned, Follows, Span, Holds;
    ghost var before := heap[..];
    ScalarSound(value, dst, p);
    FilledView(dst, p);
    if dst.numel == 0 {
      EmptyAssigned(Expr.Scalar(value), dst, p, before);
      return;
    }
    NumelPositive(dst.sizes);
    FillFollows(value, dst, p);
    ghost var s := FillSweep(value, dst);
    WroteNothing(s, before, 0);
    for i := 0 to dst.numel
      invariant heap.Length == |before| && s.Wrote(before, heap[..], Span(0, i))
    {
      ghost var now := heap[..];
      var off := StridedOffset(dst.sizes, dst.strides, dst.contiguous, i);
      assert Base(dst) + off == s.writes[i];
      StoreNext(s, before, now, 0, i, value);
      heap[Base(dst) + off] := value;
      assert heap[..] == now[s.writes[i] := value];
    }
    FollowsAssigned(s, dst, p, FlatCoords(dst.sizes), before, heap[..], Span(0, dst.numel));
  }

  lemma FilledView(dst: StridedRef, p: Pool)
    requires Holds(p, dst)
    ensures dst.elem.bytes > 0 && |dst.sizes| == |dst.strides| && dst.numel == Numel(dst.sizes)
    ensures dst.address % dst.elem.bytes == 0 && Base(dst) == dst.address / dst.elem.bytes
  {
  }

  /** The contiguous loops: scalars, aligned registers, unaligned registers, scalars. */
  method FillContiguous<T>(value: T, dst: StridedRef, body: Body, heap: array<T>, simd: Simd, ghost p: Pool)
    requires simd.Valid() && DestinationBody(dst, body, simd) && heap.Length == p.length
    requires Holds(p, dst) && Injective(dst.sizes, dst.strides) && dst.contiguous && Flagged(dst)
    modifies heap
    ensures AllHeld(p, Leaves(Expr.Scalar(value)), dst.sizes)
    ensures Assigned(Expr.Scalar(value), dst, p, old(heap[..]), heap[..])
  {
    hide *;
    ghost var before := heap[..];
    ghost var e := Expr.Scalar(value);
    ScalarSound(value, dst, p);
    FlatSafe(e, dst, p);
    FilledView(dst, p);
    ghost var s := FlatSweep(e, dst);
    var r, n, data, i := RScalar(value), dst.numel, Base(dst), 0;
    assert r == FlatRows(e) by { ScalarRows(value); }
    WroteNothing(s, before, 0);
    if simd.length > 0 {
      AlignPositive(simd);
      BodyOfView(p, dst, body, simd);
      BodyParts(body, data, n, simd);
      var cap, loopPeel := body.first, body.last;
      RunScalars(r, heap, data, n, 0, cap, s, 0, before);
      NoBlocks(simd);
      RunVectors(r, heap, data, n, cap, cap, loopPeel, simd, cap < loopPeel, s, 0, before);
      var loopPeel2 := loopPeel + Peel(n - loopPeel, simd.length);
      RunVectors(r, heap, data, n, loopPeel, loopPeel, loopPeel2, simd, false, s, 0, before);
      i := loopPeel2;
    }
    RunScalars(r, heap, data, n, i, n, s, 0, before);
    FlatAssigns(e, dst, p, before, heap[..]);
  }

  lemma ScalarRows<T>(value: T)
    ensures RScalar(value) == FlatRows(Expr.Scalar(value))
  {
  }

  lemma NoBlocks(simd: Simd)
    requires simd.Valid() && simd.length > 0
    ensures Divides(simd.length * simd.packet, 0)
  {
    BlockSize(simd);
    MultipleOf(0, simd.length * simd.packet);
  }

  /**
   * Fills every element of the destination and touches nothing else; a destination that may overlap
   * itself is refused untouched.
   */
  method Fill<T>(value: T, dst: StridedRef, nonOverlapping: bool, body: Body, heap: array<T>, simd: Simd, ghost p: Pool)
    returns (ok: bool)
    requires simd.Valid() && DestinationBody(dst, body, simd) && heap.Length == p.length && Holds(p, dst) && Flagged(dst)
    requires nonOverlapping <==> dst.numel == 0 || Separated(AxesOf(dst.sizes, dst.strides))
    modifies heap
    ensures ok <==> nonOverlapping
    ensures AllHeld(p, Leaves(Expr.Scalar(value)), dst.sizes)
    ensures ok ==> forall c :: InBox(dst.sizes, c) ==> 0 <= LeafIndex(dst, c) < heap.Length && heap[LeafIndex(dst, c)] == value
    ensures ok ==> forall x :: 0 <= x < heap.Length && (forall c :: InBox(dst.sizes, c) ==> LeafIndex(dst, c) != x)
                               ==> heap[x] == old(heap[x])
    ensures !ok ==> heap[..] == old(heap[..])
  {
    hide LeafIndex, Injective, Holds, Separated;
    ghost var before := heap[..];
    if !nonOverlapping {
      return false;
    }
    HoldsValid(p, dst);
    AcceptedInjective(dst);
    if !dst.contiguous {
      FillStrided(value, dst, heap, p);
    } else {
      FillContiguous(value, dst, body, heap, simd, p);
    }
    FilledEverywhere(value, dst, p, before, heap[..]);
    return true;
  }

  lemma FilledEverywhere<T>(value: T, dst: StridedRef, p: Pool, before: seq<T>, after: seq<T>)
    requires Holds(p, dst) && AllHeld(p, Leaves(Expr.Scalar(value)), dst.sizes) && |before| == p.length
    requires Assigned(Expr.Scalar(value), dst, p, before, after)
    ensures |after| == |before|
    ensures forall c :: InBox(dst.sizes, c) ==> 0 <= LeafIndex(dst, c) < |after| && after[LeafIndex(dst, c)] == value
    ensures forall x :: 0 <= x < |before| && (forall c :: InBox(dst.sizes, c) ==> LeafIndex(dst, c) != x) ==> after[x] == before[x]
  {
    hide LeafIndex;
  }
}
