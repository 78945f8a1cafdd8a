/** Assigning an expression to a tensor or view through its cached state (tensor.h, `assign`). */
module TensorAssign {
  import opened Layout
  import opened StridedRefs
  import opened Axes
  import opened Packing
  import opened Exprs
  import opened Pools
  import opened Assignments
  import opened Schedules
  import opened Kernels
  import opened Planned
  import opened Flats
  import opened Evaluators
  import opened Tensors

  /** The caches answer the questions the evaluator asks; owners are packed, so their flag needs no test. */
  lemma CachesSuffice(t: Tensor, simd: Simd)
    requires t.Cached(simd) && (!t.isView && t.numel > 0 ==> Packed(t.sizes, t.strides))
    ensures var dst := t.ToStridedRef();
            && Flagged(dst) && DestinationBody(dst, t.body, simd)
            && (t.nonOverlapping <==> dst.numel == 0 || Separated(AxesOf(dst.sizes, dst.strides)))
  {
    if !t.isView && t.numel > 0 {
      NumelPositive(t.sizes);
      OwnerSeparated(t.sizes, t.strides);
    }
  }

  /**
   * `t = e`: completed, the tensor holds the meaning of `e` at every coordinate, read from memory as it
   * was before, and nothing else changed; otherwise nothing changed at all.
   */
  method AssignTensor<T>(t: Tensor, e: Expr<T>, heap: array<T>, simd: Simd, parallel: bool, schedule: Schedule, ghost p: Pool)
    returns (status: AssignStatus)
    requires simd.Valid() && Partitions(schedule) && heap.Length == p.length
    requires t.Cached(simd) && (!t.isView && t.numel > 0 ==> Packed(t.sizes, t.strides))
    requires Holds(p, t.ToStridedRef()) && Stored(e, t.ToStridedRef(), p)
    modifies heap
    ensures status.InternalOverlap? <==> !t.nonOverlapping
    ensures status.WrongPlacement? <==> t.nonOverlapping && !AllAt(Leaves(e), PlaceOf(t.ToStridedRef()))
    ensures status.SourceOverlap? <==>
              && t.nonOverlapping && AllAt(Leaves(e), PlaceOf(t.ToStridedRef()))
              && !AllAllowed(t.ToStridedRef(), Leaves(e), false)
    ensures status.SourceOverlap? ==> FirstVerdict(status.check, t.ToStridedRef(), Leaves(e), false)
    ensures status.NotRun? ==> (
      && t.nonOverlapping && AllAt(Leaves(e), PlaceOf(t.ToStridedRef())) && AllAllowed(t.ToStridedRef(), Leaves(e), false)
      && !status.run.Ran? && (status.run.ShapeMismatch? <==> !ResultShape(e, t.sizes))
      && (status.run.OperandLimit? ==> |Leaves(e)| >= MAX_OPERANDS && !TakesFlatPath(e, t.ToStridedRef())))
    ensures status.Completed? ==> (
      && ResultShape(e, t.sizes) && (|Leaves(e)| < MAX_OPERANDS || TakesFlatPath(e, t.ToStridedRef()))
      && AllAllowed(t.ToStridedRef(), Leaves(e), false)
      && AllHeld(p, Leaves(e), t.sizes)
      && Assigned(e, t.ToStridedRef(), p, old(heap[..]), heap[..]))
    ensures !status.Completed? ==> heap[..] == old(heap[..])
  {
    hide *;
    CachesSuffice(t, simd);
    status := Assign(e, t.ToStridedRef(), t.nonOverlapping, t.body, heap, simd, parallel, schedule, p);
    SizesOfRef(t);
  }

  lemma SizesOfRef(t: Tensor)
    ensures t.ToStridedRef().sizes == t.sizes
  {
  }
}
