/** The evaluator and the tensor assignment on top of it (expressions_evaluator.h, tensor.h). */
module Evaluators {
  import opened Arith
  import opened Layout
  import opened StridedRefs
  import opened Shapes
  import opened Packing
  import opened Axes
  import opened Lattice
  import opened Overlap
  import opened Exprs
  import opened Pools
  import opened Sweeps
  import opened Rows
  import opened Assignments
  import opened Spans
  import opened Peels
  import opened Schedules
  import opened Loops
  import opened Planned
  import opened Flats
  import opened Kernels

  // ----- the flat path -----

  /** Iteration `g` writes element `g` of a packed destination and reads element `g` of every packed leaf. */
  ghost function FlatSweep<T>(e: Expr<T>, dst: StridedRef): (s: Sweep<T>)
    requires dst.elem.bytes > 0 && forall l :: l in Leaves(e) ==> l.elem.bytes > 0
    ensures s.e == e && |s.writes| == |s.sources| == dst.numel
    ensures forall g :: 0 <= g < dst.numel ==> s.writes[g] == Base(dst) + g && s.sources[g] == Shifted(Leaves(e), g)
  {
    Sweep(e, seq(dst.numel, g requires 0 <= g < dst.numel => Base(dst) + g),
          seq(dst.numel, g requires 0 <= g < dst.numel => Shifted(Leaves(e), g)))
  }

  ghost function FlatCoords(sizes: seq<nat>): (coords: seq<seq<int>>)
    requires Positive(sizes)
    ensures |coords| == Numel(sizes) && forall g :: 0 <= g < |coords| ==> coords[g] == Unflatten(sizes, g)
  {
    seq(Numel(sizes), g requires 0 <= g < Numel(sizes) => Unflatten(sizes, g))
  }

  /** C order lists every coordinate once. */
  lemma FlatEnumerates(sizes: seq<nat>)
    requires Positive(sizes)
    ensures Enumerates(FlatCoords(sizes), sizes)
  {
    hide *;
    var coords := FlatCoords(sizes);
    forall g | 0 <= g < |coords| ensures InBox(sizes, coords[g]) && |coords[g]| == |sizes| && Flatten(sizes, coords[g]) == g {
      UnflattenInBox(sizes, g);
    }
    forall c | InBox(sizes, c) ensures c in coords {
      FlattenInRange(sizes, c);
      assert coords[Flatten(sizes, c)] == c;
    }
    EnumeratesIntro(coords, sizes);
  }

  /** Everything the flat path needs: views into the pool, no hazard, a packed destination and flat leaves. */
  ghost predicate FlatSound<T>(e: Expr<T>, dst: StridedRef, p: Pool) {
    && Sound(e, dst, p) && dst.contiguous && Flagged(dst)
    && AllFlagged(Leaves(e)) && LeavesFlat(e, dst.numel)
  }

  lemma FlatIteration<T>(e: Expr<T>, dst: StridedRef, p: Pool, g: nat)
    requires FlatSound(e, dst, p) && g < dst.numel
    ensures dst.elem.bytes > 0 && |dst.sizes| == |dst.strides| && Readable(Leaves(e), |dst.sizes|) && Positive(dst.sizes)
    ensures Base(dst) + g == LeafIndex(dst, Unflatten(dst.sizes, g))
    ensures Shifted(Leaves(e), g) == LeafIndices(Leaves(e), Unflatten(dst.sizes, g))
  {
    hide FlatIndex, LeafIndex, Unflatten, Numel, Base, NoHazard, Injective;
    NumelPositive(dst.sizes);
    FlatLeafReads(dst, dst.sizes, g);
    forall k | 0 <= k < |Leaves(e)|
      ensures Base(Leaves(e)[k]) + g == LeafIndex(Leaves(e)[k], Unflatten(dst.sizes, g))
    {
      assert Leaves(e)[k] in Leaves(e);
      FlatLeafReads(Leaves(e)[k], dst.sizes, g);
    }
  }

  /** Flat indexing computes the coordinates of the destination in C order. */
  lemma FlatFollows<T>(e: Expr<T>, dst: StridedRef, p: Pool)
    requires FlatSound(e, dst, p) && dst.numel > 0
    ensures dst.elem.bytes > 0 && Readable(Leaves(e), |dst.sizes|) && |dst.sizes| == |dst.strides| && Positive(dst.sizes)
    ensures Follows(FlatSweep(e, dst), dst, FlatCoords(dst.sizes))
  {
    hide LeafIndex, Unflatten, Numel, Base, NoHazard, Injective, LeafIndices, Shifted, Enumerates;
    FlatIteration(e, dst, p, 0);
    FlatEnumerates(dst.sizes);
    forall g | 0 <= g < dst.numel
      ensures Base(dst) + g == LeafIndex(dst, Unflatten(dst.sizes, g))
      ensures Shifted(Leaves(e), g) == LeafIndices(Leaves(e), Unflatten(dst.sizes, g))
    {
      FlatIteration(e, dst, p, g);
    }
  }

  lemma FlatSafe<T>(e: Expr<T>, dst: StridedRef, p: Pool)
    requires FlatSound(e, dst, p)
    ensures dst.elem.bytes > 0 && forall l :: l in Leaves(e) ==> l.elem.bytes > 0
    ensures FlatSweep(e, dst).Fits(p.length) && FlatSweep(e, dst).Safe()
    ensures RowOf(FlatSweep(e, dst), 0, dst.numel, FlatRows(e), Base(dst), 1) && UnitOrSplat(FlatRows(e))
  {
    hide LeafIndex, Unflatten, Numel, Base, NoHazard, Injective, Shifted, Follows, FlatRows, Positions;
    FlatRowsTree(e);
    forall i | 0 <= i < dst.numel ensures FlatSweep(e, dst).sources[i] == Positions(FlatRows(e), i) {
      FlatPositions(e, i);
    }
    forall i | 0 <= i < dst.numel ensures Base(dst) + i == Base(dst) + Times(1, i) {
      TimesUnit(1, i);
    }
    if dst.numel > 0 {
      FlatFollows(e, dst, p);
      FollowsFits(FlatSweep(e, dst), dst, p, FlatCoords(dst.sizes));
      FollowsSafe(FlatSweep(e, dst), dst, p, FlatCoords(dst.sizes));
    }
  }

  lemma FlatAssigns<T>(e: Expr<T>, dst: StridedRef, p: Pool, before: seq<T>, after: seq<T>)
    requires FlatSound(e, dst, p) && |before| == p.length
    requires dst.elem.bytes > 0 && forall l :: l in Leaves(e) ==> l.elem.bytes > 0
    requires FlatSweep(e, dst).Fits(|before|) && FlatSweep(e, dst).Wrote(before, after, Span(0, dst.numel))
    ensures Holds(p, dst) && AllHeld(p, Leaves(e), dst.sizes) && Assigned(e, dst, p, before, after)
  {
    hide LeafIndex, Unflatten, Numel, Base, NoHazard, Injective, Shifted, Follows, Assigned;
    if dst.numel > 0 {
      FlatFollows(e, dst, p);
      FollowsAssigned(FlatSweep(e, dst), dst, p, FlatCoords(dst.sizes), before, after, Span(0, dst.numel));
    } else {
      assert after == before;
      EmptyAssigned(e, dst, p, before);
    }
  }

  /** Chunks of the flat range `[begin, n)`, in the order of the schedule. */
  method ParallelChunks<T>(r: RowExpr<T>, heap: array<T>, data: int, n: nat, begin: nat, simd: Simd, schedule: Schedule, ghost s: Sweep<T>)
    requires simd.Valid() && UnitOrSplat(r) && begin <= n && Partitions(schedule)
    requires s.Fits(heap.Length) && s.Safe() && RowOf(s, 0, n, r, data, 1)
    modifies heap
    ensures s.Wrote(old(heap[..]), heap[..], Span(begin, n))
  {
    hide *;
    ghost var before := heap[..];
    var chunks := schedule(n - begin, GRAIN_SIZE);
    PartitionAt(schedule, n - begin, GRAIN_SIZE);
    WroteNothing(s, before, begin);
    NoChunks(chunks, begin, 1);
    for k := 0 to |chunks|
      invariant heap.Length == |before| && s.Wrote(before, heap[..], Done(chunks, k, begin, 1))
    {
      ghost var mid := heap[..];
      ChunkBounds(chunks, n - begin, k, begin);
      RunChunkContiguous(r, heap, data, n, begin + chunks[k].first, begin + chunks[k].last, simd, s);
      NextDisjoint(chunks, k, begin, 1, n - begin);
      WroteCompose(s, before, mid, heap[..], Done(chunks, k, begin, 1), ChunkSpan(chunks[k], begin, 1));
      DoneSnoc(chunks, k, begin, 1);
    }
    AllDone(chunks, begin, 1, n - begin);
    UnitSpan(Chunk(0, n - begin), begin);
  }

  lemma NoChunks(chunks: seq<Chunk>, base: nat, n: nat)
    ensures Done(chunks, 0, base, n) == Span(base, base) == {}
  {
  }

  lemma DoneSnoc(chunks: seq<Chunk>, k: nat, base: nat, n: nat)
    requires k < |chunks|
    ensures Done(chunks, k + 1, base, n) == Done(chunks, k, base, n) + ChunkSpan(chunks[k], base, n)
  {
  }

  lemma UnitSpan(chunk: Chunk, base: nat)
    ensures ChunkSpan(chunk, base, 1) == Span(base + chunk.first, base + chunk.last)
  {
  }

  lemma ChunkBounds(chunks: seq<Chunk>, n: nat, k: nat, base: nat)
    requires IsPartition(chunks, n) && k < |chunks|
    ensures chunks[k].first <= chunks[k].last <= n
    ensures ChunkSpan(chunks[k], base, 1) == Span(base + chunks[k].first, base + chunks[k].last)
  {
  }

  /**
   * The contiguous path: scalars up to the aligned start, then either chunks across threads or an
   * aligned body with an unaligned tail, then the remaining scalars.
   */
  method RunFlat<T>(r: RowExpr<T>, heap: array<T>, data: int, n: nat, body: Body, simd: Simd, parallel: bool,
                    schedule: Schedule, ghost s: Sweep<T>)
    requires simd.Valid() && UnitOrSplat(r) && BodyFits(body, data, n, simd) && Partitions(schedule)
    requires s.Fits(heap.Length) && s.Safe() && RowOf(s, 0, n, r, data, 1)
    modifies heap
    ensures s.Wrote(old(heap[..]), heap[..], Span(0, n))
  {
    hide *;
    ghost var before := heap[..];
    var i := 0;
    WroteNothing(s, before, 0);
    if simd.length > 0 {
      AlignPositive(simd);
      BodyParts(body, data, n, simd);
      RunScalars(r, heap, data, n, 0, body.first, s, 0, before);
      i := body.first;
      if i >= n {
        return;
      }
      if parallel && n - i >= GRAIN_SIZE {
        ghost var mid := heap[..];
        ParallelChunks(r, heap, data, n, i, simd, schedule, s);
        NextRows(s, before, mid, heap[..], 0, i, n);
        i := n;
      } else {
        var loopPeel := body.last;
        RunRegisters(r, heap, data, n, i, loopPeel, simd, i < loopPeel, s, before);
        var loopPeel2 := loopPeel + Peel(n - loopPeel, simd.length);
        RunRegisters(r, heap, data, n, loopPeel, loopPeel2, simd, false, s, before);
        i := loopPeel2;
      }
    }
    RunScalars(r, heap, data, n, i, n, s, 0, before);
  }

  lemma BodyParts(body: Body, data: int, n: nat, simd: Simd)
    requires BodyFits(body, data, n, simd)
    ensures body.first <= body.last <= n
    ensures simd.length > 0 ==> Divides(simd.length, body.last - body.first)
    ensures body.first < body.last ==> Divides(simd.align, data + body.first)
  {
  }

  lemma AlignPositive(simd: Simd)
    requires simd.Valid()
    ensures simd.align > 0 && simd.packet > 0
  {
  }

  /** Unrolled and single registers over `[begin, end)`. */
  method RunRegisters<T>(r: RowExpr<T>, heap: array<T>, data: int, n: nat, begin: nat, end: nat, simd: Simd, aligned: bool,
                         ghost s: Sweep<T>, ghost before: seq<T>)
    requires simd.Valid() && simd.length > 0 && UnitOrSplat(r) && begin <= end <= n && Divides(simd.length, end - begin)
    requires aligned ==> Divides(simd.align, data + begin)
    requires s.Fits(heap.Length) && s.Safe() && RowOf(s, 0, n, r, data, 1)
    requires |before| == heap.Length && s.Wrote(before, heap[..], Span(0, begin))
    modifies heap
    ensures s.Wrote(before, heap[..], Span(0, end))
  {
    hide *;
    BlockSize(simd);
    var blockEnd := begin + Peel(end - begin, simd.length * simd.packet);
    RunVectors(r, heap, data, n, begin, blockEnd, end, simd, aligned, s, 0, before);
  }

  // ----- choosing the path -----

  /** `out` is the broadcast shape of the operands: every leaf expands to it, and it is the least such shape. */
  ghost predicate ResultShape<T>(e: Expr<T>, out: seq<nat>) {
    RanksFit(e) && AllExpand(e, out) && forall t :: AllExpand(e, t) ==> Expands(out, t)
  }

  /** A leaf to whose shape all others expand gives the result its shape. */
  lemma LeafGivesShape<T>(e: Expr<T>, l: StridedRef)
    requires l in Leaves(e) && forall k :: k in Leaves(e) ==> |k.sizes| <= 8 && Expands(k.sizes, l.sizes)
    ensures ResultShape(e, l.sizes)
  {
  }

  lemma LeastShapeUnique<T>(e: Expr<T>, a: seq<nat>, b: seq<nat>)
    requires ResultShape(e, a) && ResultShape(e, b)
    ensures a == b
  {
    assert Expands(a, b) && Expands(b, a);
    forall d | 0 <= d < |a| ensures a[d] == b[d] {
      assert a[d] == 1 || a[d] == b[d + |b| - |a|];
      assert b[d] == 1 || b[d] == a[d + |a| - |b|];
    }
  }

  datatype RunStatus = Ran | ShapeMismatch | OperandLimit

  /** All leaves are views into the pool; their flags are right. */
  ghost predicate Operable<T>(e: Expr<T>, p: Pool) {
    forall l :: l in Leaves(e) ==> Holds(p, l) && Flagged(l)
  }

  lemma OperableHeld<T>(e: Expr<T>, p: Pool, out: seq<nat>)
    requires Operable(e, p) && AllExpand(e, out)
    ensures AllHeld(p, Leaves(e), out) && AllFlagged(Leaves(e))
  {
  }

  /** No element is read for one coordinate and written for another, if the operands fit the destination at all. */
  ghost predicate Unhazardous<T>(e: Expr<T>, dst: StridedRef, p: Pool) {
    Holds(p, dst) && (AllHeld(p, Leaves(e), dst.sizes) ==> NoHazard(dst, Leaves(e), p))
  }

  /** The cached body of a contiguous destination is right. */
  ghost predicate DestinationBody(dst: StridedRef, body: Body, simd: Simd) {
    dst.contiguous && dst.elem.bytes > 0 ==> BodyFits(body, Base(dst), dst.numel, simd)
  }

  /** The case in which more leaves than the operand table holds are still fine. */
  predicate TakesFlatPath<T>(e: Expr<T>, dst: StridedRef) {
    LeavesFlat(e, dst.numel) && dst.contiguous
  }

  /**
   * Evaluates an expression into a CPU destination. It is refused exactly when the broadcast shape of
   * the operands is not the destination's shape, or a planned path would need too many operands.
   * Otherwise every path - planned rows or flat registers, one thread or many - leaves in memory
   * what the reference semantics says.
   */
  method RunLowered<T>(e: Expr<T>, dst: StridedRef, body: Body, heap: array<T>, simd: Simd, parallel: bool, schedule: Schedule,
                       ghost p: Pool) returns (status: RunStatus)
    requires simd.Valid() && DestinationBody(dst, body, simd) && Partitions(schedule) && heap.Length == p.length
    requires Holds(p, dst) && Flagged(dst) && Injective(dst.sizes, dst.strides)
    requires Operable(e, p) && Unhazardous(e, dst, p)
    modifies heap
    ensures status.ShapeMismatch? <==> !ResultShape(e, dst.sizes)
    ensures status.OperandLimit? <==> ResultShape(e, dst.sizes) && |Leaves(e)| >= MAX_OPERANDS && !TakesFlatPath(e, dst)
    ensures status.Ran? ==> AllHeld(p, Leaves(e), dst.sizes) && Assigned(e, dst, p, old(heap[..]), heap[..])
    ensures !status.Ran? ==> heap[..] == old(heap[..])
  {
    hide *;
    ghost var before := heap[..];
    var ok, shape := TryExpressionShape(e);
    ShapeDecided(e, ok, shape, dst.sizes);
    if !ok || shape != dst.sizes {
      return ShapeMismatch;
    }
    SoundWhenShaped(e, dst, p);
    var flat := LeavesFlat(e, dst.numel);
    if !flat || !dst.contiguous {
      var planned := RunPlanned(e, dst, shape, heap, simd.length, parallel, schedule, p);
      PathNotFlat(e, dst);
      OperandRoom();
      return if planned.Ready? then Ran else OperandLimit;
    }
    PathFlat(e, dst);
    FlatSafe(e, dst, p);
    BodyOfView(p, dst, body, simd);
    RunFlat(FlatRows(e), heap, Base(dst), dst.numel, body, simd, parallel, schedule, FlatSweep(e, dst));
    FlatAssigns(e, dst, p, before, heap[..]);
    return Ran;
  }

  lemma ShapeDecided<T>(e: Expr<T>, ok: bool, shape: seq<nat>, out: seq<nat>)
    requires ok ==> RanksFit(e) && AllExpand(e, shape) && forall t :: AllExpand(e, t) ==> Expands(shape, t)
    requires !ok ==> !RanksFit(e) || forall t :: !AllExpand(e, t)
    ensures ok && shape == out <==> ResultShape(e, out)
  {
    hide AllExpand, RanksFit, Expands;
    if ok && ResultShape(e, out) {
      assert ResultShape(e, shape);
      LeastShapeUnique(e, shape, out);
    }
  }

  lemma SoundWhenShaped<T>(e: Expr<T>, dst: StridedRef, p: Pool)
    requires Holds(p, dst) && Flagged(dst) && Injective(dst.sizes, dst.strides) && Operable(e, p) && Unhazardous(e, dst, p)
    requires ResultShape(e, dst.sizes)
    ensures Sound(e, dst, p) && AllHeld(p, Leaves(e), dst.sizes)
    ensures LeavesFlat(e, dst.numel) && dst.contiguous ==> FlatSound(e, dst, p)
  {
    hide Injective, NoHazard, Holds, Expands;
    OperableHeld(e, p, dst.sizes);
  }

  lemma PathFlat<T>(e: Expr<T>, dst: StridedRef)
    requires LeavesFlat(e, dst.numel) && dst.contiguous
    ensures TakesFlatPath(e, dst)
  {
  }

  lemma PathNotFlat<T>(e: Expr<T>, dst: StridedRef)
    requires !LeavesFlat(e, dst.numel) || !dst.contiguous
    ensures !TakesFlatPath(e, dst)
  {
  }

  lemma BodyOfView(p: Pool, dst: StridedRef, body: Body, simd: Simd)
    requires Holds(p, dst) && dst.contiguous && DestinationBody(dst, body, simd)
    ensures dst.elem.bytes > 0 && BodyFits(body, Base(dst), dst.numel, simd)
  {
  }

  // ----- assignment -----

  datatype Placement = Placement(device: Device, index: int)

  function PlaceOf(l: StridedRef): Placement {
    Placement(l.device, l.deviceIndex)
  }

  predicate AllAt(ls: seq<StridedRef>, at: Placement) {
    forall l :: l in ls ==> PlaceOf(l) == at
  }

  lemma AllAtParts(a: seq<StridedRef>, b: seq<StridedRef>, at: Placement)
    ensures AllAt(a + b, at) <==> AllAt(a, at) && AllAt(b, at)
  {
    assert forall l :: l in a + b <==> l in a || l in b;
  }

  /** The place every leaf has to have: the one already seen, or that of the first leaf. */
  function Expected(ls: seq<StridedRef>, at: Placement, seen: bool): Placement {
    if !seen && |ls| > 0 then PlaceOf(ls[0]) else at
  }

  /** The walk that collects the placement of the leaves, given the place seen so far; fails when places mix. */
  method AccumulatePlacement<T>(e: Expr<T>, at: Placement, seen: bool) returns (ok: bool, at': Placement, seen': bool)
    ensures ok <==> AllAt(Leaves(e), Expected(Leaves(e), at, seen))
    ensures ok ==> at' == Expected(Leaves(e), at, seen) && (seen' <==> seen || Leaves(e) != [])
    decreases e
  {
    match e
    case Scalar(_) =>
      return true, at, seen;
    case Leaf(l) =>
      assert l in Leaves(e);
      if !seen {
        return true, PlaceOf(l), true;
      }
      return PlaceOf(l) == at, at, true;
    case Data(v) =>
      assert AsRef(v) in Leaves(e);
      if !seen {
        return true, PlaceOf(AsRef(v)), true;
      }
      return PlaceOf(AsRef(v)) == at, at, true;
    case Unary(_, x) =>
      ok, at', seen' := AccumulatePlacement(x, at, seen);
    case Binary(_, x, y) =>
      AllAtParts(Leaves(x), Leaves(y), Expected(Leaves(e), at, seen));
      ok, at', seen' := AccumulatePlacement(x, at, seen);
      if ok {
        ok, at', seen' := AccumulatePlacement(y, at', seen');
      }
    case Trinary(_, x, y, z) =>
      AllAtParts(Leaves(x), Leaves(y), Expected(Leaves(e), at, seen));
      AllAtParts(Leaves(x) + Leaves(y), Leaves(z), Expected(Leaves(e), at, seen));
      ok, at', seen' := AccumulatePlacement(x, at, seen);
      if ok {
        ok, at', seen' := AccumulatePlacement(y, at', seen');
      }
      if ok {
        ok, at', seen' := AccumulatePlacement(z, at', seen');
      }
  }

  datatype AssignStatus =
    | Completed
    | InternalOverlap
    | WrongPlacement
    | SourceOverlap(check: CheckResult)
    | NotRun(run: RunStatus)

  /** Every leaf is a valid view; those on the destination's device are views into the pool. */
  ghost predicate Stored<T>(e: Expr<T>, dst: StridedRef, p: Pool) {
    forall l :: l in Leaves(e) ==> l.Valid() && (PlaceOf(l) == PlaceOf(dst) ==> Holds(p, l) && Flagged(l))
  }

  lemma TogetherOperable<T>(e: Expr<T>, dst: StridedRef, p: Pool)
    requires Stored(e, dst, p) && AllAt(Leaves(e), PlaceOf(dst))
    ensures Operable(e, p)
  {
  }

  lemma StoredValid<T>(e: Expr<T>, dst: StridedRef, p: Pool)
    requires Stored(e, dst, p)
    ensures AllValid(Leaves(e))
  {
  }

  /** A destination the injectivity test accepts is injective, empty ones included. */
  lemma AcceptedInjective(dst: StridedRef)
    requires dst.Valid() && (dst.numel == 0 || Separated(AxesOf(dst.sizes, dst.strides)))
    ensures Injective(dst.sizes, dst.strides)
  {
    if dst.numel == 0 {
      forall c ensures !InBox(dst.sizes, c) {
        if InBox(dst.sizes, c) {
          FlattenInRange(dst.sizes, c);
        }
      }
    } else {
      SeparatedInjective(dst.sizes, dst.strides);
    }
  }

  lemma AcceptedUnhazardous<T>(e: Expr<T>, dst: StridedRef, p: Pool)
    requires Holds(p, dst) && (forall l :: l in Leaves(e) ==> l.Valid()) && AllAllowed(dst, Leaves(e), false)
    ensures Unhazardous(e, dst, p)
  {
    hide LeafAllowed, NoHazard, Holds, Expands;
    if AllHeld(p, Leaves(e), dst.sizes) {
      AcceptedNoHazard(dst, Leaves(e), p);
    }
  }

  lemma ExpectedPlace(ls: seq<StridedRef>, at: Placement, dst: StridedRef)
    ensures AllAt(ls, PlaceOf(dst)) <==> AllAt(ls, Expected(ls, at, false)) && (ls != [] ==> Expected(ls, at, false) == PlaceOf(dst))
  {
    if |ls| > 0 {
      assert ls[0] in ls;
    }
  }

  lemma HoldsValid(p: Pool, dst: StridedRef)
    requires Holds(p, dst)
    ensures dst.Valid() && |dst.sizes| == |dst.strides|
  {
  }

  /**
   * `dst = e` on a tensor or view. A completed assignment is snapshot-safe: memory is what evaluating
   * from a copy of the old memory would have left, even when sources and destination share storage,
   * for every path, vector width, thread count and schedule. A refused one has touched nothing.
   */
  method Assign<T>(e: Expr<T>, dst: StridedRef, nonOverlapping: bool, body: Body, heap: array<T>, simd: Simd, parallel: bool,
                   schedule: Schedule, ghost p: Pool) returns (status: AssignStatus)
    requires simd.Valid() && DestinationBody(dst, body, simd) && Partitions(schedule) && heap.Length == p.length
    requires Holds(p, dst) && Flagged(dst) && Stored(e, dst, p)
    requires nonOverlapping <==> dst.numel == 0 || Separated(AxesOf(dst.sizes, dst.strides))
    modifies heap
    ensures status.InternalOverlap? <==> !nonOverlapping
    ensures status.WrongPlacement? <==> nonOverlapping && !AllAt(Leaves(e), PlaceOf(dst))
    ensures status.SourceOverlap? <==>
              nonOverlapping && AllAt(Leaves(e), PlaceOf(dst)) && !AllAllowed(dst, Leaves(e), false)
    ensures status.SourceOverlap? ==> FirstVerdict(status.check, dst, Leaves(e), false)
    ensures status.NotRun? ==> (
      && nonOverlapping && AllAt(Leaves(e), PlaceOf(dst)) && AllAllowed(dst, Leaves(e), false) && !status.run.Ran?
      && (status.run.ShapeMismatch? <==> !ResultShape(e, dst.sizes))
      && (status.run.OperandLimit? ==> |Leaves(e)| >= MAX_OPERANDS && !TakesFlatPath(e, dst)))
    ensures status.Completed? ==> (
      && ResultShape(e, dst.sizes) && (|Leaves(e)| < MAX_OPERANDS || TakesFlatPath(e, dst))
      && AllAllowed(dst, Leaves(e), false)
      && AllHeld(p, Leaves(e), dst.sizes) && Assigned(e, dst, p, old(heap[..]), heap[..]))
    ensures !status.Completed? ==> heap[..] == old(heap[..])
  {
    hide *;
    HoldsValid(p, dst);
    if !nonOverlapping {
      return InternalOverlap;
    }
    ExpectedPlace(Leaves(e), Placement(CPU, 0), dst);
    var placed, at, seen := AccumulatePlacement(e, Placement(CPU, 0), false);
    if !placed || !(!seen || at == PlaceOf(dst)) {
      return WrongPlacement;
    }
    StoredValid(e, dst, p);
    var check := CheckAssignmentOverlap(e, dst, false, false);
    if check != Accepted {
      return SourceOverlap(check);
    }
    TogetherOperable(e, dst, p);
    AcceptedInjective(dst);
    AcceptedUnhazardous(e, dst, p);
    var run := RunLowered(e, dst, body, heap, simd, parallel, schedule, p);
    return if run == Ran then Completed else NotRun(run);
  }
}
