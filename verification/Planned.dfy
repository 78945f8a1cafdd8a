/** Building the iteration plan of `dst = e`, and running it (iteration_plan.h). */
module Planned {
  import opened Arith
  import opened Layout
  import opened StridedRefs
  import opened Shapes
  import opened Exprs
  import opened Pools
  import opened Sweeps
  import opened Assignments
  import opened Nests
  import opened Plans
  import opened Odometer
  import opened Rows
  import opened Spans
  import opened Loops
  import opened Schedules

  const MAX_OPERANDS: nat := 32
  const GRAIN_SIZE: nat := 32768

  /** The strides of every operand in the index space of a result of rank `rank`. */
  function OperandStrides(ops: seq<StridedRef>, rank: nat): (table: seq<seq<int>>)
    requires forall k :: 0 <= k < |ops| ==> |ops[k].sizes| == |ops[k].strides| <= rank
    ensures |table| == |ops| && StridesFor(table, rank)
    ensures forall k :: 0 <= k < |ops| ==> table[k] == BroadcastStrides(rank, ops[k].sizes, ops[k].strides)
  {
    seq(|ops|, k requires 0 <= k < |ops| => BroadcastStrides(rank, ops[k].sizes, ops[k].strides))
  }

  function Bases(ops: seq<StridedRef>): (bases: seq<int>)
    requires forall k :: 0 <= k < |ops| ==> ops[k].elem.bytes > 0
    ensures |bases| == |ops| && forall k :: 0 <= k < |ops| ==> bases[k] == Base(ops[k])
  {
    seq(|ops|, k requires 0 <= k < |ops| => Base(ops[k]))
  }

  /** The second pair of tables is the first with the operands `ls` appended. */
  ghost predicate Appended(s0: seq<seq<int>>, b0: seq<int>, s1: seq<seq<int>>, b1: seq<int>, ls: seq<StridedRef>, rank: nat)
    requires Readable(ls, rank)
  {
    && s1 == s0 + OperandStrides(ls, rank)
    && b1 == b0 + Bases(ls)
  }

  lemma AppendNone(s: seq<seq<int>>, b: seq<int>, rank: nat)
    ensures Appended(s, b, s, b, [], rank)
  {
  }

  lemma ReadableParts(a: seq<StridedRef>, b: seq<StridedRef>, rank: nat)
    ensures Readable(a + b, rank) <==> Readable(a, rank) && Readable(b, rank)
  {
    assert forall l :: l in a + b <==> l in a || l in b;
  }

  lemma AppendTwo(s0: seq<seq<int>>, b0: seq<int>, s1: seq<seq<int>>, b1: seq<int>, s2: seq<seq<int>>, b2: seq<int>,
                  a: seq<StridedRef>, b: seq<StridedRef>, rank: nat)
    requires Readable(a, rank) && Readable(b, rank)
    requires Appended(s0, b0, s1, b1, a, rank) && Appended(s1, b1, s2, b2, b, rank)
    ensures Readable(a + b, rank) && Appended(s0, b0, s2, b2, a + b, rank)
  {
    hide OperandStrides, Bases;
    TablesConcat(a, b, rank);
    assert s2 == s0 + (OperandStrides(a, rank) + OperandStrides(b, rank));
    assert b2 == b0 + (Bases(a) + Bases(b));
  }

  lemma TablesConcat(a: seq<StridedRef>, b: seq<StridedRef>, rank: nat)
    requires Readable(a, rank) && Readable(b, rank)
    ensures Readable(a + b, rank)
    ensures OperandStrides(a + b, rank) == OperandStrides(a, rank) + OperandStrides(b, rank)
    ensures Bases(a + b) == Bases(a) + Bases(b)
  {
    ReadableParts(a, b, rank);
    hide Readable;
  }

  /** Appends one leaf; refuses it when the operand table is full. */
  method PlanLeaf(ref: StridedRef, rank: nat, plan: IterationPlan) returns (ok: bool)
    requires Readable([ref], rank) && plan.nOperands == |plan.strides| == |plan.bases| <= MAX_OPERANDS
    modifies plan
    ensures plan.rank == old(plan.rank) && plan.numel == old(plan.numel) && plan.sizes == old(plan.sizes)
    ensures ok <==> old(plan.nOperands) < MAX_OPERANDS
    ensures ok ==> Appended(old(plan.strides), old(plan.bases), plan.strides, plan.bases, [ref], rank)
    ensures plan.nOperands == |plan.strides| == |plan.bases| <= MAX_OPERANDS
    ensures ok ==> plan.nOperands == old(plan.nOperands) + 1
  {
    assert ref in [ref];
    if plan.nOperands >= MAX_OPERANDS {
      return false;
    }
    plan.nOperands := plan.nOperands + 1;
    plan.bases := plan.bases + [Base(ref)];
    var row := new int[rank](_ => 0);
    FillBroadcastStrides(rank, ref.sizes, ref.strides, row);
    plan.strides := plan.strides + [row[..rank]];
    return true;
  }

  /**
   * Appends every tensor leaf in tree order, the order in which rows are bound; fails exactly when the
   * leaves do not fit the operand table.
   */
  method PlanLeaves<T>(e: Expr<T>, rank: nat, plan: IterationPlan) returns (ok: bool)
    requires Readable(Leaves(e), rank) && plan.nOperands == |plan.strides| == |plan.bases| <= MAX_OPERANDS
    modifies plan
    ensures plan.rank == old(plan.rank) && plan.numel == old(plan.numel) && plan.sizes == old(plan.sizes)
    ensures ok <==> old(plan.nOperands) + |Leaves(e)| <= MAX_OPERANDS
    ensures ok ==> Appended(old(plan.strides), old(plan.bases), plan.strides, plan.bases, Leaves(e), rank)
    ensures plan.nOperands == |plan.strides| == |plan.bases| <= MAX_OPERANDS
    ensures ok ==> plan.nOperands == old(plan.nOperands) + |Leaves(e)|
    decreases e
  {
    hide Appended, Readable;
    ghost var s0, b0 := plan.strides, plan.bases;
    match e
    case Scalar(_) =>
      AppendNone(s0, b0, rank);
      return true;
    case Leaf(r) =>
      ok := PlanLeaf(r, rank, plan);
    case Data(v) =>
      ok := PlanLeaf(AsRef(v), rank, plan);
    case Unary(_, x) =>
      ok := PlanLeaves(x, rank, plan);
    case Binary(_, x, y) =>
      ReadableParts(Leaves(x), Leaves(y), rank);
      ok := PlanLeaves(x, rank, plan);
      if ok {
        ghost var s1, b1 := plan.strides, plan.bases;
        ok := PlanLeaves(y, rank, plan);
        if ok {
          AppendTwo(s0, b0, s1, b1, plan.strides, plan.bases, Leaves(x), Leaves(y), rank);
        }
      }
    case Trinary(_, x, y, z) =>
      ReadableParts(Leaves(x) + Leaves(y), Leaves(z), rank);
      ReadableParts(Leaves(x), Leaves(y), rank);
      ok := PlanLeaves(x, rank, plan);
      if ok {
        ghost var s1, b1 := plan.strides, plan.bases;
        ok := PlanLeaves(y, rank, plan);
        if ok {
          ghost var s2, b2 := plan.strides, plan.bases;
          AppendTwo(s0, b0, s1, b1, s2, b2, Leaves(x), Leaves(y), rank);
          ok := PlanLeaves(z, rank, plan);
          if ok {
            AppendTwo(s0, b0, s2, b2, plan.strides, plan.bases, Leaves(x) + Leaves(y), Leaves(z), rank);
          }
        }
      }
  }

  datatype PlanStatus = Ready | ZeroStride(dim: nat) | TooManyOperands

  /** Destination first, then the leaves in tree order. */
  function Operands<T>(e: Expr<T>, dst: StridedRef): seq<StridedRef> {
    [dst] + Leaves(e)
  }

  /** The loop nest of the assignment before planning. */
  function NestFor(ops: seq<StridedRef>, shape: seq<nat>): (dims: seq<Dim>)
    requires forall k :: 0 <= k < |ops| ==> |ops[k].sizes| == |ops[k].strides| <= |shape|
    ensures Uniform(dims, |ops|)
  {
    NestOf(shape, OperandStrides(ops, |shape|))
  }

  /** Some destination element would be written twice through dimension `d`. */
  predicate Repeats(dst: StridedRef, d: nat)
    requires d < |dst.sizes| == |dst.strides|
  {
    dst.strides[d] == 0 && dst.sizes[d] > 1 && Numel(dst.sizes) > 0
  }

  /** The plan runs the nest of the assignment, its dimensions taken in `order`. */
  ghost predicate PlannedFor(plan: IterationPlan, ops: seq<StridedRef>, shape: seq<nat>, order: seq<nat>)
    requires Readable(ops, |shape|) && |ops| > 0
    reads plan
  {
    var dims := NestFor(ops, shape);
    && plan.Shaped() && plan.numel == Numel(shape)
    && plan.nOperands == |ops| && plan.bases[1..] == Bases(ops[1..])
    && if plan.numel == 0 then plan.rank == 0 && plan.tier == 0
       else
         && DimOrder(dims, |ops|, order)
         && plan.Dims() == PlannedDims(dims, |ops|, order) && plan.rank > 0
         && plan.tier == if order == [] then 3 else TierOf(plan.Dims(), |ops|)
  }

  lemma FirstOperand<T>(e: Expr<T>, dst: StridedRef, rank: nat, strides: seq<seq<int>>, bases: seq<int>)
    requires Readable([dst], rank) && Readable(Leaves(e), rank)
    requires Appended(OperandStrides([dst], rank), [0], strides, bases, Leaves(e), rank)
    ensures Readable(Operands(e, dst), rank)
    ensures strides == OperandStrides(Operands(e, dst), rank)
    ensures bases[1..] == Bases(Operands(e, dst)[1..])
  {
    TablesConcat([dst], Leaves(e), rank);
    assert Operands(e, dst) == [dst] + Leaves(e) && Operands(e, dst)[1..] == Leaves(e);
    hide OperandStrides, Bases, Readable, Leaves, Operands;
    assert [0] + Bases(Leaves(e)) == bases;
  }

  /** Takes shape and strides of the destination into the plan, unless a dimension repeats elements. */
  method PlanDestination(dst: StridedRef, shape: seq<nat>, plan: IterationPlan) returns (status: PlanStatus)
    requires dst.sizes == shape && |dst.strides| == |shape| && plan.numel == Numel(shape)
    modifies plan
    ensures plan.rank == old(plan.rank) && plan.numel == old(plan.numel) && plan.bases == old(plan.bases)
    ensures plan.nOperands == old(plan.nOperands)
    ensures status.Ready? <==> forall d :: 0 <= d < |shape| ==> !Repeats(dst, d)
    ensures status.ZeroStride? ==> status.dim < |shape| && Repeats(dst, status.dim)
    ensures !status.TooManyOperands?
    ensures status.Ready? ==> plan.sizes == shape && plan.strides == OperandStrides([dst], |shape|)
  {
    var row := [];
    plan.sizes := [];
    for d := 0 to |shape|
      invariant plan.sizes == shape[..d] && |row| == d
      invariant forall k :: 0 <= k < d ==> row[k] == if shape[k] == 1 then 0 else dst.strides[k]
      invariant forall k :: 0 <= k < d ==> !Repeats(dst, k)
      invariant plan.rank == old(plan.rank) && plan.numel == old(plan.numel) && plan.bases == old(plan.bases)
      invariant plan.nOperands == old(plan.nOperands)
    {
      plan.sizes := plan.sizes + [shape[d]];
      if !(dst.strides[d] != 0 || dst.sizes[d] <= 1 || plan.numel == 0) {
        assert Repeats(dst, d);
        return ZeroStride(d);
      }
      row := row + [if dst.sizes[d] == 1 then 0 else dst.strides[d]];
    }
    plan.strides := [row];
    assert row == BroadcastStrides(|shape|, dst.sizes, dst.strides);
    return Ready;
  }

  /**
   * Builds the plan of `dst = e`. It is refused exactly when the destination repeats an element along
   * some dimension, or the expression has more leaves than the operand table holds.
   */
  method MakeIterationPlan<T>(e: Expr<T>, dst: StridedRef, shape: seq<nat>)
    returns (status: PlanStatus, plan: IterationPlan, ghost order: seq<nat>)
    requires dst.sizes == shape && Readable([dst], |shape|) && Readable(Leaves(e), |shape|)
    ensures fresh(plan)
    ensures status.ZeroStride? <==> exists d :: 0 <= d < |shape| && Repeats(dst, d)
    ensures status.ZeroStride? ==> status.dim < |shape| && Repeats(dst, status.dim)
    ensures status.TooManyOperands? ==> |Leaves(e)| >= MAX_OPERANDS
    ensures status.Ready? ==> |Leaves(e)| < MAX_OPERANDS
    ensures Readable(Operands(e, dst), |shape|)
    ensures status.Ready? ==> PlannedFor(plan, Operands(e, dst), shape, order)
  {
    hide Appended, DimOrder, PlannedDims, TierOf, Leaves, Repeats, Numel;
    ReadableParts([dst], Leaves(e), |shape|);
    assert dst in [dst];
    order := [];
    plan := new IterationPlan();
    plan.rank := |shape|;
    plan.numel := Numel(shape);
    plan.nOperands := 1;
    plan.bases := [0];
    status := PlanDestination(dst, shape, plan);
    if status != Ready {
      return;
    }
    var fits := PlanLeaves(e, |shape|, plan);
    if !fits {
      return TooManyOperands, plan, order;
    }
    FirstOperand(e, dst, |shape|, plan.strides, plan.bases);
    if plan.numel == 0 {
      plan.rank := 0;
      plan.sizes := [];
      plan.strides := seq(plan.nOperands, _ => []);
      plan.tier := 0;
      return;
    }
    assert plan.Dims() == NestFor(Operands(e, dst), shape);
    order := plan.SortMergeClassify();
  }

  // ----- the plan computes the assignment -----

  /** The iterations of a nest, as a sweep. */
  ghost function SweepOf<T>(e: Expr<T>, dst: int, sizes: seq<nat>, strides: seq<seq<int>>, bases: seq<int>): (s: Sweep<T>)
    requires Tables(sizes, strides) && |bases| == |strides| == |Leaves(e)| + 1
    ensures s.e == e && Carries(s, dst, sizes, strides, bases)
  {
    var n := Numel(sizes);
    Sweep(e, seq(n, g requires 0 <= g < n => dst + FlatOffset(sizes, strides[0], g)),
          seq(n, g requires 0 <= g < n => SourcesAt(sizes, strides, bases, g)))
  }

  /** The coordinates behind the iterations, in the order of the planned nest. */
  ghost function PlanCoords(dims: seq<Dim>, order: seq<nat>): (coords: seq<seq<int>>)
    requires PositiveDims(dims) && Indices(dims, order)
    ensures |coords| == Numel(SizesOf(dims))
    ensures forall g :: 0 <= g < |coords| ==> coords[g] == PlanCoord(dims, order, g)
  {
    seq(Numel(SizesOf(dims)), g requires 0 <= g < Numel(SizesOf(dims)) => PlanCoord(dims, order, g))
  }

  lemma PlanEnumerates(dims: seq<Dim>, order: seq<nat>)
    requires PositiveDims(dims) && KeepsWide(dims, order) && Indices(dims, order)
    ensures Enumerates(PlanCoords(dims, order), SizesOf(dims))
  {
    hide *;
    var coords := PlanCoords(dims, order);
    forall g | 0 <= g < |coords| ensures InBox(SizesOf(dims), coords[g]) {
      PlanCoordInBox(dims, order, g);
    }
    forall g, h | 0 <= g < |coords| && 0 <= h < |coords| && coords[g] == coords[h] ensures g == h {
      PlanCoordInjective(dims, order, g, h);
    }
    forall c | InBox(SizesOf(dims), c) ensures c in coords {
      var g := PlanCoordOnto(dims, order, c);
      assert coords[g] == c;
    }
    EnumeratesIntro(coords, SizesOf(dims));
  }

  lemma EnumeratesIntro(coords: seq<seq<int>>, sizes: seq<nat>)
    requires forall g :: 0 <= g < |coords| ==> InBox(sizes, coords[g])
    requires forall g, h :: 0 <= g < |coords| && 0 <= h < |coords| && coords[g] == coords[h] ==> g == h
    requires forall c :: InBox(sizes, c) ==> c in coords
    ensures Enumerates(coords, sizes)
  {
  }

  /** Every operand of the planned nest is, at each iteration, at the element its coordinate selects. */
  lemma PlannedOffset(ops: seq<StridedRef>, shape: seq<nat>, order: seq<nat>, sizes: seq<nat>, strides: seq<seq<int>>, op: nat, g: nat)
    requires Readable(ops, |shape|) && op < |ops| && Positive(shape) && g < Numel(shape)
    requires StridesFor(strides, |sizes|) && |strides| == |ops|
    requires DimOrder(NestFor(ops, shape), |ops|, order)
    requires NestOf(sizes, strides) == PlannedDims(NestFor(ops, shape), |ops|, order)
    ensures Tables(sizes, strides) && Numel(sizes) == Numel(shape)
    ensures SizesOf(NestFor(ops, shape)) == shape
    ensures Base(ops[op]) + FlatOffset(sizes, strides[op], g)
         == LeafIndex(ops[op], PlanCoord(NestFor(ops, shape), order, g))
  {
    hide FlatOffset, Dot, PlanCoord, PlannedDims, Numel, Base;
    var dims, n := NestFor(ops, shape), |ops|;
    var planned := NestOf(sizes, strides);
    assert SizesOf(dims) == shape;
    PlanKeepsOffsets(dims, n, order, op, g);
    NestTables(sizes, strides, op);
    assert StridesOf(dims, n, op) == BroadcastStrides(|shape|, ops[op].sizes, ops[op].strides);
    BroadcastReads(ops[op].sizes, ops[op].strides, PlanCoord(dims, order, g));
    assert OffsetAt(planned, n, op, g) == FlatOffset(sizes, strides[op], g);
  }

  lemma NestTables(sizes: seq<nat>, strides: seq<seq<int>>, op: nat)
    requires StridesFor(strides, |sizes|) && op < |strides| && PositiveDims(NestOf(sizes, strides))
    ensures SizesOf(NestOf(sizes, strides)) == sizes && Tables(sizes, strides)
    ensures StridesOf(NestOf(sizes, strides), |strides|, op) == strides[op]
  {
    var dims := NestOf(sizes, strides);
    assert forall d :: 0 <= d < |sizes| ==> dims[d].size == sizes[d];
  }

  /** Tables that hold the planned nest of `dst = e`. */
  ghost predicate PlanTables<T>(e: Expr<T>, dst: StridedRef, order: seq<nat>, sizes: seq<nat>, strides: seq<seq<int>>, bases: seq<int>) {
    && Readable(Operands(e, dst), |dst.sizes|) && Readable(Leaves(e), |dst.sizes|)
    && dst.elem.bytes > 0 && |dst.sizes| == |dst.strides|
    && Positive(dst.sizes)
    && StridesFor(strides, |sizes|) && |bases| == |strides| == |Leaves(e)| + 1
    && bases[1..] == Bases(Operands(e, dst)[1..])
    && DimOrder(NestFor(Operands(e, dst), dst.sizes), |strides|, order)
    && NestOf(sizes, strides) == PlannedDims(NestFor(Operands(e, dst), dst.sizes), |strides|, order)
  }

  lemma PlanIteration<T>(e: Expr<T>, dst: StridedRef, order: seq<nat>, sizes: seq<nat>, strides: seq<seq<int>>, bases: seq<int>, g: nat)
    requires PlanTables(e, dst, order, sizes, strides, bases) && g < Numel(dst.sizes)
    ensures Tables(sizes, strides) && Numel(sizes) == Numel(dst.sizes)
    ensures var c := PlanCoord(NestFor(Operands(e, dst), dst.sizes), order, g);
            && |c| == |dst.sizes|
            && SweepOf(e, Base(dst), sizes, strides, bases).writes[g] == LeafIndex(dst, c)
            && SweepOf(e, Base(dst), sizes, strides, bases).sources[g] == LeafIndices(Leaves(e), c)
  {
    hide FlatOffset, PlanCoord, PlannedDims, Numel, Base, NestOf, NestFor, LeafIndex, Leaves, KeepsWide, SweepOf;
    var ops, shape := Operands(e, dst), dst.sizes;
    NestSizes(ops, shape);
    WideOrder(NestFor(ops, shape), |strides|, order, shape);
    var c := PlanCoord(NestFor(ops, shape), order, g);
    PlannedOffset(ops, shape, order, sizes, strides, 0, g);
    var read := SweepOf(e, Base(dst), sizes, strides, bases).sources[g];
    forall k | 0 <= k < |Leaves(e)| ensures read[k] == LeafIndex(Leaves(e)[k], c) {
      PlanRead(e, dst, order, sizes, strides, bases, g, k);
    }
  }

  /** What the `k`-th leaf reads at iteration `g` of the planned nest. */
  lemma PlanRead<T>(e: Expr<T>, dst: StridedRef, order: seq<nat>, sizes: seq<nat>, strides: seq<seq<int>>, bases: seq<int>,
                    g: nat, k: nat)
    requires PlanTables(e, dst, order, sizes, strides, bases) && g < Numel(dst.sizes) && k < |Leaves(e)|
    requires Indices(NestFor(Operands(e, dst), dst.sizes), order) && PositiveDims(NestFor(Operands(e, dst), dst.sizes))
    requires |NestFor(Operands(e, dst), dst.sizes)| == |dst.sizes|
    ensures Tables(sizes, strides)
    ensures bases[k + 1] + FlatOffset(sizes, strides[k + 1], g)
         == LeafIndex(Leaves(e)[k], PlanCoord(NestFor(Operands(e, dst), dst.sizes), order, g))
  {
    hide FlatOffset, PlanCoord, PlannedDims, Numel, Base, NestOf, NestFor, LeafIndex, Leaves, KeepsWide;
    var ops := Operands(e, dst);
    PlannedOffset(ops, dst.sizes, order, sizes, strides, k + 1, g);
    assert bases[k + 1] == bases[1..][k];
    assert ops[k + 1] == Leaves(e)[k] == ops[1..][k];
  }

  /** The sweep of the planned nest computes, iteration by iteration, the coordinates of the destination. */
  lemma PlanFollows<T>(e: Expr<T>, dst: StridedRef, order: seq<nat>, sizes: seq<nat>, strides: seq<seq<int>>, bases: seq<int>)
    returns (coords: seq<seq<int>>)
    requires PlanTables(e, dst, order, sizes, strides, bases)
    ensures Tables(sizes, strides)
    ensures Follows(SweepOf(e, Base(dst), sizes, strides, bases), dst, coords)
  {
    hide FlatOffset, PlanCoord, PlannedDims, Numel, Base, NestOf, NestFor, LeafIndex, LeafIndices, Leaves, SweepOf;
    hide Enumerates, DimOrder, Bases;
    var dims := NestFor(Operands(e, dst), dst.sizes);
    NumelPositive(dst.sizes);
    PlanIteration(e, dst, order, sizes, strides, bases, 0);
    assert SizesOf(dims) == dst.sizes by { NestSizes(Operands(e, dst), dst.sizes); }
    WideOrder(dims, |strides|, order, dst.sizes);
    PlanEnumerates(dims, order);
    coords := PlanCoords(dims, order);
    var s := SweepOf(e, Base(dst), sizes, strides, bases);
    forall g | 0 <= g < |coords|
      ensures s.writes[g] == LeafIndex(dst, coords[g]) && s.sources[g] == LeafIndices(Leaves(e), coords[g])
    {
      PlanIteration(e, dst, order, sizes, strides, bases, g);
    }
  }

  lemma NestSizes(ops: seq<StridedRef>, shape: seq<nat>)
    requires Readable(ops, |shape|)
    ensures SizesOf(NestFor(ops, shape)) == shape
  {
  }

  lemma WideOrder(dims: seq<Dim>, n: nat, order: seq<nat>, shape: seq<nat>)
    requires DimOrder(dims, n, order) && SizesOf(dims) == shape && Positive(shape)
    ensures PositiveDims(dims) && KeepsWide(dims, order) && Indices(dims, order)
  {
    forall d | 0 <= d < |dims| ensures dims[d].size > 0 {
      assert shape[d] > 0;
    }
  }

  // ----- running the plan -----

  /** A dimension the planner refuses makes two coordinates share an element. */
  lemma RepeatCollides(dst: StridedRef, d: nat)
    requires d < |dst.sizes| == |dst.strides| && Repeats(dst, d)
    ensures !Injective(dst.sizes, dst.strides)
  {
    NumelPositive(dst.sizes);
    var zero := Zeros(|dst.sizes|);
    DotUpdate(dst.strides, zero, d, 1);
    var one := zero[d := 1];
    assert one[d] != zero[d];
    assert InBox(dst.sizes, zero) && InBox(dst.sizes, one) && Dot(dst.strides, zero) == Dot(dst.strides, one);
  }

  lemma EmptyAssigned<T>(e: Expr<T>, dst: StridedRef, p: Pool, heap: seq<T>)
    requires Holds(p, dst) && AllHeld(p, Leaves(e), dst.sizes) && |heap| == p.length && Numel(dst.sizes) == 0
    ensures Assigned(e, dst, p, heap, heap)
  {
    forall c ensures !InBox(dst.sizes, c) {
      if InBox(dst.sizes, c) {
        FlattenInRange(dst.sizes, c);
      }
    }
  }

  /** Rows as the plan counts them: iterations divided by the row size. */
  lemma RowsOfPlan(sizes: seq<nat>)
    requires |sizes| > 0 && Positive(sizes)
    ensures var n := sizes[|sizes| - 1]; n > 0 && Numel(sizes) / n == Numel(sizes[..|sizes| - 1])
                                         && Numel(sizes[..|sizes| - 1]) * n == Numel(sizes)
  {
    var n := sizes[|sizes| - 1];
    DivModUnique(Numel(sizes), Numel(sizes[..|sizes| - 1]), 0, n);
  }

  lemma SimdTier(sizes: seq<nat>, strides: seq<seq<int>>, tier: nat)
    requires StridesFor(strides, |sizes|) && |strides| > 0 && |sizes| > 0
    requires tier <= 2 ==> tier == TierOf(NestOf(sizes, strides), |strides|)
    ensures tier <= 2 ==> SimdRows(strides, |sizes| - 1)
  {
    var k := |sizes| - 1;
    var row := NestOf(sizes, strides)[k];
    assert forall op :: 0 <= op < |strides| ==> row.strides[op] == strides[op][k];
  }

  /**
   * Rows split across threads. The schedule may cut the rows anywhere and run the chunks in any order;
   * every row is carried out once.
   */
  method ParallelRows<T>(lowered: RowExpr<T>, dst: int, plan: IterationPlan, heap: array<T>, rows: nat, grain: nat,
                         schedule: Schedule, lanes: nat, ghost s: Sweep<T>)
    requires plan.Shaped() && plan.rank > 0 && Carries(s, dst, plan.sizes, plan.strides, plan.bases)
    requires s.Fits(heap.Length) && s.Safe() && SameTree(s.e, lowered)
    requires rows == Numel(plan.sizes[..plan.rank - 1]) && plan.sizes[plan.rank - 1] > 0
    requires plan.tier <= 2 ==> SimdRows(plan.strides, plan.rank - 1)
    requires IsPartition(schedule(rows, grain), rows)
    modifies heap
    ensures s.Wrote(old(heap[..]), heap[..], ChunkSpan(Chunk(0, rows), 0, plan.sizes[plan.rank - 1]))
  {
    hide Carries, SameTree, Span, SimdRows, Numel, Apart, InSome;
    ghost var before := heap[..];
    ghost var n := plan.sizes[plan.rank - 1];
    var chunks := schedule(rows, grain);
    WroteNothing(s, before, 0);
    assert Span(0, 0) == Done(chunks, 0, 0, n) by { EmptySpan(0); }
    for k := 0 to |chunks|
      invariant heap.Length == |before| && s.Wrote(before, heap[..], Done(chunks, k, 0, n))
    {
      ghost var mid := heap[..];
      Loop2d(lowered, dst, plan, heap, chunks[k].first, chunks[k].last, lanes, s);
      NextDisjoint(chunks, k, 0, n, rows);
      WroteCompose(s, before, mid, heap[..], Done(chunks, k, 0, n), ChunkSpan(chunks[k], 0, n));
    }
    AllDone(chunks, 0, n, rows);
  }

  lemma WholeSpan(rows: nat, n: nat)
    ensures Span(0 * n, rows * n) == Span(0, rows * n) == ChunkSpan(Chunk(0, rows), 0, n)
  {
  }

  lemma PartitionAt(schedule: Schedule, n: nat, grain: nat)
    requires Partitions(schedule)
    ensures IsPartition(schedule(n, grain), n)
  {
  }

  lemma EmptySpan(a: nat)
    ensures Span(a, a) == {}
  {
  }

  /** Everything `RunPlanned` needs of an assignment: views into the pool, and no hazard. */
  ghost predicate Sound<T>(e: Expr<T>, dst: StridedRef, p: Pool) {
    && Holds(p, dst) && AllHeld(p, Leaves(e), dst.sizes)
    && Injective(dst.sizes, dst.strides) && NoHazard(dst, Leaves(e), p)
  }

  /** The sweep of a sound assignment's plan fits the pool and is safe. */
  lemma SoundSweep<T>(e: Expr<T>, dst: StridedRef, p: Pool, order: seq<nat>, sizes: seq<nat>, strides: seq<seq<int>>, bases: seq<int>)
    requires Sound(e, dst, p) && PlanTables(e, dst, order, sizes, strides, bases)
    ensures Tables(sizes, strides)
    ensures var s := SweepOf(e, Base(dst), sizes, strides, bases); s.Fits(p.length) && s.Safe()
  {
    hide Numel, LeafIndex, NoHazard, Holds, AllHeld, PlannedDims, DimOrder, NestOf, NestFor, Base, FlatOffset, SourcesAt, Injective, Leaves;
    var coords := PlanFollows(e, dst, order, sizes, strides, bases);
    var s := SweepOf(e, Base(dst), sizes, strides, bases);
    FollowsFits(s, dst, p, coords);
    FollowsSafe(s, dst, p, coords);
  }

  /** All of that sweep is the assignment. */
  lemma SweepAssigns<T>(e: Expr<T>, dst: StridedRef, p: Pool, order: seq<nat>, sizes: seq<nat>, strides: seq<seq<int>>, bases: seq<int>,
                        before: seq<T>, after: seq<T>)
    requires Sound(e, dst, p) && PlanTables(e, dst, order, sizes, strides, bases) && |before| == p.length
    requires Tables(sizes, strides)
    requires var s := SweepOf(e, Base(dst), sizes, strides, bases);
             s.Fits(|before|) && s.Wrote(before, after, Span(0, Numel(sizes)))
    ensures Assigned(e, dst, p, before, after)
  {
    hide Numel, Assigned, LeafIndex, NoHazard, Holds, AllHeld, PlannedDims, DimOrder, NestOf, NestFor, Base, FlatOffset;
    hide SourcesAt, Injective, Leaves;
    var coords := PlanFollows(e, dst, order, sizes, strides, bases);
    FollowsAssigned(SweepOf(e, Base(dst), sizes, strides, bases), dst, p, coords, before, after, Span(0, Numel(sizes)));
  }

  lemma SoundOperands<T>(e: Expr<T>, dst: StridedRef, p: Pool)
    requires Sound(e, dst, p)
    ensures dst.elem.bytes > 0 && |dst.sizes| == |dst.strides|
    ensures Readable([dst], |dst.sizes|) && Readable(Leaves(e), |dst.sizes|)
    ensures Injective(dst.sizes, dst.strides)
    ensures Holds(p, dst) && AllHeld(p, Leaves(e), dst.sizes)
  {
  }

  lemma NoRepeats(dst: StridedRef)
    requires |dst.sizes| == |dst.strides| && Injective(dst.sizes, dst.strides)
    ensures forall d :: 0 <= d < |dst.sizes| ==> !Repeats(dst, d)
  {
    forall d | 0 <= d < |dst.sizes| ensures !Repeats(dst, d) {
      if Repeats(dst, d) {
        RepeatCollides(dst, d);
      }
    }
  }

  /** A plan with iterations holds the planned nest in its tables, and a vector tier means unit rows. */
  lemma PlanReady<T>(plan: IterationPlan, e: Expr<T>, dst: StridedRef, order: seq<nat>)
    requires Readable(Operands(e, dst), |dst.sizes|) && Readable(Leaves(e), |dst.sizes|) && |dst.sizes| == |dst.strides|
    requires dst.elem.bytes > 0 && PlannedFor(plan, Operands(e, dst), dst.sizes, order)
    ensures plan.numel == Numel(dst.sizes)
    ensures plan.numel > 0 ==> (
      && plan.Shaped() && plan.rank > 0 && |plan.sizes| == plan.rank
      && |plan.bases| == |plan.strides| == plan.nOperands == |Leaves(e)| + 1
      && PlanTables(e, dst, order, plan.sizes, plan.strides, plan.bases)
      && Positive(plan.sizes) && Numel(plan.sizes) == plan.numel
      && StridesFor(plan.strides, plan.rank)
      && (plan.tier <= 2 ==> SimdRows(plan.strides, plan.rank - 1)))
  {
    hide DimOrder, PlannedDims, Numel, NestFor, TierOf, SimdRows, Bases, Leaves;
    if plan.numel > 0 {
      NumelPositive(dst.sizes);
      SimdTier(plan.sizes, plan.strides, plan.tier);
      PlanIteration(e, dst, order, plan.sizes, plan.strides, plan.bases, 0);
    }
  }

  /** The operand table holds the destination and 31 leaves. */
  lemma OperandRoom()
    ensures MAX_OPERANDS == 32
  {
  }

  /**
   * Evaluates `dst = e` through the planner. Whatever the strides, the broadcasting, the tier, the
   * vector width and the schedule, memory ends up as the reference semantics says, read from memory as
   * it was at the start.
   */
  method RunPlanned<T>(e: Expr<T>, dst: StridedRef, shape: seq<nat>, heap: array<T>, lanes: nat, parallel: bool,
                       schedule: Schedule, ghost p: Pool) returns (status: PlanStatus)
    requires Sound(e, dst, p) && dst.sizes == shape && heap.Length == p.length && Partitions(schedule)
    modifies heap
    ensures status.Ready? <==> |Leaves(e)| <= 31
    ensures status.Ready? ==> Assigned(e, dst, p, old(heap[..]), heap[..])
    ensures !status.Ready? ==> status.TooManyOperands? && heap[..] == old(heap[..])
  {
    hide *;
    ghost var before := heap[..];
    OperandRoom();
    SoundOperands(e, dst, p);
    NoRepeats(dst);
    ghost var order;
    var plan;
    status, plan, order := MakeIterationPlan(e, dst, shape);
    if status != Ready {
      return;
    }
    PlanReady(plan, e, dst, order);
    if plan.numel == 0 {
      EmptyAssigned(e, dst, p, before);
      assert heap[..] == before;
      return;
    }
    SoundSweep(e, dst, p, order, plan.sizes, plan.strides, plan.bases);
    ghost var s := SweepOf(e, Base(dst), plan.sizes, plan.strides, plan.bases);
    var lowered := LowerRows(e);
    LoweredTree(e);
    var rowSize := plan.sizes[plan.rank - 1];
    RowsOfPlan(plan.sizes);
    var rows := plan.numel / rowSize;
    WholeSpan(rows, rowSize);
    if !parallel || plan.numel < GRAIN_SIZE || rows < 2 {
      Loop2d(lowered, Base(dst), plan, heap, 0, rows, lanes, s);
    } else {
      var rowGrain := if GRAIN_SIZE / rowSize > 1 then GRAIN_SIZE / rowSize else 1;
      PartitionAt(schedule, rows, rowGrain);
      ParallelRows(lowered, Base(dst), plan, heap, rows, rowGrain, schedule, lanes, s);
    }
    SweepAssigns(e, dst, p, order, plan.sizes, plan.strides, plan.bases, before, heap[..]);
  }

  /**
   * Threads may interleave element by element, not only chunk by chunk: once every iteration of the
   * plan has stored its result, in whatever order the loads and stores came, memory is the assignment.
   */
  lemma AnyInterleavingAssigns<T(!new)>(e: Expr<T>, dst: StridedRef, p: Pool, order: seq<nat>, sizes: seq<nat>, strides: seq<seq<int>>,
                                        bases: seq<int>, s: Sweep<T>, before: seq<T>, events: seq<Event>, st: State<T>)
    requires Sound(e, dst, p) && PlanTables(e, dst, order, sizes, strides, bases) && |before| == p.length
    requires Tables(sizes, strides) && s == SweepOf(e, Base(dst), sizes, strides, bases)
    requires s.Fits(|before|) && Reachable(s, before, events, st) && st.stored == Span(0, Numel(sizes))
    ensures Assigned(e, dst, p, before, st.heap)
  {
    hide *;
    SoundSweep(e, dst, p, order, sizes, strides, bases);
    EveryInterleaving(s, before, events, st);
    InvariantWrote(s, before, st);
    SweepAssigns(e, dst, p, order, sizes, strides, bases, before, st.heap);
  }

  lemma InvariantWrote<T>(s: Sweep<T>, before: seq<T>, st: State<T>)
    requires s.Fits(|before|) && RunInvariant(s, before, st)
    ensures s.Wrote(before, st.heap, st.stored)
  {
  }
}
