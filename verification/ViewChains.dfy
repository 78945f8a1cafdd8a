/** Chains of view operations (tensor.h): nothing they can reach lies outside the storage they start from. */
module ViewChains {
  import opened Arith
  import opened Layout
  import opened Permutations
  import opened Shapes
  import opened Packing
  import opened Nests
  import opened ViewStrides
  import opened Views
  import opened Slices

  datatype Op =
    | Transpose
    | Permute(order: seq<nat>)
    | Slice(dim: nat, start: Bound, stop: Bound, step: int)
    | Expand(dims: seq<nat>)
    | SqueezeAll
    | Squeeze(dim: nat)
    | Unsqueeze(dim: nat)
    | Reshape(dims: seq<nat>)

  /** Some partial product of the sizes does not fit size_t. */
  predicate TotalOverflows(dims: seq<nat>) {
    exists i :: 0 <= i <= |dims| && Numel(dims[..i]) >= UINT64_LIMIT
  }

  /** With elements there are, that is an element count that does not fit. */
  lemma ElementsOverflow(dims: seq<nat>)
    requires Positive(dims)
    ensures TotalOverflows(dims) <==> Numel(dims) >= UINT64_LIMIT
  {
    hide Numel;
    forall i | 0 <= i <= |dims| ensures Numel(dims[..i]) <= Numel(dims) {
      PrefixCount(dims, i);
    }
    assert dims[..|dims|] == dims;
  }

  lemma PrefixCount(dims: seq<nat>, i: nat)
    requires Positive(dims) && i <= |dims|
    ensures Numel(dims[..i]) <= Numel(dims)
  {
    PositiveParts(dims, i, |dims|);
    hide *;
    assert dims == dims[..i] + dims[i..] && dims[i..|dims|] == dims[i..];
    NumelConcat(dims[..i], dims[i..]);
    ScaledUp(Numel(dims[..i]), Numel(dims[i..]));
  }

  lemma ScaledUp(a: nat, b: nat)
    requires b > 0
    ensures a <= a * b == b * a
  {
    MulMono(1, b, a);
  }

  /** The checked product of the sizes. */
  method ComputeTotal(dims: seq<nat>) returns (ok: bool, total: nat)
    ensures ok <==> !TotalOverflows(dims)
    ensures ok ==> total == Numel(dims)
  {
    total := 1;
    var i := 0;
    while i < |dims|
      invariant 0 <= i <= |dims| && total == Numel(dims[..i]) < UINT64_LIMIT
      invariant forall j :: 0 <= j <= i ==> Numel(dims[..j]) < UINT64_LIMIT
    {
      assert dims[..i + 1][..i] == dims[..i];
      var d := dims[i];
      if !(d == 0 || total <= (UINT64_LIMIT - 1) / d) {
        TotalGuard(total, d);
        return false, 0;
      }
      if d != 0 {
        TotalGuard(total, d);
      }
      total := total * d;
      i := i + 1;
    }
    assert dims[..|dims|] == dims;
    return true, total;
  }

  lemma TotalGuard(total: nat, d: nat)
    requires d > 0
    ensures total <= (UINT64_LIMIT - 1) / d <==> total * d < UINT64_LIMIT
  {
    var q := (UINT64_LIMIT - 1) / d;
    assert UINT64_LIMIT - 1 == q * d + (UINT64_LIMIT - 1) % d;
    if total <= q { MulMono(total, q, d); } else { MulMono(q + 1, total, d); }
  }

  /** The reshape takes C-order strides: the view is empty or packed. */
  ghost predicate TakesCOrder(v: View)
    requires |v.sizes| == |v.strides|
  {
    Numel(v.sizes) == 0 || |v.sizes| == 0 || Packed(v.sizes, v.strides)
  }

  /** The element counts agree and every size fits; what follows depends on the strides. */
  ghost predicate SameCount(v: View, dims: seq<nat>) {
    !TotalOverflows(dims) && Numel(dims) == Numel(v.sizes) && DimensionsFit(dims)
  }

  /** Signed products of the reshape leave int64_t. */
  ghost predicate ReshapeUndefined(v: View, dims: seq<nat>)
    requires |v.sizes| == |v.strides|
  {
    SameCount(v, dims) && !TakesCOrder(v) && !ProductsFit(v.sizes, v.strides, |v.sizes|, dims, |dims|)
  }

  ghost predicate NoStridesExist(v: View, dims: seq<nat>)
    requires |v.sizes| == |v.strides| && Numel(dims) == Numel(v.sizes)
  {
    NoStridesRead(v.sizes, v.strides, dims)
  }

  /** Why a reshape whose arithmetic is defined is refused. */
  ghost predicate NoReshape(v: View, dims: seq<nat>)
    requires |v.sizes| == |v.strides|
  {
    || !SameCount(v, dims)
    || (if TakesCOrder(v) then StrideTooLarge(dims) else NoStridesExist(v, dims))
  }

  /** A packed view takes any other shape of as many elements. */
  lemma PackedReshapes(v: View, dims: seq<nat>)
    requires |v.sizes| == |v.strides| && Packed(v.sizes, v.strides)
    requires Positive(dims) && Numel(dims) == Numel(v.sizes) <= INT64_MAX
    ensures !NoReshape(v, dims) && !ReshapeUndefined(v, dims)
  {
    ElementsOverflow(dims);
    forall i | 0 <= i < |dims| ensures dims[i] <= INT64_MAX && Numel(dims[i..]) <= INT64_MAX {
      PartCount(dims, i);
    }
    hide Numel, Packed, TotalOverflows, ProductsFit, NoStridesRead;
  }

  lemma DimensionParts(dims: seq<nat>, i: nat)
    requires Positive(dims) && i < |dims|
    ensures dims == dims[..i] + dims[i..] && dims[i..] == [dims[i]] + dims[i + 1..]
    ensures Positive(dims[..i]) && Positive(dims[i + 1..]) && dims[i] > 0
  {
  }

  lemma PartCount(dims: seq<nat>, i: nat)
    requires Positive(dims) && i < |dims|
    ensures dims[i] <= Numel(dims) && Numel(dims[i..]) <= Numel(dims)
  {
    hide *;
    DimensionParts(dims, i);
    var rest := dims[i + 1..];
    NumelPositive(dims[..i]);
    NumelPositive(rest);
    NumelConcat(dims[..i], dims[i..]);
    NumelCons(dims[i], rest);
    ScaledUp(dims[i], Numel(rest));
    ScaledUp(Numel(dims[i..]), Numel(dims[..i]));
  }

  /**
   * `view(dims)`: new dimensions over the same elements in the same order, without copying. Undefined
   * and refused exactly where said.
   */
  method DoReshape(v: View, dims: seq<nat>) returns (r: ViewResult)
    requires |v.sizes| == |v.strides|
    ensures r.Undefined? <==> ReshapeUndefined(v, dims)
    ensures r.Rejected? <==> NoReshape(v, dims) && !ReshapeUndefined(v, dims)
    ensures r.Ok? ==> Steps(v, Reshape(dims), r.view)
  {
    hide Numel, SameElements, Packed, StrideTooLarge, TotalOverflows, ProductsFit;
    var ok, total := ComputeTotal(dims);
    if !ok || total != Numel(v.sizes) {
      return Rejected;
    }
    var contiguous := CachedContiguous(v.sizes, v.strides, Numel(v.sizes));
    NoDimensions(v.sizes, v.strides);
    var status, t := ComputeViewStrides(v.sizes, v.strides, contiguous, dims);
    assert SizeTooLarge(dims) <==> !DimensionsFit(dims);
    assert InCOrder(v.sizes, contiguous) <==> TakesCOrder(v);
    if status.Overflow? {
      return Undefined;
    }
    if status != Viewable {
      return Rejected;
    }
    return Ok(v.(sizes := dims, strides := t));
  }

  /** What each operation turns a view into. */
  ghost predicate Steps(v: View, op: Op, w: View)
    requires |v.sizes| == |v.strides|
  {
    match op
    case Transpose => |v.sizes| == 2 && w == v.(sizes := Permuted(v.sizes, [1, 0]), strides := Permuted(v.strides, [1, 0]))
    case Permute(order) =>
      IsOrder(order, |v.sizes|) && w == v.(sizes := Permuted(v.sizes, order), strides := Permuted(v.strides, order))
    case Slice(dim, start, stop, step) =>
      dim < |v.sizes| && step >= 1 && InRange(v, dim, start, stop, step) && w == Sliced(v, dim, start, stop, step)
    case Expand(dims) =>
      Expands(v.sizes, dims) && w == v.(sizes := dims, strides := ExpandedStrides(v.sizes, v.strides, dims))
    case SqueezeAll => w == v.(sizes := Wide(v.sizes, v.sizes), strides := Wide(v.sizes, v.strides))
    case Squeeze(dim) =>
      dim < |v.sizes|
      && w == if v.sizes[dim] != 1 then v else v.(sizes := RemoveAt(v.sizes, dim), strides := RemoveAt(v.strides, dim))
    case Unsqueeze(dim) =>
      dim <= |v.sizes| && FitsInt64(InsertedStride(v, dim))
      && w == v.(sizes := InsertAt(v.sizes, dim, 1), strides := InsertAt(v.strides, dim, InsertedStride(v, dim)))
    case Reshape(dims) =>
      && |w.strides| == |dims| && w == v.(sizes := dims, strides := w.strides)
      && !TotalOverflows(dims) && Numel(dims) == Numel(v.sizes) && SameElements(v.sizes, v.strides, dims, w.strides)
      && (NonNegative(v.strides) ==> NonNegative(w.strides))
  }

  datatype Outcome = Made(view: View) | ArgumentError | UndefinedArithmetic | CountOverflow | GeometryRejected

  /** The view constructors: the element count is checked, then the geometry. Data is null only in an empty storage. */
  method Construct(v: View) returns (r: Outcome)
    requires |v.sizes| == |v.strides|
    ensures r.CountOverflow? <==> TotalOverflows(v.sizes)
    ensures r.GeometryRejected? <==> !TotalOverflows(v.sizes) && Numel(v.sizes) > 0 && !Inside(v)
    ensures r == CountOverflow || r == GeometryRejected || r == Made(v)
  {
    hide Numel, TotalOverflows, Extent;
    var counted, _ := ComputeTotal(v.sizes);
    if !counted {
      return CountOverflow;
    }
    ExtentFromZero(v.sizes, v.strides);
    var ok := CheckGeometry(v, v.window == 0);
    return if ok then Made(v) else GeometryRejected;
  }

  lemma {:induction false} ExtentFromZero(sizes: seq<nat>, strides: seq<int>)
    requires |sizes| == |strides|
    ensures Positive(sizes) && NonNegative(strides) ==> Extent(sizes, strides) >= 0
    ensures Positive(sizes) <==> Numel(sizes) > 0
  {
    NumelPositive(sizes);
    if Positive(sizes) {
      PrefixExtent(sizes, strides, 0);
    }
  }

  /** Bad arguments. */
  ghost predicate Refused(v: View, op: Op)
    requires |v.sizes| == |v.strides|
  {
    match op
    case Transpose => |v.sizes| != 2
    case Permute(order) => !IsOrder(order, |v.sizes|)
    case Slice(dim, _, _, step) => dim >= |v.sizes| || step < 1
    case Expand(dims) => !Expands(v.sizes, dims) || !DimensionsFit(dims)
    case SqueezeAll => false
    case Squeeze(dim) => dim >= |v.sizes|
    case Unsqueeze(dim) => dim > |v.sizes|
    case Reshape(dims) => NoReshape(v, dims) && !ReshapeUndefined(v, dims)
  }

  /** Signed arithmetic that leaves int64_t. */
  ghost predicate LeavesInt64(v: View, op: Op)
    requires |v.sizes| == |v.strides|
  {
    match op
    case Slice(dim, start, stop, step) => dim < |v.sizes| && step >= 1 && !InRange(v, dim, start, stop, step)
    case Unsqueeze(dim) => dim <= |v.sizes| && !FitsInt64(InsertedStride(v, dim))
    case Reshape(dims) => ReshapeUndefined(v, dims)
    case _ => false
  }

  /** The sizes of the result. */
  ghost function NewSizes(v: View, op: Op): seq<nat>
    requires |v.sizes| == |v.strides|
  {
    match op
    case Transpose => if |v.sizes| == 2 then Permuted(v.sizes, [1, 0]) else v.sizes
    case Permute(order) => if IsOrder(order, |v.sizes|) then Permuted(v.sizes, order) else v.sizes
    case Slice(dim, start, stop, step) =>
      if dim < |v.sizes| && step >= 1 then Sliced(v, dim, start, stop, step).sizes else v.sizes
    case Expand(dims) => dims
    case SqueezeAll => Wide(v.sizes, v.sizes)
    case Squeeze(dim) => if dim < |v.sizes| && v.sizes[dim] == 1 then RemoveAt(v.sizes, dim) else v.sizes
    case Unsqueeze(dim) => if dim <= |v.sizes| then InsertAt(v.sizes, dim, 1) else v.sizes
    case Reshape(dims) => dims
  }

  /** The operation before its result is constructed. */
  method Derive(v: View, op: Op) returns (made: ViewResult)
    requires |v.sizes| == |v.strides|
    ensures made.Rejected? <==> Refused(v, op)
    ensures made.Undefined? <==> LeavesInt64(v, op)
    ensures made.Ok? ==> Steps(v, op, made.view) && made.view.sizes == NewSizes(v, op)
  {
    hide NoReshape, ReshapeUndefined, InRange, Sliced, InsertedStride, Permuted, ExpandedStrides, Wide, RemoveAt, InsertAt;
    match op {
      case Transpose => made := DoTranspose(v);
      case Permute(order) => made := DoPermute(v, order);
      case Slice(dim, start, stop, step) => made := DoSlice(v, dim, start, stop, step);
      case Expand(dims) => made := DoExpand(v, dims);
      case SqueezeAll => made := DoSqueezeAll(v);
      case Squeeze(dim) => made := DoSqueeze(v, dim);
      case Unsqueeze(dim) => made := DoUnsqueeze(v, dim);
      case Reshape(dims) => made := DoReshape(v, dims);
    }
  }

  /**
   * Performs one operation and constructs the resulting view. Every outcome is exact: bad arguments,
   * undefined arithmetic, an element count beyond size_t, or the view. The geometry check never rejects.
   */
  method Perform(v: View, op: Op, ghost n: nat) returns (r: Outcome)
    requires Valid(v, n)
    ensures |v.sizes| == |v.strides|
    ensures r.ArgumentError? <==> Refused(v, op)
    ensures r.UndefinedArithmetic? <==> LeavesInt64(v, op)
    ensures r.CountOverflow? <==> !Refused(v, op) && !LeavesInt64(v, op) && TotalOverflows(NewSizes(v, op))
    ensures r.Made? ==> Steps(v, op, r.view) && Valid(r.view, n) && ReadsOnly(r.view, v) && !TotalOverflows(r.view.sizes)
    ensures !r.GeometryRejected?
  {
    hide *;
    ValidLengths(v, n);
    var made := Derive(v, op);
    if made.Rejected? {
      return ArgumentError;
    }
    if made.Undefined? {
      return UndefinedArithmetic;
    }
    StepKeepsValid(v, op, made.view, n);
    ValidLengths(made.view, n);
    r := Construct(made.view);
  }

  lemma ValidLengths(v: View, n: nat)
    requires Valid(v, n)
    ensures |v.sizes| == |v.strides| && (Numel(v.sizes) > 0 ==> Inside(v))
  {
  }

  // ----- each operation reads only elements of the view it starts from -----

  lemma StepLengths(v: View, op: Op, w: View)
    requires |v.sizes| == |v.strides| && Steps(v, op, w)
    ensures |w.sizes| == |w.strides|
  {
    if op.SqueezeAll? {
      WideLengths(v.sizes, v.sizes, v.strides);
    }
  }

  lemma {:induction false} WideNonNegative(sizes: seq<nat>, strides: seq<int>)
    requires |sizes| == |strides| && NonNegative(strides)
    ensures NonNegative(Wide(sizes, strides))
  {
    if |sizes| > 0 {
      WideNonNegative(sizes[..|sizes| - 1], strides[..|sizes| - 1]);
    }
  }

  lemma StepNonNegative(v: View, op: Op, w: View)
    requires |v.sizes| == |v.strides| && Steps(v, op, w) && NonNegative(v.strides)
    ensures NonNegative(w.strides)
  {
    hide *;
    match op
    case Transpose => ReorderNonNegative(v, op, w);
    case Permute(_) => ReorderNonNegative(v, op, w);
    case Slice(_, _, _, _) => SliceNonNegative(v, op, w);
    case Expand(_) => ResizeNonNegative(v, op, w);
    case SqueezeAll => SqueezeNonNegative(v, op, w);
    case Squeeze(_) => SqueezeNonNegative(v, op, w);
    case Unsqueeze(_) => UnsqueezeNonNegative(v, op, w);
    case Reshape(_) => ResizeNonNegative(v, op, w);
  }

  lemma ReorderNonNegative(v: View, op: Op, w: View)
    requires |v.sizes| == |v.strides| && Steps(v, op, w) && NonNegative(v.strides) && (op.Transpose? || op.Permute?)
    ensures NonNegative(w.strides)
  {
    hide Distinct;
  }

  lemma SliceNonNegative(v: View, op: Op, w: View)
    requires |v.sizes| == |v.strides| && Steps(v, op, w) && NonNegative(v.strides) && op.Slice?
    ensures NonNegative(w.strides)
  {
    MulMono(0, v.strides[op.dim], op.step);
    hide InRange, First, Last, Count;
  }

  lemma ResizeNonNegative(v: View, op: Op, w: View)
    requires |v.sizes| == |v.strides| && Steps(v, op, w) && NonNegative(v.strides) && (op.Expand? || op.Reshape?)
    ensures NonNegative(w.strides)
  {
    hide Numel, TotalOverflows, SameElements;
  }

  lemma SqueezeNonNegative(v: View, op: Op, w: View)
    requires |v.sizes| == |v.strides| && Steps(v, op, w) && NonNegative(v.strides) && (op.SqueezeAll? || op.Squeeze?)
    ensures NonNegative(w.strides)
  {
    WideNonNegative(v.sizes, v.strides);
    hide Wide;
  }

  lemma UnsqueezeNonNegative(v: View, op: Op, w: View)
    requires |v.sizes| == |v.strides| && Steps(v, op, w) && NonNegative(v.strides) && op.Unsqueeze?
    ensures NonNegative(w.strides)
  {
    if op.dim < |v.sizes| {
      MulMono(0, v.strides[op.dim], v.sizes[op.dim]);
    }
    hide InsertAt;
  }

  /**
   * All operations but slicing and expansion keep the element count; squeezing leaves no dimension of size
   * one, squeezing one dimension drops at most that one, and unsqueezing adds one of size one.
   */
  lemma StepKeepsCount(v: View, op: Op, w: View)
    requires |v.sizes| == |v.strides| && Steps(v, op, w)
    ensures !op.Slice? && !op.Expand? ==> Numel(w.sizes) == Numel(v.sizes)
    ensures op.SqueezeAll? ==> forall d :: 0 <= d < |w.sizes| ==> w.sizes[d] != 1
    ensures op.Squeeze? ==> |w.sizes| == |v.sizes| - if v.sizes[op.dim] == 1 then 1 else 0
    ensures op.Unsqueeze? ==> |w.sizes| == |v.sizes| + 1 && w.sizes[op.dim] == 1
  {
    hide Numel, InRange, SameElements, TotalOverflows, InsertedStride, Wide, RemoveAt, InsertAt, Permuted, Expands, Sliced;
    match op
    case Transpose =>
      PairOrder(v);
      PermutedNumel(v.sizes, [1, 0]);
    case Permute(order) => PermutedNumel(v.sizes, order);
    case Slice(_, _, _, _) =>
    case Expand(_) =>
    case SqueezeAll =>
      WideNumel(v.sizes);
      WideHasNoOnes(v.sizes);
    case Squeeze(dim) => NumelRemove(v.sizes, dim);
    case Unsqueeze(dim) => InsertedNumel(v.sizes, dim);
    case Reshape(_) =>
  }

  lemma PairOrder(v: View)
    requires |v.sizes| == 2
    ensures IsOrder([1, 0], |v.sizes|)
  {
  }

  /** The coordinate of `v` that coordinate `c` of the result reads. */
  ghost function Source(v: View, op: Op, c: seq<int>): seq<int>
    requires |v.sizes| == |v.strides|
  {
    match op
    case Transpose => if |c| == 2 then [c[1], c[0]] else c
    case Permute(order) => if |c| == |order| && IsOrder(order, |v.sizes|) then Scatter(|v.sizes|, order, c) else c
    case Slice(dim, start, _, step) =>
      if dim < |v.sizes| == |c| then c[dim := From(start, v.sizes[dim]) + c[dim] * step] else c
    case Expand(_) => if |v.sizes| <= |c| then Project(v.sizes, c) else c
    case SqueezeAll => if |c| == |Wide(v.sizes, v.sizes)| then Spread(v.sizes, c) else c
    case Squeeze(dim) => if dim < |v.sizes| && v.sizes[dim] == 1 && dim <= |c| then InsertAt(c, dim, 0) else c
    case Unsqueeze(dim) => if dim < |c| then RemoveAt(c, dim) else c
    case Reshape(dims) => if |c| == |dims| && InBox(dims, c) && Numel(v.sizes) == Numel(dims) && Positive(v.sizes)
                          then FlattenInRange(dims, c); Unflatten(v.sizes, Flatten(dims, c)) else c
  }

  /**
   * The index law of every operation: coordinate `c` of the result reads coordinate `Source(v, op, c)`
   * of the view it was made from.
   */
  lemma IndexLaw(v: View, op: Op, w: View, n: nat, c: seq<int>)
    requires Valid(v, n) && Steps(v, op, w) && InBox(w.sizes, c)
    ensures |w.sizes| == |w.strides| && InBox(v.sizes, Source(v, op, c)) && At(w, c) == At(v, Source(v, op, c))
  {
    hide Valid;
    ValidLengths(v, n);
    StepLengths(v, op, w);
    match op
    case Transpose => TransposeLaw(v, c);
    case Permute(order) => PermuteLaw(v, order, c);
    case Slice(dim, start, stop, step) => SliceLaw(v, dim, start, stop, step, n, c);
    case Expand(dims) => ExpandLaw(v, dims, c);
    case SqueezeAll => SqueezeAllLaw(v.sizes, v.strides, c);
    case Squeeze(dim) =>
      if v.sizes[dim] == 1 {
        SqueezeLaw(v, dim, c);
      }
    case Unsqueeze(dim) => UnsqueezeLaw(v, dim, InsertedStride(v, dim), c);
    case Reshape(dims) => ReshapeLaw(v, dims, w.strides, c);
  }

  lemma TransposeLaw(v: View, c: seq<int>)
    requires |v.sizes| == |v.strides| == 2 && InBox(Permuted(v.sizes, [1, 0]), c)
    ensures |c| == 2 && InBox(v.sizes, [c[1], c[0]])
    ensures Dot(Permuted(v.strides, [1, 0]), c) == Dot(v.strides, [c[1], c[0]])
  {
    PermuteLaw(v, [1, 0], c);
    assert Scatter(2, [1, 0], c) == [c[1], c[0]];
  }

  lemma ReshapeLaw(v: View, dims: seq<nat>, t: seq<int>, c: seq<int>)
    requires |v.sizes| == |v.strides| && |t| == |dims| && Numel(v.sizes) == Numel(dims)
    requires SameElements(v.sizes, v.strides, dims, t) && InBox(dims, c)
    ensures Positive(v.sizes) && 0 <= Flatten(dims, c)
    ensures var q := Unflatten(v.sizes, Flatten(dims, c)); InBox(v.sizes, q) && Dot(t, c) == Dot(v.strides, q)
  {
    FlattenInRange(dims, c);
    var f := Flatten(dims, c);
    NumelPositive(v.sizes);
    UnflattenInBox(v.sizes, f);
    FlatOffsetIsDot(v.sizes, v.strides, f);
    FlatOffsetIsDot(dims, t, f);
    hide Numel, FlatOffset, Unflatten, Flatten;
  }

  lemma StepWithin(v: View, op: Op, w: View, n: nat)
    requires Valid(v, n) && Steps(v, op, w)
    ensures Within(w, v)
  {
  }

  /** The geometry check cannot reject the result of an operation on a valid view. */
  lemma StepKeepsValid(v: View, op: Op, w: View, n: nat)
    requires Valid(v, n) && Steps(v, op, w)
    ensures |w.sizes| == |w.strides| && Valid(w, n) && ReadsOnly(w, v)
  {
    hide Steps, At, Source;
    StepLengths(v, op, w);
    StepNonNegative(v, op, w);
    StepWithin(v, op, w, n);
    forall c | InBox(w.sizes, c) ensures exists c' :: InBox(v.sizes, c') && At(w, c) == At(v, c') {
      IndexLaw(v, op, w, n, c);
    }
    ReadsOnlyValid(w, v, n);
  }

  /** A chain: each view is made from the one before. */
  ghost predicate IsChain(views: seq<View>, ops: seq<Op>) {
    && |views| == |ops| + 1
    && forall i :: 0 <= i < |ops| ==> |views[i].sizes| == |views[i].strides| && Steps(views[i], ops[i], views[i + 1])
  }

  /**
   * However many operations are chained, every view of the chain passes the geometry check, and every
   * element it can reach is an element of the first view.
   */
  lemma {:induction false} ChainStaysInside(views: seq<View>, ops: seq<Op>, n: nat, i: nat)
    requires IsChain(views, ops) && Valid(views[0], n) && i < |views|
    ensures Valid(views[i], n) && ReadsOnly(views[i], views[0])
  {
    hide Steps, At, Inside;
    if i > 0 {
      var v, w := views[i - 1], views[i];
      ChainStaysInside(views, ops, n, i - 1);
      assert Steps(v, ops[i - 1], w);
      StepKeepsValid(v, ops[i - 1], w, n);
      forall c | InBox(w.sizes, c) ensures exists c' :: InBox(views[0].sizes, c') && At(w, c) == At(views[0], c') {
        var q :| InBox(v.sizes, q) && At(w, c) == At(v, q);
      }
    }
  }

  // ----- which operations can make too many elements -----

  /** `m` is at most some prefix product of `b`. */
  ghost predicate BelowPrefix(m: nat, b: seq<nat>) {
    exists j :: 0 <= j <= |b| && m <= Numel(b[..j])
  }

  lemma PrefixOver(m: nat, b: seq<nat>)
    requires BelowPrefix(m, b) && m >= UINT64_LIMIT
    ensures TotalOverflows(b)
  {
    var j :| 0 <= j <= |b| && m <= Numel(b[..j]);
    assert Numel(b[..j]) >= UINT64_LIMIT;
  }

  /** Every prefix product of `a` is at most one of `b`, so `a` overflows only where `b` does. */
  lemma PrefixesWithin(a: seq<nat>, b: seq<nat>)
    requires forall i :: 0 <= i <= |a| ==> BelowPrefix(Numel(a[..i]), b)
    ensures TotalOverflows(a) ==> TotalOverflows(b)
  {
    if TotalOverflows(a) {
      var i :| 0 <= i <= |a| && Numel(a[..i]) >= UINT64_LIMIT;
      PrefixOver(Numel(a[..i]), b);
    }
  }

  /** The prefix products of a shape with elements are at most its element count. */
  lemma NonEmptyFits(dims: seq<nat>)
    requires Positive(dims) && Numel(dims) < UINT64_LIMIT
    ensures !TotalOverflows(dims)
  {
    forall i | 0 <= i <= |dims| ensures Numel(dims[..i]) < UINT64_LIMIT {
      PartAtMost(dims, 0, i);
      assert dims[0..i] == dims[..i];
    }
  }

  lemma {:induction false} SmallerPrefix(a: seq<nat>, b: seq<nat>, i: nat)
    requires |a| == |b| && i <= |a| && forall d :: 0 <= d < |a| ==> a[d] <= b[d]
    ensures Numel(a[..i]) <= Numel(b[..i])
  {
    if i > 0 {
      SmallerPrefix(a, b, i - 1);
      assert a[..i][..i - 1] == a[..i - 1] && b[..i][..i - 1] == b[..i - 1];
      var m, k := Numel(a[..i - 1]), Numel(b[..i - 1]);
      assert Numel(a[..i]) == m * a[i - 1] && Numel(b[..i]) == k * b[i - 1];
      hide *;
      MulMono(m, k, a[i - 1]);
      SmallerFactors(k, a[i - 1], b[i - 1]);
    }
  }

  lemma SmallerFactors(k: nat, x: nat, y: nat)
    requires x <= y
    ensures k * x <= k * y
  {
    MulMono(x, y, k);
  }

  lemma SliceShrinks(v: View, dim: nat, start: Bound, stop: Bound, step: nat)
    requires |v.sizes| == |v.strides| && dim < |v.sizes| && step >= 1
    ensures var w := Sliced(v, dim, start, stop, step); TotalOverflows(w.sizes) ==> TotalOverflows(v.sizes)
  {
    var w := Sliced(v, dim, start, stop, step);
    var first, last := First(start, v.sizes[dim]), Last(stop, v.sizes[dim]);
    CountMeaning(first, last, step, v.sizes[dim]);
    MulMono(1, step, v.sizes[dim]);
    assert w.sizes[dim] <= v.sizes[dim];
    hide *;
    SmallerCounts(w.sizes, v.sizes);
  }

  lemma SmallerCounts(a: seq<nat>, b: seq<nat>)
    requires |a| == |b| && forall d :: 0 <= d < |a| ==> a[d] <= b[d]
    ensures TotalOverflows(a) ==> TotalOverflows(b)
  {
    hide Numel;
    if TotalOverflows(a) {
      var i :| 0 <= i <= |a| && Numel(a[..i]) >= UINT64_LIMIT;
      SmallerPrefix(a, b, i);
      assert Numel(b[..i]) >= UINT64_LIMIT;
    }
  }

  /** The sizes of a shape without its ones have the same prefix products. */
  lemma {:induction false} WidePrefix(sizes: seq<nat>, i: nat) returns (j: nat)
    requires i <= |Wide(sizes, sizes)|
    ensures j <= |sizes| && Numel(Wide(sizes, sizes)[..i]) == Numel(sizes[..j])
  {
    var k := |sizes| - 1;
    if i == |Wide(sizes, sizes)| {
      j := |sizes|;
      assert Wide(sizes, sizes)[..i] == Wide(sizes, sizes) && sizes[..j] == sizes;
      WideNumel(sizes);
    } else {
      j := WidePrefix(sizes[..k], i);
      assert Wide(sizes, sizes)[..i] == Wide(sizes[..k], sizes[..k])[..i] && sizes[..k][..j] == sizes[..j];
    }
  }

  lemma {:induction false} WideNumel(sizes: seq<nat>)
    ensures Numel(Wide(sizes, sizes)) == Numel(sizes)
  {
    if |sizes| > 0 {
      var k := |sizes| - 1;
      WideNumel(sizes[..k]);
      var rest := Wide(sizes[..k], sizes[..k]);
      assert sizes[k] != 1 ==> Wide(sizes, sizes)[..|rest|] == rest;
    }
  }

  /** Putting a dimension of size one in, or taking it out, adds no prefix product. */
  lemma OneMorePrefix(sizes: seq<nat>, p: nat, i: nat) returns (j: nat)
    requires p <= |sizes| && i <= |sizes| + 1
    ensures j == if i <= p then i else i - 1
    ensures j <= |sizes| && Numel(InsertAt(sizes, p, 1)[..i]) == Numel(sizes[..j])
  {
    var wider := InsertAt(sizes, p, 1);
    if i <= p {
      j := i;
      assert wider[..i] == sizes[..i];
    } else {
      j := i - 1;
      var one: seq<nat> := [1];
      assert wider[..i] == sizes[..p] + one + sizes[p..j] && sizes[..j] == sizes[..p] + sizes[p..j];
      NumelConcat(sizes[..p] + one, sizes[p..j]);
      NumelConcat(sizes[..p], one);
      NumelConcat(sizes[..p], sizes[p..j]);
      assert one[..0] == [] && Numel(one) == Numel(one[..0]) * 1;
    }
  }

  lemma UnsqueezeCounts(sizes: seq<nat>, p: nat)
    requires p <= |sizes|
    ensures TotalOverflows(InsertAt(sizes, p, 1)) ==> TotalOverflows(sizes)
  {
    var wider := InsertAt(sizes, p, 1);
    forall i | 0 <= i <= |wider| ensures BelowPrefix(Numel(wider[..i]), sizes) {
      var j := OneMorePrefix(sizes, p, i);
    }
    hide Numel, InsertAt;
    PrefixesWithin(wider, sizes);
  }

  lemma SqueezeCounts(sizes: seq<nat>, p: nat)
    requires p < |sizes| && sizes[p] == 1
    ensures TotalOverflows(RemoveAt(sizes, p)) ==> TotalOverflows(sizes)
  {
    var fewer := RemoveAt(sizes, p);
    RemoveInsert(sizes, p);
    forall i | 0 <= i <= |fewer| ensures BelowPrefix(Numel(fewer[..i]), sizes) {
      var at := if i <= p then i else i + 1;
      var j := OneMorePrefix(fewer, p, at);
      assert Numel(fewer[..i]) <= Numel(sizes[..at]);
    }
    hide Numel, RemoveAt;
    PrefixesWithin(fewer, sizes);
  }

  lemma SqueezeAllCounts(sizes: seq<nat>)
    ensures TotalOverflows(Wide(sizes, sizes)) ==> TotalOverflows(sizes)
  {
    var fewer := Wide(sizes, sizes);
    forall i | 0 <= i <= |fewer| ensures BelowPrefix(Numel(fewer[..i]), sizes) {
      var j := WidePrefix(sizes, i);
    }
    hide *;
    PrefixesWithin(fewer, sizes);
  }

  /**
   * From a view whose count fits, only two kinds of operation can produce one whose count does not:
   * expanding, and reordering the dimensions of an empty view, whose zero then comes too late.
   */
  lemma WhoOverflows(v: View, op: Op)
    requires |v.sizes| == |v.strides| && !TotalOverflows(v.sizes) && TotalOverflows(NewSizes(v, op))
    requires !Refused(v, op) && !LeavesInt64(v, op)
    ensures op.Expand? || (Numel(v.sizes) == 0 && (op.Transpose? || op.Permute?))
  {
    hide TotalOverflows, Numel, ReshapeUndefined, Sliced, Permuted, Wide, RemoveAt, InsertAt;
    match op
    case Transpose => ReorderCounts(v, [1, 0]);
    case Permute(order) => ReorderCounts(v, order);
    case Slice(dim, start, stop, step) => SliceShrinks(v, dim, start, stop, step);
    case Expand(_) =>
    case SqueezeAll => SqueezeAllCounts(v.sizes);
    case Squeeze(dim) =>
      if v.sizes[dim] == 1 {
        SqueezeCounts(v.sizes, dim);
      }
    case Unsqueeze(dim) => UnsqueezeCounts(v.sizes, dim);
    case Reshape(dims) =>
  }

  lemma ReorderCounts(v: View, order: seq<nat>)
    requires |v.sizes| == |v.strides| && IsOrder(order, |v.sizes|) && !TotalOverflows(v.sizes)
    ensures Numel(v.sizes) > 0 ==> !TotalOverflows(Permuted(v.sizes, order))
  {
    assert v.sizes[..|v.sizes|] == v.sizes;
    assert Numel(v.sizes) < UINT64_LIMIT;
    hide *;
    PermutedNumel(v.sizes, order);
    NumelPositive(Permuted(v.sizes, order));
    if Numel(v.sizes) > 0 {
      NonEmptyFits(Permuted(v.sizes, order));
    }
  }

  // ----- inputs at which the code does less than the view algebra promises -----

  const TWO_40: nat := 0x100_0000_0000

  /** A single stored element, repeated: the reshape is possible and its arithmetic is undefined. */
  lemma RepeatedElementUndefined()
    ensures var v, dims := View([TWO_62, 2], [0, 0], 0, 1), [2, TWO_62];
            Valid(v, 1) && ReshapeUndefined(v, dims) && SameElements(v.sizes, v.strides, dims, [0, 0])
  {
    var v, dims := View([TWO_62, 2], [0, 0], 0, 1), [2, TWO_62];
    RepeatedElementOverflows();
    ExtentPair(TWO_62, 2, 0, 0);
    TimesAdd(0, 0, 0);
    PairCounts(TWO_62, 2);
    PairCounts(2, TWO_62);
    LastStrideTells(v.sizes, v.strides);
    hide Numel, Extent, Packed, ProductsFit, SameElements, TotalOverflows;
  }

  /** Two stored elements, repeated: the arithmetic is undefined before the answer is known. */
  lemma RepeatedPairUndefined()
    ensures var v, dims := View([TWO_61, 2], [0, 3], 0, 4), [1, TWO_62];
            Valid(v, 4) && ReshapeUndefined(v, dims)
  {
    var v, dims := View([TWO_61, 2], [0, 3], 0, 4), [1, TWO_62];
    RepeatedPairOverflows();
    ExtentPair(TWO_61, 2, 0, 3);
    PairCounts(TWO_61, 2);
    PairCounts(1, TWO_62);
    LastStrideTells(v.sizes, v.strides);
    assert Times(0, TWO_61 - 1) == 0 && Times(3, 1) == 3;
    hide Numel, Extent, Packed, ProductsFit, TotalOverflows, Times;
  }

  lemma PairCounts(a: nat, b: nat)
    ensures Numel([a, b]) == a * b
    ensures a < UINT64_LIMIT && a * b < UINT64_LIMIT ==> !TotalOverflows([a, b])
  {
    NumelPair(a, b);
    var two: seq<nat>, one: seq<nat> := [a, b], [a];
    assert two[..0] == [] && two[..1] == one && two[..2] == two;
    assert Numel([]) == 1;
    hide Numel;
    forall i | 0 <= i <= 2 && a < UINT64_LIMIT && a * b < UINT64_LIMIT ensures Numel(two[..i]) < UINT64_LIMIT {
    }
  }

  lemma LastStrideTells(sizes: seq<nat>, strides: seq<int>)
    requires 0 < |sizes| == |strides| && sizes[|sizes| - 1] != 1 && strides[|sizes| - 1] != 1
    ensures !Packed(sizes, strides)
  {
  }

  /** One element can be expanded to a shape whose count does not fit size_t; the constructor refuses it. */
  lemma ExpandOverflows()
    ensures var v, op := View([1], [1], 0, 1), Expand([TWO_40, TWO_40]);
            && Valid(v, 1) && !TotalOverflows(v.sizes)
            && !Refused(v, op) && !LeavesInt64(v, op) && TotalOverflows(NewSizes(v, op))
  {
    var v, dims := View([1], [1], 0, 1), [TWO_40, TWO_40];
    ExtentPair(1, 1, 1, 1);
    TimesAdd(1, 0, 0);
    NumelPair(1, 1);
    NumelPair(TWO_40, TWO_40);
    var one: seq<nat> := [1];
    assert one[..0] == [] && one[..1] == one && dims[..2] == dims;
    assert Numel(dims[..2]) >= UINT64_LIMIT;
    assert Numel([]) == 1;
    hide Numel, Extent, Times;
    assert Expands(v.sizes, dims);
  }

  /** An empty view can be constructed, but not with its dimensions in another order. */
  lemma EmptyReorderOverflows()
    ensures var v, op := View([0, TWO_40, TWO_40], [0, 0, 0], 0, 0), Permute([1, 2, 0]);
            && Valid(v, 0) && !TotalOverflows(v.sizes)
            && !Refused(v, op) && !LeavesInt64(v, op) && TotalOverflows(NewSizes(v, op))
  {
    var v := View([0, TWO_40, TWO_40], [0, 0, 0], 0, 0);
    var order: seq<nat>, pair: seq<nat> := [1, 2, 0], [TWO_40, TWO_40];
    NumelPair(TWO_40, TWO_40);
    assert Permuted(v.sizes, order)[..2] == pair;
    assert Numel(Permuted(v.sizes, order)[..2]) >= UINT64_LIMIT;
    forall i | 0 <= i <= 3 ensures Numel(v.sizes[..i]) <= 1 {
      ZeroFirst(v.sizes, i);
    }
    assert v.sizes[..3] == v.sizes;
    ZeroFirst(v.sizes, 3);
    hide Numel;
    assert IsOrder(order, 3);
  }

  lemma {:induction false} ZeroFirst(sizes: seq<nat>, i: nat)
    requires i <= |sizes| && |sizes| > 0 && sizes[0] == 0
    ensures Numel(sizes[..i]) == if i == 0 then 1 else 0
  {
    if i > 0 {
      ZeroFirst(sizes, i - 1);
      assert sizes[..i][..i - 1] == sizes[..i - 1];
    }
  }

  lemma PackedItems(dims: seq<nat>)
    ensures |PackedStrides(dims)| == |dims| && forall i :: 0 <= i < |dims| ==> PackedStrides(dims)[i] == Numel(dims[i + 1..])
  {
  }

  lemma PackedInserted(v: View, dim: nat)
    requires |v.sizes| == |v.strides| && dim <= |v.sizes| && v.strides == PackedStrides(v.sizes)
    ensures InsertedStride(v, dim) == Numel(v.sizes[dim..])
  {
    if dim < |v.sizes| {
      assert v.sizes[dim..] == [v.sizes[dim]] + v.sizes[dim + 1..];
      NumelCons(v.sizes[dim], v.sizes[dim + 1..]);
    }
  }

  /** What follows a dimension has as many elements as before, the new dimension included. */
  lemma InsertedTail(dims: seq<nat>, p: nat, i: nat)
    requires p <= |dims| && i <= |dims|
    ensures |InsertAt(dims, p, 1)| == |dims| + 1
    ensures Numel(InsertAt(dims, p, 1)[i + 1..]) == Numel(dims[if i < p then i + 1 else i..])
  {
    var wider := InsertAt(dims, p, 1);
    if i < p {
      var rest := dims[p..];
      assert wider[i + 1..] == dims[i + 1..p] + ([1] + rest) && dims[i + 1..] == dims[i + 1..p] + rest;
      hide *;
      NumelConcat(dims[i + 1..p], [1] + rest);
      NumelConcat(dims[i + 1..p], rest);
      NumelCons(1, rest);
    } else {
      assert wider[i + 1..] == dims[i..];
    }
  }

  /** A new dimension in a packed view steps over the elements that follow it, and the view stays packed. */
  lemma UnsqueezeKeepsPacked(v: View, dim: nat)
    requires |v.sizes| == |v.strides| && dim <= |v.sizes| && v.strides == PackedStrides(v.sizes)
    ensures InsertedStride(v, dim) == Numel(v.sizes[dim..])
    ensures InsertAt(v.strides, dim, InsertedStride(v, dim)) == PackedStrides(InsertAt(v.sizes, dim, 1))
  {
    hide *;
    PackedInserted(v, dim);
    var t, wider := InsertAt(v.strides, dim, InsertedStride(v, dim)), InsertAt(v.sizes, dim, 1);
    InsertedItems(v.strides, dim, InsertedStride(v, dim));
    PackedItems(v.sizes);
    PackedItems(wider);
    forall i | 0 <= i <= |v.sizes| ensures t[i] == PackedStrides(wider)[i] {
      InsertedTail(v.sizes, dim, i);
    }
    assert t == PackedStrides(wider);
  }

  /** Two elements at the ends of a large storage: the stride of a dimension put before them does not fit. */
  lemma UnsqueezeUndefined()
    ensures var v := View([2], [TWO_62], 0, TWO_62 + 1);
            Valid(v, TWO_62 + 1) && LeavesInt64(v, Unsqueeze(0)) && !Refused(v, Unsqueeze(0))
  {
    var v := View([2], [TWO_62], 0, TWO_62 + 1);
    ExtentPair(2, 1, TWO_62, 1);
    assert Times(TWO_62, 1) == TWO_62;
    hide Numel, Extent, Times;
  }

  /** Why an operation does not make a view: the outcome names the reason, and there is one for each. */
  ghost predicate Fails(v: View, op: Op, r: Outcome)
    requires |v.sizes| == |v.strides|
  {
    && (r.ArgumentError? <==> Refused(v, op))
    && (r.UndefinedArithmetic? <==> LeavesInt64(v, op))
    && (r.CountOverflow? <==> !Refused(v, op) && !LeavesInt64(v, op) && TotalOverflows(NewSizes(v, op)))
    && !r.Made? && !r.GeometryRejected?
  }

  /** One more view on a chain. */
  lemma ChainSnoc(views: seq<View>, ops: seq<Op>, op: Op, w: View)
    requires IsChain(views, ops) && |views[|ops|].sizes| == |views[|ops|].strides| && Steps(views[|ops|], op, w)
    ensures IsChain(views + [w], ops + [op])
  {
    hide Steps;
    forall i | 0 <= i < |ops + [op]|
      ensures |(views + [w])[i].sizes| == |(views + [w])[i].strides| && Steps((views + [w])[i], (ops + [op])[i], (views + [w])[i + 1])
    {
      if i < |ops| {
        assert Steps(views[i], ops[i], views[i + 1]);
      }
    }
  }

  lemma NoChainYet(v: View)
    ensures IsChain([v], [])
  {
  }

  /**
   * Carries out a whole chain. `done` operations are performed, one after the other, on the view the one
   * before made. A view is returned exactly when all are; otherwise the next operation fails on the last
   * view, and the outcome is its reason.
   */
  method RunChain(v: View, ops: seq<Op>, ghost n: nat) returns (r: Outcome, done: nat, ghost views: seq<View>)
    requires Valid(v, n) && !TotalOverflows(v.sizes)
    ensures done <= |ops| && IsChain(views, ops[..done]) && views[0] == v
    ensures Valid(views[done], n) && ReadsOnly(views[done], v) && !TotalOverflows(views[done].sizes)
    ensures done == |ops| ==> r == Made(views[done])
    ensures done < |ops| ==> |views[done].sizes| == |views[done].strides| && Fails(views[done], ops[done], r)
    ensures r.CountOverflow? ==> done < |ops| && (ops[done].Expand? || ops[done].Transpose? || ops[done].Permute?)
  {
    hide Valid, Steps, At, TotalOverflows, Refused, LeavesInt64, NewSizes, IsChain, ReadsOnly;
    ValidLengths(v, n);
    ReadsItself(v);
    NoChainYet(v);
    var at := v;
    done, views := 0, [v];
    assert ops[..0] == [];
    while done < |ops|
      invariant done <= |ops| && |views| == done + 1 && views[0] == v && views[done] == at
      invariant IsChain(views, ops[..done])
      invariant Valid(at, n) && |at.sizes| == |at.strides| && ReadsOnly(at, v) && !TotalOverflows(at.sizes)
    {
      r := Perform(at, ops[done], n);
      if r.CountOverflow? {
        WhoOverflows(at, ops[done]);
      }
      if !r.Made? {
        return;
      }
      ChainSnoc(views, ops[..done], ops[done], r.view);
      assert ops[..done] + [ops[done]] == ops[..done + 1];
      ValidLengths(r.view, n);
      ReadsThrough(r.view, at, v);
      at := r.view;
      ValidLengths(at, n);
      done, views := done + 1, views + [at];
    }
    assert ops[..done] == ops;
    return Made(at), done, views;
  }

  lemma ReadsItself(v: View)
    requires |v.sizes| == |v.strides|
    ensures ReadsOnly(v, v)
  {
    hide At;
  }

  lemma ReadsThrough(a: View, b: View, c: View)
    requires |a.sizes| == |a.strides| && |b.sizes| == |b.strides| && |c.sizes| == |c.strides|
    requires ReadsOnly(a, b) && ReadsOnly(b, c)
    ensures ReadsOnly(a, c)
  {
    hide At;
  }
}
