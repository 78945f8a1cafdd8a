/**
 * Elementwise expression trees (expression_interface.h) and their reference meaning. Operators are
 * arbitrary pure functions; memory is a pool of equally wide elements, so a leaf at byte address `p`
 * starts at pool element `p / bytes`.
 */
module Exprs {
  import opened Arith
  import opened Layout
  import opened StridedRefs
  import opened Shapes
  import opened Overlap

  /** A contiguous leaf that carries no shape (`data_view`). */
  datatype DataView = DataView(elem: Elem, address: nat, device: Device, deviceIndex: int, size: nat)

  datatype Expr<!T> =
    | Scalar(value: T)
    | Leaf(ref: StridedRef)
    | Data(view: DataView)
    | Unary(op1: T -> T, rhs: Expr<T>)
    | Binary(op2: (T, T) -> T, lhs: Expr<T>, rhs: Expr<T>)
    | Trinary(op3: (T, T, T) -> T, lhs: Expr<T>, mhs: Expr<T>, rhs: Expr<T>)

  /** The rank-1 packed descriptor that stands for a data view. */
  function AsRef(v: DataView): StridedRef {
    StridedRef(v.elem, v.address, v.device, v.deviceIndex, [v.size], [1], v.size, true)
  }

  /** Tensor leaves in tree order, the order in which the planner numbers them. */
  function Leaves<T>(e: Expr<T>): seq<StridedRef> {
    match e
    case Scalar(_) => []
    case Leaf(r) => [r]
    case Data(v) => [AsRef(v)]
    case Unary(_, x) => Leaves(x)
    case Binary(_, x, y) => Leaves(x) + Leaves(y)
    case Trinary(_, x, y, z) => Leaves(x) + Leaves(y) + Leaves(z)
  }

  /** The value of the tree when its leaves, in tree order, have the values `vals`. */
  function EvalAt<T>(e: Expr<T>, vals: seq<T>): T
    requires |vals| == |Leaves(e)|
  {
    match e
    case Scalar(v) => v
    case Leaf(_) => vals[0]
    case Data(_) => vals[0]
    case Unary(f, x) => f(EvalAt(x, vals))
    case Binary(f, x, y) =>
      var n := |Leaves(x)|;
      f(EvalAt(x, vals[..n]), EvalAt(y, vals[n..]))
    case Trinary(f, x, y, z) =>
      var n, m := |Leaves(x)|, |Leaves(x)| + |Leaves(y)|;
      f(EvalAt(x, vals[..n]), EvalAt(y, vals[n..m]), EvalAt(z, vals[m..]))
  }

  // ----- result shape -----

  ghost predicate AllExpand<T>(e: Expr<T>, out: seq<nat>) {
    forall l :: l in Leaves(e) ==> Expands(l.sizes, out)
  }

  ghost predicate RanksFit<T>(e: Expr<T>) {
    forall l :: l in Leaves(e) ==> |l.sizes| <= MAX_RANK
  }

  ghost predicate CommonShape<T>(acc: seq<nat>, e: Expr<T>, t: seq<nat>) {
    Expands(acc, t) && AllExpand(e, t)
  }

  /** `r` is the least shape that `acc` and every leaf of `e` expand to. */
  ghost predicate LeastShape<T>(acc: seq<nat>, e: Expr<T>, r: seq<nat>) {
    CommonShape(acc, e, r) && forall t :: CommonShape(acc, e, t) ==> Expands(r, t)
  }

  /** Folds the leaf shapes into `acc`, left to right, stopping at the first leaf that does not fit. */
  method AccumulateShape<T>(e: Expr<T>, acc: seq<nat>) returns (ok: bool, shape: seq<nat>)
    requires |acc| <= MAX_RANK
    ensures |shape| <= MAX_RANK
    ensures ok ==> RanksFit(e) && LeastShape(acc, e, shape)
    ensures !ok ==> !RanksFit(e) || forall t :: !CommonShape(acc, e, t)
    decreases e
  {
    match e
    case Scalar(_) =>
      ExpandsReflexive(acc);
      return true, acc;
    case Leaf(r) =>
      ok, shape := AccumulateLeaf(e, acc, r.sizes);
    case Data(v) =>
      ok, shape := AccumulateLeaf(e, acc, [v.size]);
    case Unary(_, x) =>
      ok, shape := AccumulateShape(x, acc);
      assert Leaves(e) == Leaves(x);
      assert forall t :: CommonShape(acc, e, t) <==> CommonShape(acc, x, t);
    case Binary(_, x, y) =>
      ok, shape := AccumulateShape(x, acc);
      ghost var first := shape;
      if ok {
        ok, shape := AccumulateShape(y, shape);
      }
      AccumulateTwo(acc, x, y, e, first, ok, shape);
    case Trinary(_, x, y, z) =>
      ok, shape := AccumulateShape(x, acc);
      ghost var first := shape;
      if ok {
        ok, shape := AccumulateShape(y, shape);
      }
      ghost var xy := Binary((a: T, b: T) => a, x, y);
      AccumulateTwo(acc, x, y, xy, first, ok, shape);
      ghost var second := shape;
      if ok {
        ok, shape := AccumulateShape(z, shape);
      }
      AccumulateTwo(acc, xy, z, e, second, ok, shape);
  }

  lemma ExpandsReflexive(s: seq<nat>)
    ensures Expands(s, s)
  {
  }

  method AccumulateLeaf<T>(ghost e: Expr<T>, acc: seq<nat>, sizes: seq<nat>) returns (ok: bool, shape: seq<nat>)
    requires |acc| <= MAX_RANK && |Leaves(e)| == 1 && Leaves(e)[0].sizes == sizes
    ensures |shape| <= MAX_RANK
    ensures ok ==> RanksFit(e) && LeastShape(acc, e, shape)
    ensures !ok ==> !RanksFit(e) || forall t :: !CommonShape(acc, e, t)
  {
    ok, shape := BroadcastInto(acc, sizes);
    forall t | CommonShape(acc, e, t) ensures Expands(sizes, t) && Compatible(acc, sizes) {
      IncompatibleNoShape(acc, sizes, t);
    }
  }

  lemma CommonSplit<T>(acc: seq<nat>, x: Expr<T>, y: Expr<T>, e: Expr<T>, t: seq<nat>)
    requires Leaves(e) == Leaves(x) + Leaves(y)
    ensures CommonShape(acc, e, t) <==> CommonShape(acc, x, t) && AllExpand(y, t)
  {
    hide Leaves, Expands;
    assert forall l :: l in Leaves(e) <==> l in Leaves(x) || l in Leaves(y);
  }

  lemma TwoLeast<T>(acc: seq<nat>, x: Expr<T>, y: Expr<T>, e: Expr<T>, first: seq<nat>, shape: seq<nat>)
    requires Leaves(e) == Leaves(x) + Leaves(y)
    requires LeastShape(acc, x, first) && LeastShape(first, y, shape)
    ensures LeastShape(acc, e, shape)
  {
    hide Leaves, Expands;
    forall l | l in Leaves(x) ensures Expands(l.sizes, shape) {
      ExpandsTransitive(l.sizes, first, shape);
    }
    ExpandsTransitive(acc, first, shape);
    CommonSplit(acc, x, y, e, shape);
    forall t | CommonShape(acc, e, t) ensures Expands(shape, t) {
      CommonSplit(acc, x, y, e, t);
      assert CommonShape(first, y, t);
    }
  }

  /** Two accumulations in a row accumulate both operands. */
  lemma AccumulateTwo<T>(acc: seq<nat>, x: Expr<T>, y: Expr<T>, e: Expr<T>, first: seq<nat>, ok: bool, shape: seq<nat>)
    requires Leaves(e) == Leaves(x) + Leaves(y)
    requires ok ==> RanksFit(x) && LeastShape(acc, x, first) && RanksFit(y) && LeastShape(first, y, shape)
    requires !ok ==> || !RanksFit(x) || (forall t :: !CommonShape(acc, x, t))
                     || (LeastShape(acc, x, first) && (!RanksFit(y) || forall t :: !CommonShape(first, y, t)))
    ensures ok ==> RanksFit(e) && LeastShape(acc, e, shape)
    ensures !ok ==> !RanksFit(e) || forall t :: !CommonShape(acc, e, t)
  {
    RanksSplit(x, y, e);
    hide *;
    if ok {
      TwoLeast(acc, x, y, e, first, shape);
    } else if RanksFit(e) {
      forall t ensures !CommonShape(acc, e, t) {
        CommonSplit(acc, x, y, e, t);
        CommonSecond(acc, x, y, first, t);
      }
    }
  }

  lemma RanksSplit<T>(x: Expr<T>, y: Expr<T>, e: Expr<T>)
    requires Leaves(e) == Leaves(x) + Leaves(y)
    ensures RanksFit(e) <==> RanksFit(x) && RanksFit(y)
  {
    hide Leaves;
    assert forall l :: l in Leaves(e) <==> l in Leaves(x) || l in Leaves(y);
  }

  /** A shape common to both operands is common to the first one's shape and the second. */
  lemma CommonSecond<T>(acc: seq<nat>, x: Expr<T>, y: Expr<T>, first: seq<nat>, t: seq<nat>)
    ensures LeastShape(acc, x, first) && CommonShape(acc, x, t) && AllExpand(y, t) ==> CommonShape(first, y, t)
  {
    hide AllExpand, Expands;
  }

  /** The broadcast shape of the whole expression, or failure when its leaves have none. */
  method TryExpressionShape<T>(e: Expr<T>) returns (ok: bool, shape: seq<nat>)
    ensures |shape| <= MAX_RANK
    ensures ok ==> RanksFit(e) && AllExpand(e, shape) && forall t :: AllExpand(e, t) ==> Expands(shape, t)
    ensures !ok ==> !RanksFit(e) || forall t :: !AllExpand(e, t)
  {
    ok, shape := AccumulateShape(e, []);
    assert forall t :: AllExpand(e, t) ==> CommonShape([], e, t);
  }
}
