/**
 * Row kernels of the planner (iteration_plan.h, expression_interface_loader.h): the tree with its
 * leaves replaced by row pointers, the binding of those pointers, and one row's loop.
 */
module Rows {
  import opened Arith
  import opened StridedRefs
  import opened Exprs
  import opened Sweeps

  /** An expression whose tensor leaves are rows: element `i` of a row is at `ptr + i * stride`. */
  datatype RowExpr<!T> =
    | RScalar(value: T)
    | Row(ptr: int, stride: int)
    | RUnary(op1: T -> T, rhs: RowExpr<T>)
    | RBinary(op2: (T, T) -> T, lhs: RowExpr<T>, rhs: RowExpr<T>)
    | RTrinary(op3: (T, T, T) -> T, lhs: RowExpr<T>, mhs: RowExpr<T>, rhs: RowExpr<T>)

  /** Rebuilds the tree with unbound rows for leaves. */
  function LowerRows<T>(e: Expr<T>): RowExpr<T> {
    match e
    case Scalar(v) => RScalar(v)
    case Leaf(_) => Row(0, 0)
    case Data(_) => Row(0, 0)
    case Unary(f, x) => RUnary(f, LowerRows(x))
    case Binary(f, x, y) => RBinary(f, LowerRows(x), LowerRows(y))
    case Trinary(f, x, y, z) => RTrinary(f, LowerRows(x), LowerRows(y), LowerRows(z))
  }

  function RowCount<T>(r: RowExpr<T>): nat {
    match r
    case RScalar(_) => 0
    case Row(_, _) => 1
    case RUnary(_, x) => RowCount(x)
    case RBinary(_, x, y) => RowCount(x) + RowCount(y)
    case RTrinary(_, x, y, z) => RowCount(x) + RowCount(y) + RowCount(z)
  }

  /** Points row leaf number `op`, and those after it, at their elements; returns the next number. */
  function BindRow<T>(r: RowExpr<T>, bases: seq<int>, inner: seq<int>, offsets: seq<int>, op: nat): (b: (RowExpr<T>, nat))
    requires |bases| == |inner| == |offsets| && op + RowCount(r) <= |bases|
    ensures b.1 == op + RowCount(r) && RowCount(b.0) == RowCount(r)
  {
    match r
    case RScalar(_) => (r, op)
    case Row(_, _) => (Row(bases[op] + offsets[op], inner[op]), op + 1)
    case RUnary(f, x) =>
      var (b1, n) := BindRow(x, bases, inner, offsets, op);
      (RUnary(f, b1), n)
    case RBinary(f, x, y) =>
      var (b1, n) := BindRow(x, bases, inner, offsets, op);
      var (b2, m) := BindRow(y, bases, inner, offsets, n);
      (RBinary(f, b1, b2), m)
    case RTrinary(f, x, y, z) =>
      var (b1, n) := BindRow(x, bases, inner, offsets, op);
      var (b2, m) := BindRow(y, bases, inner, offsets, n);
      var (b3, l) := BindRow(z, bases, inner, offsets, m);
      (RTrinary(f, b1, b2, b3), l)
  }

  lemma BindOne<T>(r: RowExpr<T>, bases: seq<int>, inner: seq<int>, offsets: seq<int>, op: nat)
    requires |bases| == |inner| == |offsets| && op + RowCount(r) <= |bases|
    ensures r.RScalar? ==> BindRow(r, bases, inner, offsets, op).0 == r
    ensures r.Row? ==> BindRow(r, bases, inner, offsets, op).0 == Row(bases[op] + offsets[op], inner[op])
    ensures r.RUnary? ==> (
      BindRow(r, bases, inner, offsets, op).0 == RUnary(r.op1, BindRow(r.rhs, bases, inner, offsets, op).0))
  {
  }

  lemma BindTwo<T>(f: (T, T) -> T, x: RowExpr<T>, y: RowExpr<T>, bases: seq<int>, inner: seq<int>, offsets: seq<int>, op: nat)
    requires |bases| == |inner| == |offsets| && op + RowCount(x) + RowCount(y) <= |bases|
    ensures BindRow(RBinary(f, x, y), bases, inner, offsets, op).0
         == RBinary(f, BindRow(x, bases, inner, offsets, op).0, BindRow(y, bases, inner, offsets, op + RowCount(x)).0)
  {
    var b := BindRow(x, bases, inner, offsets, op);
    var c := BindRow(y, bases, inner, offsets, b.1);
    assert BindRow(RBinary(f, x, y), bases, inner, offsets, op) == (RBinary(f, b.0, c.0), c.1);
  }

  lemma BindThree<T>(f: (T, T, T) -> T, x: RowExpr<T>, y: RowExpr<T>, z: RowExpr<T>, bases: seq<int>, inner: seq<int>,
                     offsets: seq<int>, op: nat)
    requires |bases| == |inner| == |offsets| && op + RowCount(x) + RowCount(y) + RowCount(z) <= |bases|
    ensures BindRow(RTrinary(f, x, y, z), bases, inner, offsets, op).0
         == RTrinary(f, BindRow(x, bases, inner, offsets, op).0, BindRow(y, bases, inner, offsets, op + RowCount(x)).0,
                     BindRow(z, bases, inner, offsets, op + RowCount(x) + RowCount(y)).0)
  {
    var b := BindRow(x, bases, inner, offsets, op);
    var c := BindRow(y, bases, inner, offsets, b.1);
    var d := BindRow(z, bases, inner, offsets, c.1);
    assert BindRow(RTrinary(f, x, y, z), bases, inner, offsets, op) == (RTrinary(f, b.0, c.0, d.0), d.1);
  }

  /** Binding works part by part, each part numbered after the rows of the parts before it. */
  lemma BindParts<T>(r: RowExpr<T>, bases: seq<int>, inner: seq<int>, offsets: seq<int>, op: nat)
    requires |bases| == |inner| == |offsets| && op + RowCount(r) <= |bases|
    ensures r.RScalar? ==> BindRow(r, bases, inner, offsets, op).0 == r
    ensures r.Row? ==> BindRow(r, bases, inner, offsets, op).0 == Row(bases[op] + offsets[op], inner[op])
    ensures r.RUnary? ==> (
      BindRow(r, bases, inner, offsets, op).0 == RUnary(r.op1, BindRow(r.rhs, bases, inner, offsets, op).0))
    ensures r.RBinary? ==> (
      BindRow(r, bases, inner, offsets, op).0
      == RBinary(r.op2, BindRow(r.lhs, bases, inner, offsets, op).0,
                 BindRow(r.rhs, bases, inner, offsets, op + RowCount(r.lhs)).0))
    ensures r.RTrinary? ==> (
      BindRow(r, bases, inner, offsets, op).0
      == RTrinary(r.op3, BindRow(r.lhs, bases, inner, offsets, op).0,
                  BindRow(r.mhs, bases, inner, offsets, op + RowCount(r.lhs)).0,
                  BindRow(r.rhs, bases, inner, offsets, op + RowCount(r.lhs) + RowCount(r.mhs)).0))
  {
    hide *;
    CountParts(r);
    match r
    case RScalar(_) => BindOne(r, bases, inner, offsets, op);
    case Row(_, _) => BindOne(r, bases, inner, offsets, op);
    case RUnary(_, _) => BindOne(r, bases, inner, offsets, op);
    case RBinary(f, x, y) => BindTwo(f, x, y, bases, inner, offsets, op);
    case RTrinary(f, x, y, z) => BindThree(f, x, y, z, bases, inner, offsets, op);
  }

  /** Pool elements the rows read at position `i`, in tree order. */
  function Positions<T>(r: RowExpr<T>, i: int): (p: seq<int>)
    ensures |p| == RowCount(r)
  {
    match r
    case RScalar(_) => []
    case Row(ptr, stride) => [ptr + Times(stride, i)]
    case RUnary(_, x) => Positions(x, i)
    case RBinary(_, x, y) => Positions(x, i) + Positions(y, i)
    case RTrinary(_, x, y, z) => Positions(x, i) + Positions(y, i) + Positions(z, i)
  }

  predicate Within(p: seq<int>, n: nat) {
    forall k :: 0 <= k < |p| ==> 0 <= p[k] < n
  }

  /** The scalar loader at position `i` of the row. */
  function EvalRow<T>(r: RowExpr<T>, i: int, heap: seq<T>): T
    requires Within(Positions(r, i), |heap|)
  {
    match r
    case RScalar(v) => v
    case Row(ptr, stride) => assert Positions(r, i)[0] == ptr + Times(stride, i); heap[ptr + Times(stride, i)]
    case RUnary(f, x) => f(EvalRow(x, i, heap))
    case RBinary(f, x, y) =>
      WithinParts(Positions(x, i), Positions(y, i), |heap|);
      f(EvalRow(x, i, heap), EvalRow(y, i, heap))
    case RTrinary(f, x, y, z) =>
      WithinParts(Positions(x, i) + Positions(y, i), Positions(z, i), |heap|);
      WithinParts(Positions(x, i), Positions(y, i), |heap|);
      f(EvalRow(x, i, heap), EvalRow(y, i, heap), EvalRow(z, i, heap))
  }

  lemma WithinParts(a: seq<int>, b: seq<int>, n: nat)
    ensures Within(a + b, n) <==> Within(a, n) && Within(b, n)
  {
    assert forall k :: 0 <= k < |a| ==> (a + b)[k] == a[k];
    assert forall k :: 0 <= k < |b| ==> (a + b)[|a| + k] == b[k];
  }

  /** Every row is unit stride or broadcast, as the vector loader needs. */
  predicate UnitOrSplat<T>(r: RowExpr<T>) {
    match r
    case RScalar(_) => true
    case Row(_, stride) => stride == 0 || stride == 1
    case RUnary(_, x) => UnitOrSplat(x)
    case RBinary(_, x, y) => UnitOrSplat(x) && UnitOrSplat(y)
    case RTrinary(_, x, y, z) => UnitOrSplat(x) && UnitOrSplat(y) && UnitOrSplat(z)
  }

  /** Lane `j` of the vector loader at position `i`: a splat of the first element, or element `i + j`. */
  function EvalLane<T>(r: RowExpr<T>, i: int, j: int, heap: seq<T>): T
    requires UnitOrSplat(r) && Within(Positions(r, i + j), |heap|)
  {
    match r
    case RScalar(v) => v
    case Row(ptr, stride) =>
      assert Positions(r, i + j)[0] == ptr + Times(stride, i + j);
      if stride == 0 then heap[ptr] else heap[ptr + i + j]
    case RUnary(f, x) => f(EvalLane(x, i, j, heap))
    case RBinary(f, x, y) =>
      WithinParts(Positions(x, i + j), Positions(y, i + j), |heap|);
      f(EvalLane(x, i, j, heap), EvalLane(y, i, j, heap))
    case RTrinary(f, x, y, z) =>
      WithinParts(Positions(x, i + j) + Positions(y, i + j), Positions(z, i + j), |heap|);
      WithinParts(Positions(x, i + j), Positions(y, i + j), |heap|);
      f(EvalLane(x, i, j, heap), EvalLane(y, i, j, heap), EvalLane(z, i, j, heap))
  }

  /** Each vector lane computes what the scalar loader computes at its position. */
  lemma {:induction false} LaneIsScalar<T>(r: RowExpr<T>, i: int, j: int, heap: seq<T>)
    requires UnitOrSplat(r) && Within(Positions(r, i + j), |heap|)
    ensures EvalLane(r, i, j, heap) == EvalRow(r, i + j, heap)
    decreases r
  {
    match r
    case RScalar(_) =>
    case Row(_, _) =>
    case RUnary(_, x) => LaneIsScalar(x, i, j, heap);
    case RBinary(_, x, y) =>
      WithinParts(Positions(x, i + j), Positions(y, i + j), |heap|);
      LaneIsScalar(x, i, j, heap);
      LaneIsScalar(y, i, j, heap);
    case RTrinary(_, x, y, z) =>
      WithinParts(Positions(x, i + j) + Positions(y, i + j), Positions(z, i + j), |heap|);
      WithinParts(Positions(x, i + j), Positions(y, i + j), |heap|);
      LaneIsScalar(x, i, j, heap);
      LaneIsScalar(y, i, j, heap);
      LaneIsScalar(z, i, j, heap);
  }

  function Fetch<T>(heap: seq<T>, p: seq<int>): (v: seq<T>)
    requires Within(p, |heap|)
    ensures |v| == |p|
  {
    seq(|p|, k requires 0 <= k < |p| => heap[p[k]])
  }

  lemma FetchConcat<T>(heap: seq<T>, a: seq<int>, b: seq<int>)
    requires Within(a, |heap|) && Within(b, |heap|)
    ensures Within(a + b, |heap|)
    ensures Fetch(heap, a + b)[..|a|] == Fetch(heap, a) && Fetch(heap, a + b)[|a|..] == Fetch(heap, b)
  {
    WithinParts(a, b, |heap|);
  }

  lemma FetchThree<T>(heap: seq<T>, a: seq<int>, b: seq<int>, c: seq<int>)
    requires Within(a + b + c, |heap|)
    ensures Within(a, |heap|) && Within(b, |heap|) && Within(c, |heap|)
    ensures var f := Fetch(heap, a + b + c);
            && f[..|a|] == Fetch(heap, a)
            && f[|a|..|a| + |b|] == Fetch(heap, b)
            && f[|a| + |b|..] == Fetch(heap, c)
  {
    WithinParts(a + b, c, |heap|);
    WithinParts(a, b, |heap|);
  }

  /** Where the leaves from number `op` on stand at position `i`. */
  function LeafPositions(bases: seq<int>, inner: seq<int>, offsets: seq<int>, op: nat, count: nat, i: int): (p: seq<int>)
    requires |bases| == |inner| == |offsets| && op + count <= |bases|
    ensures |p| == count
  {
    seq(count, k requires 0 <= k < count => bases[op + k] + offsets[op + k] + Times(inner[op + k], i))
  }

  /** `p` lists where the leaves from number `op` on stand at position `i`. */
  ghost predicate Stands(p: seq<int>, bases: seq<int>, inner: seq<int>, offsets: seq<int>, op: nat, count: nat, i: int)
    requires |bases| == |inner| == |offsets| && op + count <= |bases|
  {
    p == LeafPositions(bases, inner, offsets, op, count, i)
  }

  lemma StandsConcat(p: seq<int>, q: seq<int>, bases: seq<int>, inner: seq<int>, offsets: seq<int>,
                     op: nat, a: nat, m: nat, b: nat, all: nat, i: int)
    requires |bases| == |inner| == |offsets| && m == op + a && all == a + b && op + all <= |bases|
    requires Stands(p, bases, inner, offsets, op, a, i) && Stands(q, bases, inner, offsets, m, b, i)
    ensures Stands(p + q, bases, inner, offsets, op, all, i)
  {
    hide Times;
  }

  lemma NoLeafPositions(bases: seq<int>, inner: seq<int>, offsets: seq<int>, op: nat, i: int)
    requires |bases| == |inner| == |offsets| && op <= |bases|
    ensures LeafPositions(bases, inner, offsets, op, 0, i) == []
    ensures op < |bases| ==> LeafPositions(bases, inner, offsets, op, 1, i) == [bases[op] + offsets[op] + Times(inner[op], i)]
  {
  }

  /** A row tree that differs from `e` only in its leaves. */
  ghost predicate SameTree<T>(e: Expr<T>, r: RowExpr<T>) {
    match e
    case Scalar(v) => r.RScalar? && r.value == v
    case Leaf(_) => r.Row?
    case Data(_) => r.Row?
    case Unary(f, x) => r.RUnary? && r.op1 == f && SameTree(x, r.rhs)
    case Binary(f, x, y) => r.RBinary? && r.op2 == f && SameTree(x, r.lhs) && SameTree(y, r.rhs)
    case Trinary(f, x, y, z) =>
      r.RTrinary? && r.op3 == f && SameTree(x, r.lhs) && SameTree(y, r.mhs) && SameTree(z, r.rhs)
  }

  lemma {:induction false} SameTreeCount<T>(e: Expr<T>, r: RowExpr<T>)
    requires SameTree(e, r)
    ensures RowCount(r) == |Leaves(e)|
    decreases e
  {
    match e
    case Scalar(_) =>
    case Leaf(_) =>
    case Data(_) =>
    case Unary(_, x) => SameTreeCount(x, r.rhs);
    case Binary(_, x, y) =>
      SameTreeCount(x, r.lhs);
      SameTreeCount(y, r.rhs);
    case Trinary(_, x, y, z) =>
      SameTreeCount(x, r.lhs);
      SameTreeCount(y, r.mhs);
      SameTreeCount(z, r.rhs);
  }

  lemma {:induction false} LoweredTree<T>(e: Expr<T>)
    ensures SameTree(e, LowerRows(e))
    decreases e
  {
    match e
    case Scalar(_) =>
    case Leaf(_) =>
    case Data(_) =>
    case Unary(_, x) => LoweredTree(x);
    case Binary(_, x, y) =>
      LoweredTree(x);
      LoweredTree(y);
    case Trinary(_, x, y, z) =>
      LoweredTree(x);
      LoweredTree(y);
      LoweredTree(z);
  }

  /** Binding changes nothing of the tree but its rows. */
  lemma {:induction false} BindKeepsTree<T>(e: Expr<T>, r: RowExpr<T>, bases: seq<int>, inner: seq<int>, offsets: seq<int>, op: nat)
    requires SameTree(e, r) && |bases| == |inner| == |offsets| && op + RowCount(r) <= |bases|
    ensures SameTree(e, BindRow(r, bases, inner, offsets, op).0)
    decreases e
  {
    hide BindRow;
    BindParts(r, bases, inner, offsets, op);
    match e
    case Scalar(_) =>
    case Leaf(_) =>
    case Data(_) =>
    case Unary(_, x) => BindKeepsTree(x, r.rhs, bases, inner, offsets, op);
    case Binary(_, x, y) =>
      BindKeepsTree(x, r.lhs, bases, inner, offsets, op);
      BindKeepsTree(y, r.rhs, bases, inner, offsets, op + RowCount(r.lhs));
    case Trinary(_, x, y, z) =>
      BindKeepsTree(x, r.lhs, bases, inner, offsets, op);
      BindKeepsTree(y, r.mhs, bases, inner, offsets, op + RowCount(r.lhs));
      BindKeepsTree(z, r.rhs, bases, inner, offsets, op + RowCount(r.lhs) + RowCount(r.mhs));
  }

  /**
   * Binding numbers the leaves in tree order: the bound rows stand, leaf by leaf, at the elements of
   * operands `op`, `op + 1`, and so on.
   */
  lemma {:induction false} BindPositions<T>(r: RowExpr<T>, bases: seq<int>, inner: seq<int>, offsets: seq<int>, op: nat, i: int)
    requires |bases| == |inner| == |offsets| && op + RowCount(r) <= |bases|
    ensures Stands(Positions(BindRow(r, bases, inner, offsets, op).0, i), bases, inner, offsets, op, RowCount(r), i)
    decreases r, 1
  {
    CountParts(r);
    hide *;
    match r
    case RScalar(_) =>
      BoundParts(r, bases, inner, offsets, op, i);
      StandsLeaf(bases, inner, offsets, op, i);
    case Row(_, _) =>
      BoundParts(r, bases, inner, offsets, op, i);
      StandsLeaf(bases, inner, offsets, op, i);
    case RUnary(_, x) =>
      BoundParts(r, bases, inner, offsets, op, i);
      BindPositions(x, bases, inner, offsets, op, i);
    case RBinary(_, _, _) => BindBinary(r, bases, inner, offsets, op, i);
    case RTrinary(_, _, _, _) => BindTrinary(r, bases, inner, offsets, op, i);
  }

  lemma {:induction false} BindBinary<T>(r: RowExpr<T>, bases: seq<int>, inner: seq<int>, offsets: seq<int>, op: nat, i: int)
    requires |bases| == |inner| == |offsets| && op + RowCount(r) <= |bases| && r.RBinary?
    ensures Stands(Positions(BindRow(r, bases, inner, offsets, op).0, i), bases, inner, offsets, op, RowCount(r), i)
    decreases r, 0
  {
    CountParts(r);
    hide *;
    var a, b := RowCount(r.lhs), RowCount(r.rhs);
    var m := op + a;
    BindPositions(r.lhs, bases, inner, offsets, op, i);
    BindPositions(r.rhs, bases, inner, offsets, m, i);
    var p, q := Positions(BindRow(r.lhs, bases, inner, offsets, op).0, i), Positions(BindRow(r.rhs, bases, inner, offsets, m).0, i);
    StandsConcat(p, q, bases, inner, offsets, op, a, m, b, RowCount(r), i);
    BoundParts(r, bases, inner, offsets, op, i);
  }

  lemma {:induction false} BindTrinary<T>(r: RowExpr<T>, bases: seq<int>, inner: seq<int>, offsets: seq<int>, op: nat, i: int)
    requires |bases| == |inner| == |offsets| && op + RowCount(r) <= |bases| && r.RTrinary?
    ensures Stands(Positions(BindRow(r, bases, inner, offsets, op).0, i), bases, inner, offsets, op, RowCount(r), i)
    decreases r, 0
  {
    CountParts(r);
    hide *;
    var a, b, c := RowCount(r.lhs), RowCount(r.mhs), RowCount(r.rhs);
    var m := op + a;
    var n := m + b;
    BindPositions(r.lhs, bases, inner, offsets, op, i);
    BindPositions(r.mhs, bases, inner, offsets, m, i);
    BindPositions(r.rhs, bases, inner, offsets, n, i);
    TrinaryStands(r, bases, inner, offsets, op, m, n, a, b, c, i);
  }

  lemma TrinaryStands<T>(r: RowExpr<T>, bases: seq<int>, inner: seq<int>, offsets: seq<int>, op: nat, m: nat, n: nat,
                         a: nat, b: nat, c: nat, i: int)
    requires |bases| == |inner| == |offsets| && op + RowCount(r) <= |bases| && r.RTrinary?
    requires a == RowCount(r.lhs) && b == RowCount(r.mhs) && c == RowCount(r.rhs) && RowCount(r) == a + b + c
    requires m == op + a && n == m + b
    requires Stands(Positions(BindRow(r.lhs, bases, inner, offsets, op).0, i), bases, inner, offsets, op, a, i)
    requires Stands(Positions(BindRow(r.mhs, bases, inner, offsets, m).0, i), bases, inner, offsets, m, b, i)
    requires Stands(Positions(BindRow(r.rhs, bases, inner, offsets, n).0, i), bases, inner, offsets, n, c, i)
    ensures Stands(Positions(BindRow(r, bases, inner, offsets, op).0, i), bases, inner, offsets, op, RowCount(r), i)
  {
    hide *;
    var p, q := Positions(BindRow(r.lhs, bases, inner, offsets, op).0, i), Positions(BindRow(r.mhs, bases, inner, offsets, m).0, i);
    var o := Positions(BindRow(r.rhs, bases, inner, offsets, n).0, i);
    StandsConcat(p, q, bases, inner, offsets, op, a, m, b, a + b, i);
    StandsConcat(p + q, o, bases, inner, offsets, op, a + b, n, c, RowCount(r), i);
    TrinaryPositions(r, bases, inner, offsets, op, m, n, i);
  }

  lemma TrinaryPositions<T>(r: RowExpr<T>, bases: seq<int>, inner: seq<int>, offsets: seq<int>, op: nat, m: nat, n: nat, i: int)
    requires |bases| == |inner| == |offsets| && op + RowCount(r) <= |bases| && r.RTrinary?
    requires m == op + RowCount(r.lhs) && n == m + RowCount(r.mhs) && n + RowCount(r.rhs) <= |bases|
    ensures Positions(BindRow(r, bases, inner, offsets, op).0, i)
         == Positions(BindRow(r.lhs, bases, inner, offsets, op).0, i)
          + Positions(BindRow(r.mhs, bases, inner, offsets, m).0, i)
          + Positions(BindRow(r.rhs, bases, inner, offsets, n).0, i)
  {
    BindParts(r, bases, inner, offsets, op);
    hide BindRow, Times, RowCount;
  }

  lemma StandsLeaf(bases: seq<int>, inner: seq<int>, offsets: seq<int>, op: nat, i: int)
    requires |bases| == |inner| == |offsets| && op <= |bases|
    ensures Stands([], bases, inner, offsets, op, 0, i)
    ensures op < |bases| ==> Stands([bases[op] + offsets[op] + Times(inner[op], i)], bases, inner, offsets, op, 1, i)
  {
    NoLeafPositions(bases, inner, offsets, op, i);
    hide LeafPositions, Times;
  }

  lemma CountParts<T>(r: RowExpr<T>)
    ensures r.RScalar? ==> RowCount(r) == 0
    ensures r.Row? ==> RowCount(r) == 1
    ensures r.RUnary? ==> RowCount(r) == RowCount(r.rhs)
    ensures r.RBinary? ==> RowCount(r) == RowCount(r.lhs) + RowCount(r.rhs)
    ensures r.RTrinary? ==> RowCount(r) == RowCount(r.lhs) + RowCount(r.mhs) + RowCount(r.rhs)
  {
  }

  /** Where the bound rows of each part stand. */
  lemma BoundParts<T>(r: RowExpr<T>, bases: seq<int>, inner: seq<int>, offsets: seq<int>, op: nat, i: int)
    requires |bases| == |inner| == |offsets| && op + RowCount(r) <= |bases|
    ensures r.RScalar? ==> Positions(BindRow(r, bases, inner, offsets, op).0, i) == []
    ensures r.Row? ==> (
      Positions(BindRow(r, bases, inner, offsets, op).0, i) == [bases[op] + offsets[op] + Times(inner[op], i)])
    ensures r.RUnary? ==> (
      Positions(BindRow(r, bases, inner, offsets, op).0, i) == Positions(BindRow(r.rhs, bases, inner, offsets, op).0, i))
    ensures r.RBinary? ==> (
      Positions(BindRow(r, bases, inner, offsets, op).0, i)
      == Positions(BindRow(r.lhs, bases, inner, offsets, op).0, i)
       + Positions(BindRow(r.rhs, bases, inner, offsets, op + RowCount(r.lhs)).0, i))
  {
    BindParts(r, bases, inner, offsets, op);
    CountParts(r);
    hide BindRow, Times, RowCount;
  }

  /** A row tree evaluates the original operators on the elements at its positions. */
  lemma {:induction false} EvalRowIsEvalAt<T>(e: Expr<T>, r: RowExpr<T>, i: int, heap: seq<T>)
    requires SameTree(e, r) && Within(Positions(r, i), |heap|)
    ensures RowCount(r) == |Leaves(e)|
    ensures EvalRow(r, i, heap) == EvalAt(e, Fetch(heap, Positions(r, i)))
    decreases e
  {
    SameTreeCount(e, r);
    TreeParts(e, r);
    hide *;
    match e
    case Scalar(_) => LeafValue(e, r, i, heap);
    case Leaf(_) => LeafValue(e, r, i, heap);
    case Data(_) => LeafValue(e, r, i, heap);
    case Unary(_, x) =>
      UnaryValue(e, r, i, heap);
      EvalRowIsEvalAt(x, r.rhs, i, heap);
    case Binary(_, x, y) =>
      BinaryValue(e, r, i, heap);
      EvalRowIsEvalAt(x, r.lhs, i, heap);
      EvalRowIsEvalAt(y, r.rhs, i, heap);
    case Trinary(_, x, y, z) =>
      TrinaryValue(e, r, i, heap);
      EvalRowIsEvalAt(x, r.lhs, i, heap);
      EvalRowIsEvalAt(y, r.mhs, i, heap);
      EvalRowIsEvalAt(z, r.rhs, i, heap);
  }

  lemma TreeParts<T>(e: Expr<T>, r: RowExpr<T>)
    requires SameTree(e, r)
    ensures e.Unary? ==> r.RUnary? && SameTree(e.rhs, r.rhs)
    ensures e.Binary? ==> r.RBinary? && SameTree(e.lhs, r.lhs) && SameTree(e.rhs, r.rhs)
    ensures e.Trinary? ==> r.RTrinary? && SameTree(e.lhs, r.lhs) && SameTree(e.mhs, r.mhs) && SameTree(e.rhs, r.rhs)
  {
  }

  lemma LeafValue<T>(e: Expr<T>, r: RowExpr<T>, i: int, heap: seq<T>)
    requires SameTree(e, r) && Within(Positions(r, i), |heap|) && RowCount(r) == |Leaves(e)|
    requires e.Scalar? || e.Leaf? || e.Data?
    ensures EvalRow(r, i, heap) == EvalAt(e, Fetch(heap, Positions(r, i)))
  {
    hide Times;
  }

  lemma UnaryValue<T>(e: Expr<T>, r: RowExpr<T>, i: int, heap: seq<T>)
    requires e.Unary? && SameTree(e, r) && Within(Positions(r, i), |heap|) && RowCount(r) == |Leaves(e)|
    ensures Within(Positions(r.rhs, i), |heap|) && RowCount(r.rhs) == |Leaves(e.rhs)|
    ensures EvalRow(r, i, heap) == e.op1(EvalRow(r.rhs, i, heap))
    ensures EvalAt(e, Fetch(heap, Positions(r, i))) == e.op1(EvalAt(e.rhs, Fetch(heap, Positions(r.rhs, i))))
  {
    hide Fetch, Within;
  }

  lemma BinaryValue<T>(e: Expr<T>, r: RowExpr<T>, i: int, heap: seq<T>)
    requires e.Binary? && SameTree(e, r) && Within(Positions(r, i), |heap|) && RowCount(r) == |Leaves(e)|
    ensures Within(Positions(r.lhs, i), |heap|) && RowCount(r.lhs) == |Leaves(e.lhs)|
    ensures Within(Positions(r.rhs, i), |heap|) && RowCount(r.rhs) == |Leaves(e.rhs)|
    ensures EvalRow(r, i, heap) == e.op2(EvalRow(r.lhs, i, heap), EvalRow(r.rhs, i, heap))
    ensures EvalAt(e, Fetch(heap, Positions(r, i)))
         == e.op2(EvalAt(e.lhs, Fetch(heap, Positions(r.lhs, i))), EvalAt(e.rhs, Fetch(heap, Positions(r.rhs, i))))
  {
    SameTreeCount(e.lhs, r.lhs);
    SameTreeCount(e.rhs, r.rhs);
    WithinParts(Positions(r.lhs, i), Positions(r.rhs, i), |heap|);
    FetchConcat(heap, Positions(r.lhs, i), Positions(r.rhs, i));
    hide Fetch, Within;
  }

  lemma TrinaryValue<T>(e: Expr<T>, r: RowExpr<T>, i: int, heap: seq<T>)
    requires e.Trinary? && SameTree(e, r) && Within(Positions(r, i), |heap|) && RowCount(r) == |Leaves(e)|
    ensures Within(Positions(r.lhs, i), |heap|) && RowCount(r.lhs) == |Leaves(e.lhs)|
    ensures Within(Positions(r.mhs, i), |heap|) && RowCount(r.mhs) == |Leaves(e.mhs)|
    ensures Within(Positions(r.rhs, i), |heap|) && RowCount(r.rhs) == |Leaves(e.rhs)|
    ensures EvalRow(r, i, heap) == e.op3(EvalRow(r.lhs, i, heap), EvalRow(r.mhs, i, heap), EvalRow(r.rhs, i, heap))
    ensures EvalAt(e, Fetch(heap, Positions(r, i)))
         == e.op3(EvalAt(e.lhs, Fetch(heap, Positions(r.lhs, i))), EvalAt(e.mhs, Fetch(heap, Positions(r.mhs, i))),
                  EvalAt(e.rhs, Fetch(heap, Positions(r.rhs, i))))
  {
    SameTreeCount(e.lhs, r.lhs);
    SameTreeCount(e.mhs, r.mhs);
    SameTreeCount(e.rhs, r.rhs);
    var a, b, c := Positions(r.lhs, i), Positions(r.mhs, i), Positions(r.rhs, i);
    var vals := Fetch(heap, Positions(r, i));
    assert Positions(r, i) == a + b + c;
    FetchThree(heap, a, b, c);
    EvalThree(e, vals, Fetch(heap, a), Fetch(heap, b), Fetch(heap, c));
    hide Fetch, Within, Positions, EvalAt, Leaves;
  }

  lemma EvalThree<T>(e: Expr<T>, vals: seq<T>, a: seq<T>, b: seq<T>, c: seq<T>)
    requires e.Trinary? && |vals| == |Leaves(e)| && |a| == |Leaves(e.lhs)| && |b| == |Leaves(e.mhs)| && |c| == |Leaves(e.rhs)|
    requires vals[..|a|] == a && vals[|a|..|a| + |b|] == b && vals[|a| + |b|..] == c
    ensures EvalAt(e, vals) == e.op3(EvalAt(e.lhs, a), EvalAt(e.mhs, b), EvalAt(e.rhs, c))
  {
  }

  /** Bound rows have the inner strides of the operands they stand for. */
  lemma {:induction false} BindUnitOrSplat<T>(r: RowExpr<T>, bases: seq<int>, inner: seq<int>, offsets: seq<int>, op: nat)
    requires |bases| == |inner| == |offsets| && op + RowCount(r) <= |bases|
    requires forall k :: op <= k < op + RowCount(r) ==> inner[k] == 0 || inner[k] == 1
    ensures UnitOrSplat(BindRow(r, bases, inner, offsets, op).0)
    decreases r
  {
    hide BindRow;
    BindParts(r, bases, inner, offsets, op);
    match r
    case RScalar(_) =>
    case Row(_, _) =>
    case RUnary(_, x) => BindUnitOrSplat(x, bases, inner, offsets, op);
    case RBinary(_, x, y) =>
      BindUnitOrSplat(x, bases, inner, offsets, op);
      BindUnitOrSplat(y, bases, inner, offsets, op + RowCount(x));
    case RTrinary(_, x, y, z) =>
      BindUnitOrSplat(x, bases, inner, offsets, op);
      BindUnitOrSplat(y, bases, inner, offsets, op + RowCount(x));
      BindUnitOrSplat(z, bases, inner, offsets, op + RowCount(x) + RowCount(y));
  }
}
