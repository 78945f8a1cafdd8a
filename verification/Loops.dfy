/** The row loop and the two-level loop of the planner, run in place on shared memory (iteration_plan.h). */
module Loops {
  import opened Arith
  import opened Layout
  import opened Exprs
  import opened Sweeps
  import opened Rows
  import opened Nests
  import opened Plans
  import opened Odometer
  import opened Spans

  /** The row at `dstRow` carries out iterations `g0` to `g0 + n` of the sweep. */
  ghost predicate RowOf<T>(s: Sweep<T>, g0: nat, n: nat, r: RowExpr<T>, dstRow: int, dstStride: int) {
    && |s.sources| == |s.writes| && g0 + n <= |s.writes|
    && SameTree(s.e, r)
    && (forall i :: 0 <= i < n ==> s.writes[g0 + i] == dstRow + Times(dstStride, i))
    && (forall i :: 0 <= i < n ==> s.sources[g0 + i] == Positions(r, i))
  }

  lemma RowValue<T>(s: Sweep<T>, g0: nat, n: nat, r: RowExpr<T>, dstRow: int, dstStride: int, i: nat, h: seq<T>)
    requires RowOf(s, g0, n, r, dstRow, dstStride) && i < n && s.Fits(|h|)
    ensures Within(Positions(r, i), |h|) && EvalRow(r, i, h) == s.Value(g0 + i, h)
  {
    var g := g0 + i;
    assert s.sources[g] == Positions(r, i);
    assert forall k :: 0 <= k < |s.sources[g]| ==> 0 <= s.sources[g][k] < |h|;
    EvalRowIsEvalAt(s.e, r, i, h);
    assert Fetch(h, Positions(r, i)) == seq(|s.sources[g]|, k requires 0 <= k < |s.sources[g]| => h[s.sources[g][k]]);
  }

  predicate LaneFits<T>(r: RowExpr<T>, i: int, j: int, n: nat) {
    Within(Positions(r, i + j), n)
  }

  /** One vector register: every lane is evaluated before any is stored. */
  function VectorEval<T>(r: RowExpr<T>, i: int, lanes: nat, h: seq<T>): (v: seq<T>)
    requires UnitOrSplat(r) && forall j :: 0 <= j < lanes ==> LaneFits(r, i, j, |h|)
    ensures |v| == lanes
    ensures forall j :: 0 <= j < lanes ==> LaneFits(r, i, j, |h|) && v[j] == EvalLane(r, i, j, h)
  {
    seq(lanes, j requires 0 <= j < lanes => assert LaneFits(r, i, j, |h|); EvalLane(r, i, j, h))
  }

  lemma WroteNothing<T>(s: Sweep<T>, h: seq<T>, g: nat)
    requires s.Fits(|h|)
    ensures s.Wrote(h, h, Span(g, g))
  {
  }

  /** Storing the next element of the row extends what has been carried out. */
  lemma StoreNext<T>(s: Sweep<T>, before: seq<T>, now: seq<T>, g0: nat, g: nat, v: T)
    requires s.Fits(|before|) && s.Safe() && g0 <= g < |s.writes|
    requires s.Wrote(before, now, Span(g0, g)) && v == s.Value(g, before)
    ensures s.Wrote(before, now[s.writes[g] := v], Span(g0, g + 1))
  {
    WroteOne(s, before, now, Span(g0, g), g, v);
    assert Span(g0, g) + {g} == Span(g0, g + 1);
  }

  /**
   * Evaluates one row in place. With `lanes` greater than zero and a unit-stride tier, whole vectors of
   * `lanes` elements are loaded, computed and stored at a time; the rest is scalar.
   */
  method LoopRow<T>(r: RowExpr<T>, heap: array<T>, dstRow: int, dstStride: int, n: nat, tier: nat, lanes: nat,
                    ghost s: Sweep<T>, ghost g0: nat)
    requires s.Fits(heap.Length) && s.Safe() && RowOf(s, g0, n, r, dstRow, dstStride)
    requires tier <= 2 ==> dstStride == 1 && UnitOrSplat(r)
    modifies heap
    ensures s.Wrote(old(heap[..]), heap[..], Span(g0, g0 + n))
  {
    hide *;
    ghost var before := heap[..];
    var i := 0;
    WroteNothing(s, before, g0);
    if tier <= 2 {
      if lanes > 0 {
        while i + lanes <= n
          invariant 0 <= i <= n
          invariant s.Wrote(before, heap[..], Span(g0, g0 + i))
        {
          StoreVector(r, heap, dstRow, n, i, lanes, s, g0, 0, before);
          i := i + lanes;
        }
      }
      while i < n
        invariant 0 <= i <= n
        invariant s.Wrote(before, heap[..], Span(g0, g0 + i))
      {
        StoreScalar(r, heap, dstRow, 1, n, i, s, g0, 0, before);
        i := i + 1;
      }
      return;
    }
    while i < n
      invariant 0 <= i <= n
      invariant s.Wrote(before, heap[..], Span(g0, g0 + i))
    {
      StoreScalar(r, heap, dstRow, dstStride, n, i, s, g0, 0, before);
      i := i + 1;
    }
  }

  lemma WrittenAt<T>(s: Sweep<T>, g0: nat, n: nat, r: RowExpr<T>, dstRow: int, dstStride: int, i: nat, length: nat)
    requires RowOf(s, g0, n, r, dstRow, dstStride) && s.Fits(length) && i < n
    ensures g0 + i < |s.writes| && s.writes[g0 + i] == dstRow + Times(dstStride, i)
    ensures 0 <= s.writes[g0 + i] < length
    ensures dstStride == 1 ==> s.writes[g0 + i] == dstRow + i
  {
    TimesUnit(dstStride, i);
    hide Times;
  }

  lemma TimesUnit(s: int, x: int)
    ensures s == 1 ==> Times(s, x) == x
  {
  }

  /** Computes and stores one element of a row. */
  method StoreScalar<T>(r: RowExpr<T>, heap: array<T>, dstRow: int, dstStride: int, n: nat, i: nat,
                        ghost s: Sweep<T>, ghost g0: nat, ghost first: nat, ghost before: seq<T>)
    requires s.Fits(heap.Length) && s.Safe() && RowOf(s, g0, n, r, dstRow, dstStride) && first <= i < n
    requires |before| == heap.Length && s.Wrote(before, heap[..], Span(g0 + first, g0 + i))
    modifies heap
    ensures s.Wrote(before, heap[..], Span(g0 + first, g0 + i + 1))
  {
    hide *;
    ghost var now := heap[..];
    RowValue(s, g0, n, r, dstRow, dstStride, i, now);
    WrittenAt(s, g0, n, r, dstRow, dstStride, i, heap.Length);
    UndoneValue(s, before, now, Span(g0 + first, g0 + i), g0 + i);
    var v := EvalRow(r, i, heap[..]);
    StoreNext(s, before, now, g0 + first, g0 + i, v);
    heap[dstRow + Times(dstStride, i)] := v;
    assert heap[..] == now[s.writes[g0 + i] := v];
  }

  lemma LaneAt<T>(r: RowExpr<T>, i: nat, j: nat, h: seq<T>)
    requires Within(Positions(r, i + j), |h|) && UnitOrSplat(r)
    ensures LaneFits(r, i, j, |h|) && EvalLane(r, i, j, h) == EvalRow(r, i + j, h)
  {
    LaneIsScalar(r, i, j, h);
    hide Positions, Within;
  }

  lemma WroteLength<T>(s: Sweep<T>, before: seq<T>, after: seq<T>, done: set<nat>)
    requires s.Fits(|before|) && s.Wrote(before, after, done)
    ensures |after| == |before|
  {
  }

  lemma LaneValue<T>(s: Sweep<T>, g0: nat, n: nat, r: RowExpr<T>, dstRow: int, i: nat, j: nat,
                     first: nat, before: seq<T>, now: seq<T>)
    requires s.Fits(|before|) && s.Safe() && RowOf(s, g0, n, r, dstRow, 1) && i + j < n && UnitOrSplat(r)
    requires s.Wrote(before, now, Span(g0 + first, g0 + i))
    ensures LaneFits(r, i, j, |now|) && EvalLane(r, i, j, now) == s.Value(g0 + i + j, before)
  {
    hide *;
    WroteLength(s, before, now, Span(g0 + first, g0 + i));
    WrittenAt(s, g0, n, r, dstRow, 1, i + j, |now|);
    RowValue(s, g0, n, r, dstRow, 1, i + j, now);
    LaneAt(r, i, j, now);
    UndoneValue(s, before, now, Span(g0 + first, g0 + i), g0 + i + j);
  }

  lemma LaneValues<T>(s: Sweep<T>, g0: nat, n: nat, r: RowExpr<T>, dstRow: int, i: nat, lanes: nat,
                      first: nat, before: seq<T>, now: seq<T>)
    requires s.Fits(|before|) && s.Safe() && RowOf(s, g0, n, r, dstRow, 1) && i + lanes <= n && UnitOrSplat(r)
    requires |now| == |before| && s.Wrote(before, now, Span(g0 + first, g0 + i))
    ensures g0 + i + lanes <= |s.writes|
    ensures forall j :: 0 <= j < lanes ==> LaneFits(r, i, j, |now|)
    ensures forall j :: 0 <= j < lanes ==> VectorEval(r, i, lanes, now)[j] == s.Value(g0 + i + j, before)
  {
    hide *;
    LaneBound(s, g0, n, r, dstRow);
    forall j | 0 <= j < lanes ensures LaneFits(r, i, j, |now|) {
      LaneValue(s, g0, n, r, dstRow, i, j, first, before, now);
    }
    forall j | 0 <= j < lanes ensures VectorEval(r, i, lanes, now)[j] == s.Value(g0 + i + j, before) {
      LaneValue(s, g0, n, r, dstRow, i, j, first, before, now);
    }
  }

  lemma LaneBound<T>(s: Sweep<T>, g0: nat, n: nat, r: RowExpr<T>, dstRow: int)
    requires RowOf(s, g0, n, r, dstRow, 1)
    ensures g0 + n <= |s.writes|
  {
  }

  /** Loads, computes and stores one vector of a row, whose lanes are all loaded before any is stored. */
  method StoreVector<T>(r: RowExpr<T>, heap: array<T>, dstRow: int, n: nat, i: nat, lanes: nat,
                        ghost s: Sweep<T>, ghost g0: nat, ghost first: nat, ghost before: seq<T>)
    requires s.Fits(heap.Length) && s.Safe() && RowOf(s, g0, n, r, dstRow, 1) && first <= i && i + lanes <= n && UnitOrSplat(r)
    requires |before| == heap.Length && s.Wrote(before, heap[..], Span(g0 + first, g0 + i))
    modifies heap
    ensures s.Wrote(before, heap[..], Span(g0 + first, g0 + i + lanes))
  {
    hide *;
    ghost var now := heap[..];
    LaneValues(s, g0, n, r, dstRow, i, lanes, first, before, now);
    var temp := VectorEval(r, i, lanes, heap[..]);
    for j := 0 to lanes
      invariant s.Wrote(before, heap[..], Span(g0 + first, g0 + i + j))
    {
      ghost var mid := heap[..];
      WrittenAt(s, g0, n, r, dstRow, 1, i + j, heap.Length);
      StoreNext(s, before, mid, g0 + first, g0 + i + j, temp[j]);
      heap[dstRow + i + j] := temp[j];
      assert heap[..] == mid[s.writes[g0 + i + j] := temp[j]];
    }
  }

  // ----- rows of a plan -----

  /** What the leaves of iteration `g` read. */
  function SourcesAt(sizes: seq<nat>, strides: seq<seq<int>>, bases: seq<int>, g: nat): (p: seq<int>)
    requires Tables(sizes, strides) && |bases| == |strides| > 0
    ensures |p| == |strides| - 1
  {
    seq(|strides| - 1, k requires 0 <= k < |strides| - 1 => bases[k + 1] + FlatOffset(sizes, strides[k + 1], g))
  }

  /** The nest with these tables carries out the sweep, iteration by iteration. */
  ghost predicate Carries<T>(s: Sweep<T>, dst: int, sizes: seq<nat>, strides: seq<seq<int>>, bases: seq<int>) {
    && Tables(sizes, strides) && |bases| == |strides| == |Leaves(s.e)| + 1
    && |s.writes| == |s.sources| == Numel(sizes)
    && (forall g :: 0 <= g < |s.writes| ==> s.writes[g] == dst + FlatOffset(sizes, strides[0], g))
    && (forall g :: 0 <= g < |s.sources| ==> s.sources[g] == SourcesAt(sizes, strides, bases, g))
  }

  function OuterOf(strides: seq<seq<int>>, k: nat): (r: seq<seq<int>>)
    requires forall op :: 0 <= op < |strides| ==> k <= |strides[op]|
    ensures |r| == |strides| && forall op :: 0 <= op < |r| ==> r[op] == strides[op][..k]
  {
    seq(|strides|, op requires 0 <= op < |strides| => strides[op][..k])
  }

  function InnerOf(strides: seq<seq<int>>, k: nat): (r: seq<int>)
    requires forall op :: 0 <= op < |strides| ==> k < |strides[op]|
    ensures |r| == |strides| && forall op :: 0 <= op < |r| ==> r[op] == strides[op][k]
  {
    seq(|strides|, op requires 0 <= op < |strides| => strides[op][k])
  }

  lemma RowIteration(sizes: seq<nat>, strides: seq<int>, row: nat, i: nat)
    requires Positive(sizes) && |strides| == |sizes| > 0 && i < sizes[|sizes| - 1]
    ensures var k := |sizes| - 1;
            FlatOffset(sizes, strides, row * sizes[k] + i) == FlatOffset(sizes[..k], strides[..k], row) + Times(strides[k], i)
  {
    hide Times;
    var n := sizes[|sizes| - 1];
    DivModUnique(row * n + i, row, i, n);
  }

  lemma RowRange(sizes: seq<nat>, row: nat)
    requires |sizes| > 0 && row < Numel(sizes[..|sizes| - 1])
    ensures row * sizes[|sizes| - 1] + sizes[|sizes| - 1] <= Numel(sizes)
  {
    var m, n := Numel(sizes[..|sizes| - 1]), sizes[|sizes| - 1];
    assert Numel(sizes) == m * n;
    hide *;
    MulMono(row + 1, m, n);
    RowBounds(n, row);
  }

  /** Once the counter stands at `row`, the bound rows carry out the iterations of that row. */
  lemma BoundRow<T>(s: Sweep<T>, dst: int, sizes: seq<nat>, strides: seq<seq<int>>, bases: seq<int>,
                    r: RowExpr<T>, coord: seq<int>, offsets: seq<int>, row: nat)
    requires Carries(s, dst, sizes, strides, bases) && |sizes| > 0 && row < Numel(sizes[..|sizes| - 1])
    requires SameTree(s.e, r)
    requires CounterAt(sizes[..|sizes| - 1], OuterOf(strides, |sizes| - 1), coord, offsets, row)
    ensures 1 + RowCount(r) == |bases|
    ensures var k := |sizes| - 1;
            var b := BindRow(r, bases, InnerOf(strides, k), offsets, 1).0;
            RowOf(s, row * sizes[k], sizes[k], b, dst + offsets[0], strides[0][k])
  {
    hide *;
    var k := |sizes| - 1;
    SameTreeCount(s.e, r);
    CarriesTables(s, dst, sizes, strides, bases);
    CounterLength(sizes[..k], OuterOf(strides, k), coord, offsets, row);
    BindKeepsTree(s.e, r, bases, InnerOf(strides, k), offsets, 1);
    RowRange(sizes, row);
    var n, b := sizes[k], BindRow(r, bases, InnerOf(strides, k), offsets, 1).0;
    var g0 := row * n;
    forall i | 0 <= i < n
      ensures s.writes[g0 + i] == dst + offsets[0] + Times(strides[0][k], i) && s.sources[g0 + i] == Positions(b, i)
    {
      BoundIteration(s, dst, sizes, strides, bases, r, coord, offsets, row, i);
    }
    MakeRow(s, g0, n, b, dst + offsets[0], strides[0][k]);
  }

  lemma CarriesTables<T>(s: Sweep<T>, dst: int, sizes: seq<nat>, strides: seq<seq<int>>, bases: seq<int>)
    requires Carries(s, dst, sizes, strides, bases)
    ensures Tables(sizes, strides) && |bases| == |strides| == |Leaves(s.e)| + 1
    ensures |s.writes| == |s.sources| == Numel(sizes)
    ensures forall op :: 0 <= op < |strides| ==> |strides[op]| == |sizes|
  {
  }

  lemma CounterLength(sizes: seq<nat>, strides: seq<seq<int>>, coord: seq<int>, offsets: seq<int>, row: nat)
    requires CounterAt(sizes, strides, coord, offsets, row)
    ensures |offsets| == |strides|
  {
  }

  lemma MakeRow<T>(s: Sweep<T>, g0: nat, n: nat, r: RowExpr<T>, dstRow: int, dstStride: int)
    requires |s.sources| == |s.writes| && g0 + n <= |s.writes| && SameTree(s.e, r)
    requires forall i :: 0 <= i < n ==>
               s.writes[g0 + i] == dstRow + Times(dstStride, i) && s.sources[g0 + i] == Positions(r, i)
    ensures RowOf(s, g0, n, r, dstRow, dstStride)
  {
    hide SameTree, Positions, Times;
  }

  lemma BoundIteration<T>(s: Sweep<T>, dst: int, sizes: seq<nat>, strides: seq<seq<int>>, bases: seq<int>,
                          r: RowExpr<T>, coord: seq<int>, offsets: seq<int>, row: nat, i: nat)
    requires Carries(s, dst, sizes, strides, bases) && |sizes| > 0 && i < sizes[|sizes| - 1]
    requires row * sizes[|sizes| - 1] + sizes[|sizes| - 1] <= Numel(sizes)
    requires SameTree(s.e, r) && 1 + RowCount(r) == |bases|
    requires CounterAt(sizes[..|sizes| - 1], OuterOf(strides, |sizes| - 1), coord, offsets, row)
    ensures row * sizes[|sizes| - 1] + i < |s.writes| == |s.sources|
    ensures s.writes[row * sizes[|sizes| - 1] + i] == dst + offsets[0] + Times(strides[0][|sizes| - 1], i)
    ensures s.sources[row * sizes[|sizes| - 1] + i]
         == Positions(BindRow(r, bases, InnerOf(strides, |sizes| - 1), offsets, 1).0, i)
  {
    hide Times, FlatOffset, BindRow, SameTree, Positions, Numel, Unflatten, Leaves;
    RowIteration(sizes, strides[0], row, i);
    RowSources(sizes, strides, bases, offsets, row, i);
    BindPositions(r, bases, InnerOf(strides, |sizes| - 1), offsets, 1, i);
  }

  lemma RowSources(sizes: seq<nat>, strides: seq<seq<int>>, bases: seq<int>, offsets: seq<int>, row: nat, i: nat)
    requires Tables(sizes, strides) && |bases| == |strides| == |offsets| > 0 && |sizes| > 0 && i < sizes[|sizes| - 1]
    requires forall op :: 0 <= op < |strides| ==>
               offsets[op] == FlatOffset(sizes[..|sizes| - 1], strides[op][..|sizes| - 1], row)
    ensures SourcesAt(sizes, strides, bases, row * sizes[|sizes| - 1] + i)
         == LeafPositions(bases, InnerOf(strides, |sizes| - 1), offsets, 1, |bases| - 1, i)
  {
    hide Times, FlatOffset;
    forall op | 0 <= op < |strides| {
      RowIteration(sizes, strides[op], row, i);
    }
  }

  /** Rows with unit or zero inner strides suit the vector loader. */
  predicate SimdRows(strides: seq<seq<int>>, k: nat)
    requires forall op :: 0 <= op < |strides| ==> k < |strides[op]|
  {
    && |strides| > 0 && strides[0][k] == 1
    && forall op :: 1 <= op < |strides| ==> strides[op][k] == 0 || strides[op][k] == 1
  }

  lemma NextRows<T>(s: Sweep<T>, before: seq<T>, mid: seq<T>, after: seq<T>, a: nat, b: nat, c: nat)
    requires s.Fits(|before|) && s.Safe() && a <= b <= c
    requires s.Wrote(before, mid, Span(a, b)) && s.Wrote(mid, after, Span(b, c))
    ensures s.Wrote(before, after, Span(a, c))
  {
    WroteCompose(s, before, mid, after, Span(a, b), Span(b, c));
    assert Span(a, b) + Span(b, c) == Span(a, c);
  }

  lemma RowBounds(n: nat, row: nat)
    ensures (row + 1) * n == row * n + n
  {
  }

  /** Binds the leaves to the row the counter stands at and runs it; the rows keep their tree. */
  method PlannedRow<T>(r: RowExpr<T>, dst: int, plan: IterationPlan, heap: array<T>, inner: seq<int>, ghost coord: seq<int>,
                       offsets: seq<int>, ghost row: nat, lanes: nat, ghost s: Sweep<T>) returns (bound: RowExpr<T>)
    requires plan.Shaped() && plan.rank > 0 && Carries(s, dst, plan.sizes, plan.strides, plan.bases)
    requires s.Fits(heap.Length) && s.Safe() && SameTree(s.e, r) && inner == InnerOf(plan.strides, plan.rank - 1)
    requires plan.tier <= 2 ==> SimdRows(plan.strides, plan.rank - 1)
    requires row < Numel(plan.sizes[..plan.rank - 1])
    requires CounterAt(plan.sizes[..plan.rank - 1], OuterOf(plan.strides, plan.rank - 1), coord, offsets, row)
    modifies heap
    ensures SameTree(s.e, bound)
    ensures var n := plan.sizes[plan.rank - 1]; s.Wrote(old(heap[..]), heap[..], Span(row * n, row * n + n))
  {
    hide Times, FlatOffset, BindRow, SameTree, Positions, Numel, Unflatten, RowOf, CounterAt, UnitOrSplat, Span, Leaves;
    var n := plan.sizes[plan.rank - 1];
    BoundRow(s, dst, plan.sizes, plan.strides, plan.bases, r, coord, offsets, row);
    CounterLength(plan.sizes[..plan.rank - 1], OuterOf(plan.strides, plan.rank - 1), coord, offsets, row);
    BindKeepsTree(s.e, r, plan.bases, inner, offsets, 1);
    if plan.tier <= 2 {
      BindUnitOrSplat(r, plan.bases, inner, offsets, 1);
    }
    bound := BindRow(r, plan.bases, inner, offsets, 1).0;
    LoopRow(bound, heap, dst + offsets[0], inner[0], n, plan.tier, lanes, s, row * n);
  }

  lemma OuterTables<T>(s: Sweep<T>, dst: int, plan: IterationPlan)
    requires plan.Shaped() && plan.rank > 0 && Carries(s, dst, plan.sizes, plan.strides, plan.bases)
    ensures |plan.sizes| == plan.rank && |plan.strides| == plan.nOperands
    ensures forall op :: 0 <= op < |plan.strides| ==> |plan.strides[op]| == plan.rank
    ensures Tables(plan.sizes[..plan.rank - 1], OuterOf(plan.strides, plan.rank - 1))
  {
  }

  /**
   * Runs rows `rowBegin` to `rowEnd` of a plan: the counter is derived once by division, and each next
   * row is reached by a counter step. Exactly the iterations of those rows are carried out.
   */
  method Loop2d<T>(lowered: RowExpr<T>, dst: int, plan: IterationPlan, heap: array<T>, rowBegin: nat, rowEnd: nat,
                   lanes: nat, ghost s: Sweep<T>)
    requires plan.Shaped() && plan.rank > 0 && Carries(s, dst, plan.sizes, plan.strides, plan.bases)
    requires s.Fits(heap.Length) && s.Safe() && SameTree(s.e, lowered)
    requires rowBegin <= rowEnd <= Numel(plan.sizes[..plan.rank - 1])
    requires plan.tier <= 2 ==> SimdRows(plan.strides, plan.rank - 1)
    modifies heap
    ensures s.Wrote(old(heap[..]), heap[..],
                    Span(rowBegin * plan.sizes[plan.rank - 1], rowEnd * plan.sizes[plan.rank - 1]))
  {
    hide *;
    OuterTables(s, dst, plan);
    ghost var before := heap[..];
    var outer := plan.rank - 1;
    var innerN := plan.sizes[outer];
    var coord := new int[outer](_ => 0);
    var offsets := new int[plan.nOperands](_ => 0);
    var outerSizes, outerStrides, inner := plan.sizes[..outer], OuterOf(plan.strides, outer), InnerOf(plan.strides, outer);
    StartAt(outerSizes, outerStrides, coord, offsets, rowBegin);
    var r := lowered;
    WroteNothing(s, before, rowBegin * innerN);
    for row := rowBegin to rowEnd
      invariant SameTree(s.e, r) && offsets.Length == plan.nOperands
      invariant CounterAt(outerSizes, outerStrides, coord[..], offsets[..], row)
      invariant heap.Length == |before| && s.Wrote(before, heap[..], Span(rowBegin * innerN, row * innerN))
    {
      ghost var mid := heap[..];
      r := PlannedRow(r, dst, plan, heap, inner, coord[..], offsets[..], row, lanes, s);
      RowBounds(innerN, row);
      MulMono(rowBegin, row, innerN);
      NextRows(s, before, mid, heap[..], rowBegin * innerN, row * innerN, (row + 1) * innerN);
      Advance(outerSizes, outerStrides, coord, offsets, row);
    }
  }
}
