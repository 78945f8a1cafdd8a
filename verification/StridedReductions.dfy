/** CPU reductions over strided or broadcast expressions (expressions_evaluator.h, `reduce_strided`). */
module StridedReductions {
  import opened Arith
  import opened Layout
  import opened StridedRefs
  import opened Shapes
  import opened Exprs
  import opened Pools
  import opened Flats
  import opened Monoids
  import opened Reductions
  import opened Evaluators

  /** The value of the expression at the `i`-th coordinate in C order. */
  ghost function ValueAt<T>(e: Expr<T>, p: Pool, out: seq<nat>, heap: seq<T>, i: nat): T
    requires AllHeld(p, Leaves(e), out) && Positive(out) && |heap| == p.length && i < Numel(out)
  {
    UnflattenInBox(out, i);
    Denote(e, p, out, Unflatten(out, i), heap)
  }

  /** The values of the expression at every coordinate, in C order. */
  ghost function Values<T>(e: Expr<T>, p: Pool, out: seq<nat>, heap: seq<T>): (v: seq<T>)
    requires AllHeld(p, Leaves(e), out) && Positive(out) && |heap| == p.length
    ensures |v| == Numel(out) && forall i :: 0 <= i < |v| ==> v[i] == ValueAt(e, p, out, heap, i)
  {
    seq(Numel(out), i requires 0 <= i < Numel(out) => ValueAt(e, p, out, heap, i))
  }

  datatype Outcome = Folded | OperandsFlat | NoCommonShape | DataNotBroadcast

  lemma OperandShapes<T>(e: Expr<T>, p: Pool, out: seq<nat>)
    requires AllHeld(p, Leaves(e), out)
    ensures forall l :: l in Leaves(e) ==> |l.sizes| == |l.strides| <= |out|
  {
  }

  /** The values that the loop over the element count, in size_t arithmetic, gets to. */
  ghost function CountedValues<T>(e: Expr<T>, p: Pool, out: seq<nat>, heap: seq<T>): seq<T>
    requires AllHeld(p, Leaves(e), out) && |heap| == p.length
  {
    NumelPositive(out);
    CountedWhenFits(out);
    if Numel(out) == 0 then [] else Values(e, p, out, heap)[..ElementCount(out)]
  }

  /** Those are all the values exactly when size_t can hold their number. */
  lemma AllCounted<T>(e: Expr<T>, p: Pool, out: seq<nat>, heap: seq<T>)
    requires AllHeld(p, Leaves(e), out) && |heap| == p.length && Positive(out)
    ensures CountedValues(e, p, out, heap) == Values(e, p, out, heap) <==> Numel(out) < UINT64_LIMIT
  {
    NumelPositive(out);
    CountedWhenFits(out);
    var all := Values(e, p, out, heap);
    assert all[..|all|] == all;
    hide Numel, AllHeld;
  }

  /**
   * Folds the transformed values of an expression in C order, reading leaves rewritten to the index
   * space of the result. Declines when every leaf is flat, for the vector path then applies.
   */
  method ReduceStrided<T, A>(m: Monoid<A>, f: T -> A, e: Expr<T>, heap: array<T>, ghost p: Pool)
    returns (outcome: Outcome, acc: A, ghost out: seq<nat>)
    requires heap.Length == p.length && Operable(e, p)
    ensures outcome.NoCommonShape? <==> !exists shape :: ResultShape(e, shape)
    ensures !outcome.NoCommonShape? ==> ResultShape(e, out) && AllHeld(p, Leaves(e), out)
    ensures !outcome.NoCommonShape? ==> (outcome.OperandsFlat? <==> LeavesFlat(e, ElementCount(out)))
    ensures outcome.DataNotBroadcast? ==> !DataFits(e, ElementCount(out))
    ensures outcome.Folded? ==> DataFits(e, ElementCount(out))
    ensures outcome.Folded? ==> acc == Fold(m, Mapped(f, CountedValues(e, p, out, heap[..])))
    ensures outcome.Folded? && Positive(out) && Numel(out) < UINT64_LIMIT ==> acc == Fold(m, Mapped(f, Values(e, p, out, heap[..])))
  {
    hide Leaves, Holds, Flagged, AllHeld, Expands, Denote, FlatEval, FlatWithin, Unflatten, Rebased, Numel, LeavesFlat, DataFits, Fold;
    hide ElementCount;
    acc := m.id;
    var ok, shape := TryExpressionShape(e);
    out := shape;
    if !ok {
      return NoCommonShape, acc, out;
    }
    assert ResultShape(e, shape);
    OperableHeld(e, p, shape);
    var n := ShapeNumel(shape);
    if LeavesFlat(e, n) {
      return OperandsFlat, acc, out;
    }
    OperandShapes(e, p, shape);
    var fits, lowered := FlatLowered(e, shape);
    if !fits {
      return DataNotBroadcast, acc, out;
    }
    NumelPositive(shape);
    CountedWhenFits(shape);
    ghost var all := Mapped(f, CountedValues(e, p, shape, heap[..]));
    FoldNothing(m, all[..0]);
    for i := 0 to n
      invariant acc == Fold(m, all[..i])
    {
      RebasedEvalIsDenote(e, p, shape, n, i, heap[..]);
      FoldSnoc(m, all[..i], all[i]);
      assert all[..i] + [all[i]] == all[..i + 1];
      acc := m.op(acc, f(FlatEval(lowered, i, heap[..])));
    }
    assert all[..n] == all;
    if Positive(shape) {
      AllCounted(e, p, shape, heap[..]);
    }
    return Folded, acc, out;
  }

  /**
   * The same for a tensor by itself: its elements are read at their logical offsets, as many as it holds.
   * Declines exactly when it is contiguous.
   */
  method ReduceTensor<T, A>(m: Monoid<A>, f: T -> A, l: StridedRef, heap: array<T>, ghost p: Pool)
    returns (folded: bool, acc: A)
    requires heap.Length == p.length && Holds(p, l)
    ensures AllHeld(p, Leaves(Expr<T>.Leaf(l)), l.sizes)
    ensures folded <==> !l.contiguous
    ensures folded && l.numel > 0 ==> Positive(l.sizes) && acc == Fold(m, Mapped(f, Values(Leaf(l), p, l.sizes, heap[..])))
    ensures folded && l.numel == 0 ==> acc == m.id
  {
    hide Leaves, AllHeld, Denote, Unflatten, Numel, Fold, FlatOffset;
    acc := m.id;
    TensorHeld<T>(p, l);
    NumelPositive(l.sizes);
    if l.contiguous {
      return false, acc;
    }
    if l.numel == 0 {
      return true, acc;
    }
    ghost var all := Mapped(f, Values(Leaf(l), p, l.sizes, heap[..]));
    FoldNothing(m, all[..0]);
    for i := 0 to l.numel
      invariant acc == Fold(m, all[..i])
    {
      TensorElement(p, l, i, heap[..]);
      FoldSnoc(m, all[..i], all[i]);
      assert all[..i] + [all[i]] == all[..i + 1];
      var off := StridedOffset(l.sizes, l.strides, l.contiguous, i);
      acc := m.op(acc, f(heap[Base(l) + off]));
    }
    assert all[..l.numel] == all;
    return true, acc;
  }

  lemma TensorHeld<T>(p: Pool, l: StridedRef)
    requires Holds(p, l)
    ensures l.Valid() && |l.sizes| == |l.strides| && l.elem.bytes > 0 && l.numel == Numel(l.sizes)
    ensures AllHeld(p, Leaves(Expr<T>.Leaf(l)), l.sizes)
  {
    assert Expands(l.sizes, l.sizes);
    hide Numel;
  }

  /** The element at the `i`-th logical offset is the one at the `i`-th coordinate. */
  lemma TensorElement<T>(p: Pool, l: StridedRef, i: nat, heap: seq<T>)
    requires Holds(p, l) && Positive(l.sizes) && i < Numel(l.sizes) && |heap| == p.length && !l.contiguous
    requires |l.sizes| == |l.strides| && l.elem.bytes > 0 && AllHeld(p, Leaves(Expr<T>.Leaf(l)), l.sizes)
    ensures 0 <= Base(l) + LogicalOffset(l.sizes, l.strides, l.contiguous, i) < |heap|
    ensures heap[Base(l) + LogicalOffset(l.sizes, l.strides, l.contiguous, i)] == ValueAt(Leaf(l), p, l.sizes, heap, i)
  {
    var c := Unflatten(l.sizes, i);
    UnflattenInBox(l.sizes, i);
    ProjectSameShape(l.sizes, c);
    FlatOffsetIsDot(l.sizes, l.strides, i);
    assert l in Leaves(Expr<T>.Leaf(l));
    IndexInPool(p, l, l.sizes, c);
    hide Unflatten, Numel, Dot, Extent, FlatOffset;
  }

  // ----- an element count beyond size_t -----

  const WIDE: nat := 0x2_0000_0000

  /** One pool element repeated in every direction. */
  function RepeatedRef(p: Pool, sizes: seq<nat>): StridedRef {
    StridedRef(p.elem, p.elem.bytes, CPU, p.deviceIndex, sizes, [0, 0], WIDE, false)
  }

  lemma RepeatedHeld(p: Pool, sizes: seq<nat>)
    requires 1 <= p.elem.bytes <= 16 && p.length >= 2 && (sizes == [WIDE, 1] || sizes == [1, WIDE])
    ensures Holds(p, RepeatedRef(p, sizes)) && Flagged(RepeatedRef(p, sizes))
  {
    NumelPair(sizes[0], sizes[1]);
    assert sizes == [sizes[0], sizes[1]];
    var l := RepeatedRef(p, sizes);
    ExtentPair(sizes[0], sizes[1], 0, 0);
    hide Extent, Numel, Times;
  }

  /**
   * A column and a row of 2^33 elements each, both repeating a single one, broadcast to 2^66 elements.
   * Their count wraps to zero, so the loop folds nothing at all.
   */
  lemma WideSumIsEmpty<T>(op: (T, T) -> T, p: Pool, heap: seq<T>)
    requires 1 <= p.elem.bytes <= 16 && p.length >= 2 && |heap| == p.length
    ensures var e := Binary(op, Leaf(RepeatedRef(p, [WIDE, 1])), Leaf(RepeatedRef(p, [1, WIDE])));
            && Operable(e, p) && ResultShape(e, [WIDE, WIDE]) && AllHeld(p, Leaves(e), [WIDE, WIDE])
            && !LeavesFlat(e, ElementCount([WIDE, WIDE])) && DataFits(e, ElementCount([WIDE, WIDE]))
            && Numel([WIDE, WIDE]) == 4 * UINT64_LIMIT
            && CountedValues(e, p, [WIDE, WIDE], heap) == []
  {
    var a, b := RepeatedRef(p, [WIDE, 1]), RepeatedRef(p, [1, WIDE]);
    var e := Binary(op, Leaf(a), Leaf(b));
    RepeatedHeld(p, [WIDE, 1]);
    RepeatedHeld(p, [1, WIDE]);
    NumelPair(WIDE, WIDE);
    assert Leaves(e) == [a, b];
    forall t | AllExpand(e, t) ensures Expands([WIDE, WIDE], t) {
      assert a in Leaves(e) && b in Leaves(e);
      ExpandsBoth(t);
    }
    hide Holds, Flagged, Numel;
  }

  lemma ExpandsBoth(t: seq<nat>)
    requires Expands([WIDE, 1], t) && Expands([1, WIDE], t)
    ensures Expands([WIDE, WIDE], t)
  {
    assert [WIDE, 1][0] == t[0 + |t| - 2] && [1, WIDE][1] == t[1 + |t| - 2];
  }
}
