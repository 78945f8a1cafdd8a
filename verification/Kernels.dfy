/**
 * The flat kernels (expressions_evaluator.h): peeling to an aligned destination, unrolled and single
 * vector steps, tails, and chunks split across threads, all over leaves read at the flat index.
 */
module Kernels {
  import opened Arith
  import opened StridedRefs
  import opened Exprs
  import opened Pools
  import opened Sweeps
  import opened Rows
  import opened Spans
  import opened Peels
  import opened Loops
  import opened Schedules

  /**
   * The SIMD build: lanes per register (none when not vectorized), registers per unrolled step, the
   * alignment of a register in elements, and that of an allocation in bytes (64, or 16 on mobile builds).
   */
  datatype Simd = Simd(length: nat, packet: nat, align: nat, allocation: nat) {
    ghost predicate Valid() {
      packet > 0 && Divides(align, length)
    }

    /** The code asks for more than one element in an allocation unit, in whole elements. */
    predicate Wide(bytes: nat)
      requires bytes > 0
      ensures Wide(bytes) <==> 2 * bytes <= allocation
    {
      allocation / bytes > 1
    }
  }

  // ----- where the aligned part begins and ends -----

  /** First element at an aligned address, or the size when there is none or the data is not even element aligned. */
  function FirstAligned(address: nat, bytes: nat, size: nat, simd: Simd): (first: nat)
    requires bytes > 0 && simd.align > 0
    ensures first <= size && (simd.allocation < 2 * bytes ==> first == 0)
    ensures 2 * bytes <= simd.allocation && first < size ==> address % bytes == 0 && Divides(simd.align, address / bytes + first)
    ensures address % bytes == 0 ==>
              forall a :: address / bytes <= a < address / bytes + first ==> !Divides(simd.align, a)
  {
    if !simd.Wide(bytes) then 0
    else if address % bytes != 0 then size
    else
      var e := address / bytes;
      MaskedDistance(e, simd.align);
      var first := (simd.align - e % simd.align) % simd.align;
      if first < size then first else size
  }

  /** End of the whole registers that fit from `first` on. */
  function LastAligned(first: nat, size: nat, length: nat): (last: nat)
    requires first <= size && length > 0
    ensures first <= last <= size && Divides(length, last - first) && size - last < length
  {
    first + Peel(size - first, length)
  }

  /** The aligned body of a destination as its tensor caches it: registers from `first` to `last`. */
  datatype Body = Body(first: nat, last: nat)

  /** The body a contiguous tensor on the CPU caches. */
  function AlignedBody(address: nat, bytes: nat, n: nat, simd: Simd): Body
    requires bytes > 0 && simd.align > 0 && simd.length > 0
  {
    var first := FirstAligned(address, bytes, n, simd);
    Body(first, LastAligned(first, n, simd.length))
  }

  /** The body consists of whole registers at aligned addresses, inside the destination. */
  ghost predicate BodyFits(body: Body, data: int, n: nat, simd: Simd) {
    && body.first <= body.last <= n
    && (simd.length > 0 ==> Divides(simd.length, body.last - body.first))
    && (body.first < body.last ==> Divides(simd.align, data + body.first))
  }

  // ----- leaves at the flat index -----

  /** With every leaf packed, the loader reads element `i` of the leaf: a row of stride one at its start. */
  function FlatRows<T>(e: Expr<T>): RowExpr<T>
    requires forall l :: l in Leaves(e) ==> l.elem.bytes > 0
  {
    match e
    case Scalar(v) => RScalar(v)
    case Leaf(l) =>
      assert l in Leaves(e);
      Row(Base(l), 1)
    case Data(v) =>
      assert AsRef(v) in Leaves(e);
      Row(Base(AsRef(v)), 1)
    case Unary(f, x) => RUnary(f, FlatRows(x))
    case Binary(f, x, y) => RBinary(f, FlatRows(x), FlatRows(y))
    case Trinary(f, x, y, z) => RTrinary(f, FlatRows(x), FlatRows(y), FlatRows(z))
  }

  lemma {:induction false} FlatRowsTree<T>(e: Expr<T>)
    requires forall l :: l in Leaves(e) ==> l.elem.bytes > 0
    ensures SameTree(e, FlatRows(e)) && UnitOrSplat(FlatRows(e))
    decreases e
  {
    match e
    case Scalar(_) =>
    case Leaf(_) =>
    case Data(_) =>
    case Unary(_, x) => FlatRowsTree(x);
    case Binary(_, x, y) =>
      FlatRowsTree(x);
      FlatRowsTree(y);
    case Trinary(_, x, y, z) =>
      FlatRowsTree(x);
      FlatRowsTree(y);
      FlatRowsTree(z);
  }

  function Shifted(ls: seq<StridedRef>, i: int): (p: seq<int>)
    requires forall l :: l in ls ==> l.elem.bytes > 0
    ensures |p| == |ls|
  {
    seq(|ls|, k requires 0 <= k < |ls| => Base(ls[k]) + i)
  }

  lemma ShiftedParts(a: seq<StridedRef>, b: seq<StridedRef>, i: int)
    requires forall l :: l in a + b ==> l.elem.bytes > 0
    ensures forall l :: l in a || l in b ==> l in a + b
    ensures Shifted(a + b, i) == Shifted(a, i) + Shifted(b, i)
  {
  }

  lemma ShiftedOne(l: StridedRef, i: int)
    requires l.elem.bytes > 0
    ensures Shifted([l], i) == [Base(l) + i]
  {
    assert forall x :: x in [l] ==> x == l;
  }

  lemma {:induction false} FlatPositions<T>(e: Expr<T>, i: int)
    requires forall l :: l in Leaves(e) ==> l.elem.bytes > 0
    ensures Positions(FlatRows(e), i) == Shifted(Leaves(e), i)
    decreases e
  {
    hide Times, Shifted;
    match e
    case Scalar(_) =>
      NoneShifted(i);
    case Leaf(l) =>
      ShiftedOne(l, i);
      TimesUnit(1, i);
    case Data(v) =>
      ShiftedOne(AsRef(v), i);
      TimesUnit(1, i);
    case Unary(_, x) => FlatPositions(x, i);
    case Binary(_, x, y) =>
      ShiftedParts(Leaves(x), Leaves(y), i);
      FlatPositions(x, i);
      FlatPositions(y, i);
    case Trinary(_, x, y, z) =>
      ShiftedParts(Leaves(x) + Leaves(y), Leaves(z), i);
      ShiftedParts(Leaves(x), Leaves(y), i);
      FlatPositions(x, i);
      FlatPositions(y, i);
      FlatPositions(z, i);
  }

  lemma NoneShifted(i: int)
    ensures Shifted([], i) == []
  {
  }

  lemma BlockSize(simd: Simd)
    requires simd.Valid() && simd.length > 0
    ensures simd.length * simd.packet > 0
  {
    MulMono(1, simd.packet, simd.length);
  }

  // ----- the loops -----

  /** A vector store that requires an aligned address. */
  method StoreAligned<T>(r: RowExpr<T>, heap: array<T>, data: int, n: nat, i: nat, simd: Simd,
                         ghost s: Sweep<T>, ghost first: nat, ghost before: seq<T>)
    requires simd.Valid() && Divides(simd.align, data + i)
    requires s.Fits(heap.Length) && s.Safe() && RowOf(s, 0, n, r, data, 1) && first <= i && i + simd.length <= n && UnitOrSplat(r)
    requires |before| == heap.Length && s.Wrote(before, heap[..], Span(first, i))
    modifies heap
    ensures s.Wrote(before, heap[..], Span(first, i + simd.length))
  {
    hide *;
    StoreVector(r, heap, data, n, i, simd.length, s, 0, first, before);
  }

  /**
   * Whole registers from `begin` to `end`: unrolled steps of several registers up to `blockEnd`, then
   * single registers. Aligned stores are used only at aligned addresses.
   */
  method RunVectors<T>(r: RowExpr<T>, heap: array<T>, data: int, n: nat, begin: nat, blockEnd: nat, end: nat, simd: Simd,
                       aligned: bool, ghost s: Sweep<T>, ghost first: nat, ghost before: seq<T>)
    requires simd.Valid() && simd.length > 0 && UnitOrSplat(r)
    requires first <= begin <= blockEnd <= end <= n
    requires Divides(simd.length, end - begin) && Divides(simd.length * simd.packet, blockEnd - begin)
    requires aligned ==> Divides(simd.align, data + begin)
    requires s.Fits(heap.Length) && s.Safe() && RowOf(s, 0, n, r, data, 1)
    requires |before| == heap.Length && s.Wrote(before, heap[..], Span(first, begin))
    modifies heap
    ensures s.Wrote(before, heap[..], Span(first, end))
  {
    hide *;
    var length, block := simd.length, simd.length * simd.packet;
    var i := begin;
    BlockMultiple(blockEnd - begin, length, simd.packet);
    if simd.packet > 1 {
      while i < blockEnd
        invariant begin <= i <= blockEnd && Divides(block, blockEnd - i)
        invariant aligned ==> Divides(simd.align, data + i)
        invariant heap.Length == |before| && s.Wrote(before, heap[..], Span(first, i))
      {
        MultipleStep(blockEnd - i, block);
        StoreBlock(r, heap, data, n, i, simd, aligned, s, first, before);
        i := i + block;
      }
      MultipleSum(end - begin, blockEnd - begin, length);
    }
    while i < end
      invariant begin <= i <= end && Divides(length, end - i)
      invariant aligned ==> Divides(simd.align, data + i)
      invariant heap.Length == |before| && s.Wrote(before, heap[..], Span(first, i))
    {
      MultipleStep(end - i, length);
      StoreRegister(r, heap, data, n, i, simd, aligned, s, first, before);
      i := i + length;
    }
  }

  /** One unrolled step: several registers, one after the other. */
  method StoreBlock<T>(r: RowExpr<T>, heap: array<T>, data: int, n: nat, i: nat, simd: Simd, aligned: bool,
                       ghost s: Sweep<T>, ghost first: nat, ghost before: seq<T>)
    requires simd.Valid() && UnitOrSplat(r) && first <= i && i + simd.length * simd.packet <= n
    requires aligned ==> Divides(simd.align, data + i)
    requires s.Fits(heap.Length) && s.Safe() && RowOf(s, 0, n, r, data, 1)
    requires |before| == heap.Length && s.Wrote(before, heap[..], Span(first, i))
    modifies heap
    ensures s.Wrote(before, heap[..], Span(first, i + simd.length * simd.packet))
    ensures aligned ==> Divides(simd.align, data + i + simd.length * simd.packet)
  {
    hide *;
    var length, at := simd.length, i;
    for k := 0 to simd.packet
      invariant at == i + k * length
      invariant aligned ==> Divides(simd.align, data + at)
      invariant heap.Length == |before| && s.Wrote(before, heap[..], Span(first, at))
    {
      MulMono(k + 1, simd.packet, length);
      RowBounds(length, k);
      StoreRegister(r, heap, data, n, at, simd, aligned, s, first, before);
      at := at + length;
    }
    assert simd.packet * length == length * simd.packet;
  }

  /** One register; an aligned store leaves the next address aligned too. */
  method StoreRegister<T>(r: RowExpr<T>, heap: array<T>, data: int, n: nat, i: nat, simd: Simd, aligned: bool,
                          ghost s: Sweep<T>, ghost first: nat, ghost before: seq<T>)
    requires simd.Valid() && UnitOrSplat(r) && first <= i && i + simd.length <= n
    requires aligned ==> Divides(simd.align, data + i)
    requires s.Fits(heap.Length) && s.Safe() && RowOf(s, 0, n, r, data, 1)
    requires |before| == heap.Length && s.Wrote(before, heap[..], Span(first, i))
    modifies heap
    ensures s.Wrote(before, heap[..], Span(first, i + simd.length))
    ensures aligned ==> Divides(simd.align, data + i + simd.length)
  {
    hide RowOf, Span, UnitOrSplat;
    if aligned {
      MultipleSum(data + i, simd.length, simd.align);
      StoreAligned(r, heap, data, n, i, simd, s, first, before);
    } else {
      StoreVector(r, heap, data, n, i, simd.length, s, 0, first, before);
    }
  }

  method RunScalars<T>(r: RowExpr<T>, heap: array<T>, data: int, n: nat, begin: nat, end: nat,
                       ghost s: Sweep<T>, ghost first: nat, ghost before: seq<T>)
    requires first <= begin <= end <= n
    requires s.Fits(heap.Length) && s.Safe() && RowOf(s, 0, n, r, data, 1)
    requires |before| == heap.Length && s.Wrote(before, heap[..], Span(first, begin))
    modifies heap
    ensures s.Wrote(before, heap[..], Span(first, end))
  {
    hide *;
    for i := begin to end
      invariant heap.Length == |before| && s.Wrote(before, heap[..], Span(first, i))
    {
      StoreScalar(r, heap, data, 1, n, i, s, 0, first, before);
    }
  }

  /** One chunk of the flat range: unrolled registers, single registers, then the scalar tail. */
  method RunChunkContiguous<T>(r: RowExpr<T>, heap: array<T>, data: int, n: nat, begin: nat, end: nat, simd: Simd, ghost s: Sweep<T>)
    requires simd.Valid() && UnitOrSplat(r) && begin <= end <= n
    requires s.Fits(heap.Length) && s.Safe() && RowOf(s, 0, n, r, data, 1)
    modifies heap
    ensures s.Wrote(old(heap[..]), heap[..], Span(begin, end))
  {
    hide *;
    ghost var before := heap[..];
    var i := begin;
    WroteNothing(s, before, begin);
    if simd.length > 0 {
      var length, block := simd.length, simd.length * simd.packet;
      BlockSize(simd);
      var loopPeel := begin + Peel(end - begin, block);
      var loopPeel2 := begin + Peel(end - begin, length);
      BlockMultiple(loopPeel - begin, length, simd.packet);
      PeelAfter(end - begin, length, loopPeel - begin);
      RunVectors(r, heap, data, n, i, loopPeel, loopPeel2, simd, false, s, begin, before);
      i := loopPeel2;
    }
    RunScalars(r, heap, data, n, i, end, s, begin, before);
  }
}
