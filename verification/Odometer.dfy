/**
 * The dimension counter that walks a nest without dividing: its state is the quotient/remainder
 * coordinate of the current position and, for every operand, the offset of that coordinate.
 */
module Odometer {
  import opened Arith
  import opened Layout

  ghost predicate Tables(sizes: seq<nat>, strides: seq<seq<int>>) {
    Positive(sizes) && forall op :: 0 <= op < |strides| ==> |strides[op]| == |sizes|
  }

  /** Counter and offsets stand at position `row`. */
  ghost predicate CounterAt(sizes: seq<nat>, strides: seq<seq<int>>, coord: seq<int>, offsets: seq<int>, row: nat) {
    && Tables(sizes, strides)
    && coord == Unflatten(sizes, row)
    && |offsets| == |strides|
    && forall op :: 0 <= op < |strides| ==> offsets[op] == FlatOffset(sizes, strides[op], row)
  }

  /** One more than `q` in the digit of size `n`: either the digit grows, or it wraps and carries. */
  lemma CarryDigit(q: nat, n: nat)
    requires n > 0
    ensures q % n + 1 < n ==> (q + 1) / n == q / n && (q + 1) % n == q % n + 1
    ensures q % n + 1 >= n ==> (q + 1) / n == q / n + 1 && (q + 1) % n == 0 && q % n + 1 == n
  {
    if q % n + 1 < n {
      DivModUnique(q + 1, q / n, q % n + 1, n);
    } else {
      assert q + 1 == q / n * n + n;
      assert (q / n + 1) * n == q / n * n + n;
      DivModUnique(q + 1, q / n + 1, 0, n);
    }
  }

  /**
   * While a carry travels outward: dimensions beyond `d` already show zero, the first `d` still show
   * position `q` of the outer nest, and adding one there completes the step to `next`.
   */
  ghost predicate Carrying(sizes: seq<nat>, d: nat, coord: seq<int>, q: nat, next: nat)
    requires Positive(sizes) && d <= |sizes|
  {
    && |coord| == |sizes|
    && coord[..d] == Unflatten(sizes[..d], q)
    && coord[d..] == Zeros(|sizes| - d)
    && Unflatten(sizes, next) == Unflatten(sizes[..d], q + 1) + Zeros(|sizes| - d)
  }

  ghost predicate CarryingOffset(sizes: seq<nat>, strides: seq<int>, d: nat, offset: int, q: nat, next: nat)
    requires Positive(sizes) && |strides| == |sizes| && d <= |sizes|
  {
    && offset == FlatOffset(sizes[..d], strides[..d], q)
    && FlatOffset(sizes, strides, next) == FlatOffset(sizes[..d], strides[..d], q + 1)
  }

  lemma PrefixTables(sizes: seq<nat>, strides: seq<int>, d: nat)
    requires Positive(sizes) && |strides| == |sizes| && 0 < d <= |sizes|
    ensures sizes[..d][..d - 1] == sizes[..d - 1] && strides[..d][..d - 1] == strides[..d - 1]
  {
  }

  lemma CarryStop(sizes: seq<nat>, d: nat, coord: seq<int>, q: nat, next: nat)
    requires Positive(sizes) && 0 < d <= |sizes| && Carrying(sizes, d, coord, q, next)
    requires coord[d - 1] + 1 < sizes[d - 1]
    ensures coord[d - 1 := coord[d - 1] + 1] == Unflatten(sizes, next)
  {
    var n := sizes[d - 1];
    assert sizes[..d][..d - 1] == sizes[..d - 1];
    assert coord[..d][d - 1] == q % n;
    CarryDigit(q, n);
    assert coord == coord[..d] + coord[d..];
  }

  lemma CarryOn(sizes: seq<nat>, d: nat, coord: seq<int>, q: nat, next: nat)
    requires Positive(sizes) && 0 < d <= |sizes| && Carrying(sizes, d, coord, q, next)
    requires coord[d - 1] + 1 >= sizes[d - 1]
    ensures coord[d - 1] == q % sizes[d - 1]
    ensures Carrying(sizes, d - 1, coord[d - 1 := 0], q / sizes[d - 1], next)
  {
    var n := sizes[d - 1];
    var after := coord[d - 1 := 0];
    assert sizes[..d][..d - 1] == sizes[..d - 1];
    assert coord[..d][d - 1] == q % n;
    CarryDigit(q, n);
    assert after[..d - 1] == coord[..d][..d - 1];
    assert after[d - 1..] == [0] + coord[d..];
    assert Zeros(|sizes| - (d - 1)) == [0] + Zeros(|sizes| - d);
  }

  /** The offset moves with the digit, and undoes the whole digit when it wraps. */
  lemma CarryOffset(sizes: seq<nat>, strides: seq<int>, d: nat, offset: int, q: nat, next: nat)
    requires Positive(sizes) && |strides| == |sizes| && 0 < d <= |sizes|
    requires CarryingOffset(sizes, strides, d, offset, q, next)
    ensures var n, s := sizes[d - 1], strides[d - 1];
            if q % n + 1 < n then offset + Times(s, 1) == FlatOffset(sizes, strides, next)
            else CarryingOffset(sizes, strides, d - 1, offset + Times(s, 1) + Times(s, -(q % n + 1)), q / n, next)
  {
    var n, s := sizes[d - 1], strides[d - 1];
    PrefixTables(sizes, strides, d);
    CarryDigit(q, n);
    TimesAdd(s, q % n, 1);
    TimesAdd(s, q % n + 1, 1);
    TimesAdd(s, 0, 0);
  }

  /** Moves every operand's offset by `x` steps along dimension `d`. */
  method Shift(strides: seq<seq<int>>, d: nat, x: int, offsets: array<int>)
    requires offsets.Length == |strides| && forall op :: 0 <= op < |strides| ==> d < |strides[op]|
    modifies offsets
    ensures forall op :: 0 <= op < |strides| ==> offsets[op] == old(offsets[op]) + Times(strides[op][d], x)
  {
    for k := 0 to |strides|
      invariant forall op :: 0 <= op < k ==> offsets[op] == old(offsets[op]) + Times(strides[op][d], x)
      invariant forall op :: k <= op < |strides| ==> offsets[op] == old(offsets[op])
    {
      offsets[k] := offsets[k] + Times(strides[k][d], x);
    }
  }

  ghost predicate AllCarrying(sizes: seq<nat>, strides: seq<seq<int>>, d: nat, offsets: seq<int>, q: nat, next: nat)
    requires Tables(sizes, strides) && d <= |sizes|
  {
    |offsets| == |strides|
    && forall op :: 0 <= op < |strides| ==> CarryingOffset(sizes, strides[op], d, offsets[op], q, next)
  }

  lemma CarryOffsets(sizes: seq<nat>, strides: seq<seq<int>>, d: nat, offsets: seq<int>, q: nat, next: nat)
    requires Tables(sizes, strides) && 0 < d <= |sizes| && AllCarrying(sizes, strides, d, offsets, q, next)
    ensures q % sizes[d - 1] + 1 < sizes[d - 1] ==> forall op :: 0 <= op < |strides| ==>
              offsets[op] + Times(strides[op][d - 1], 1) == FlatOffset(sizes, strides[op], next)
    ensures q % sizes[d - 1] + 1 >= sizes[d - 1] ==> forall op :: 0 <= op < |strides| ==>
              CarryingOffset(sizes, strides[op], d - 1,
                offsets[op] + Times(strides[op][d - 1], 1) + Times(strides[op][d - 1], -(q % sizes[d - 1] + 1)),
                q / sizes[d - 1], next)
  {
    hide Times, CarryingOffset;
    forall op | 0 <= op < |strides| {
      CarryOffset(sizes, strides[op], d, offsets[op], q, next);
    }
  }

  /** Adds one to the counter and keeps every operand's offset in step. */
  method Advance(sizes: seq<nat>, strides: seq<seq<int>>, coord: array<int>, offsets: array<int>, ghost row: nat)
    requires coord != offsets && CounterAt(sizes, strides, coord[..], offsets[..], row)
    modifies coord, offsets
    ensures CounterAt(sizes, strides, coord[..], offsets[..], row + 1)
  {
    hide Times, Unflatten, FlatOffset;
    var d := |sizes|;
    ghost var q := row;
    CarryBegin(sizes, strides, coord[..], offsets[..], row);
    while d > 0
      invariant 0 <= d <= |sizes| == coord.Length && offsets.Length == |strides|
      invariant Carrying(sizes, d, coord[..], q, row + 1)
      invariant AllCarrying(sizes, strides, d, offsets[..], q, row + 1)
    {
      ghost var before := coord[..];
      CarryOffsets(sizes, strides, d, offsets[..], q, row + 1);
      DigitOf(sizes, d, before, q, row + 1);
      coord[d - 1] := coord[d - 1] + 1;
      Shift(strides, d - 1, 1, offsets);
      assert coord[..] == before[d - 1 := before[d - 1] + 1];
      if coord[d - 1] < sizes[d - 1] {
        CarryStop(sizes, d, before, q, row + 1);
        return;
      }
      CarryOn(sizes, d, before, q, row + 1);
      Shift(strides, d - 1, -coord[d - 1], offsets);
      coord[d - 1] := 0;
      assert coord[..] == before[d - 1 := 0];
      q := q / sizes[d - 1];
      d := d - 1;
    }
    CarryDone(sizes, strides, coord[..], offsets[..], q, row + 1);
  }

  lemma CarryBegin(sizes: seq<nat>, strides: seq<seq<int>>, coord: seq<int>, offsets: seq<int>, row: nat)
    requires CounterAt(sizes, strides, coord, offsets, row)
    ensures Carrying(sizes, |sizes|, coord, row, row + 1)
    ensures AllCarrying(sizes, strides, |sizes|, offsets, row, row + 1)
  {
    assert sizes[..|sizes|] == sizes && coord[..|sizes|] == coord;
    assert forall op :: 0 <= op < |strides| ==> strides[op][..|sizes|] == strides[op];
  }

  /** A carry out of the outermost dimension leaves the counter at zero, where the last row wraps to. */
  lemma CarryDone(sizes: seq<nat>, strides: seq<seq<int>>, coord: seq<int>, offsets: seq<int>, q: nat, next: nat)
    requires Tables(sizes, strides) && Carrying(sizes, 0, coord, q, next) && AllCarrying(sizes, strides, 0, offsets, q, next)
    ensures CounterAt(sizes, strides, coord, offsets, next)
  {
    assert coord[0..] == coord;
  }

  lemma DigitOf(sizes: seq<nat>, d: nat, coord: seq<int>, q: nat, next: nat)
    requires Positive(sizes) && 0 < d <= |sizes| && Carrying(sizes, d, coord, q, next)
    ensures coord[d - 1] == q % sizes[d - 1]
  {
    assert coord[..d][d - 1] == q % sizes[..d][d - 1];
  }

  /** While a position is being divided out: dimensions from `d` on are known, `rem` is left for the rest. */
  ghost predicate Dividing(sizes: seq<nat>, strides: seq<seq<int>>, d: nat, coord: seq<int>, offsets: seq<int>, rem: nat, row: nat)
    requires Tables(sizes, strides) && d <= |sizes|
  {
    && |coord| == |sizes| && |offsets| == |strides|
    && Unflatten(sizes, row) == Unflatten(sizes[..d], rem) + coord[d..]
    && forall op :: 0 <= op < |strides| ==>
         FlatOffset(sizes, strides[op], row) == FlatOffset(sizes[..d], strides[op][..d], rem) + offsets[op]
  }

  lemma DivideOne(sizes: seq<nat>, strides: seq<seq<int>>, d: nat, coord: seq<int>, offsets: seq<int>, after: seq<int>, rem: nat, row: nat)
    requires Tables(sizes, strides) && 0 < d <= |sizes| && Dividing(sizes, strides, d, coord, offsets, rem, row)
    requires |after| == |offsets| && forall op :: 0 <= op < |strides| ==>
               after[op] == offsets[op] + Times(strides[op][d - 1], rem % sizes[d - 1])
    ensures Dividing(sizes, strides, d - 1, coord[d - 1 := rem % sizes[d - 1]], after, rem / sizes[d - 1], row)
  {
    hide Times;
    var n := sizes[d - 1];
    assert sizes[..d][..d - 1] == sizes[..d - 1];
    assert coord[d - 1 := rem % n][d - 1..] == [rem % n] + coord[d..];
    forall op | 0 <= op < |strides|
      ensures FlatOffset(sizes, strides[op], row)
           == FlatOffset(sizes[..d - 1], strides[op][..d - 1], rem / n) + after[op]
    {
      PrefixTables(sizes, strides[op], d);
    }
  }

  /** Derives the counter for `row` by division, once. */
  method StartAt(sizes: seq<nat>, strides: seq<seq<int>>, coord: array<int>, offsets: array<int>, row: nat)
    requires coord != offsets && Tables(sizes, strides)
    requires coord.Length == |sizes| && offsets.Length == |strides|
    requires forall op :: 0 <= op < |strides| ==> offsets[op] == 0
    modifies coord, offsets
    ensures CounterAt(sizes, strides, coord[..], offsets[..], row)
  {
    hide Times;
    var rem: nat, d := row, |sizes|;
    assert sizes[..d] == sizes && coord[..][d..] == [];
    assert forall op :: 0 <= op < |strides| ==> strides[op][..d] == strides[op];
    while d > 0
      invariant 0 <= d <= |sizes|
      invariant Dividing(sizes, strides, d, coord[..], offsets[..], rem, row)
    {
      ghost var before, offs := coord[..], offsets[..];
      coord[d - 1] := rem % sizes[d - 1];
      Shift(strides, d - 1, coord[d - 1], offsets);
      assert coord[..] == before[d - 1 := rem % sizes[d - 1]];
      DivideOne(sizes, strides, d, before, offs, offsets[..], rem, row);
      rem := rem / sizes[d - 1];
      d := d - 1;
    }
    assert coord[..][0..] == coord[..];
  }

  /** A carry adds one stride and takes the whole dimension back; wrapped on the way, the offset is the same. */
  lemma WrappedCarry(offset: int, s: int, n: nat)
    requires FitsInt64(offset + s - Times(s, n))
    ensures Wrapped(Wrapped(offset + s) - Wrapped(Times(s, n))) == offset + s - Times(s, n)
  {
    WrapShift(offset + s);
    WrapShift(Times(s, n));
    hide Times;
    var a, b := offset + s, Times(s, n);
    var x := a - b + 0x8000_0000_0000_0000;
    var q := (Wrapped(a) - Wrapped(b) - (a - b)) / UINT64_LIMIT;
    DivModUnique(Wrapped(a) - Wrapped(b) + 0x8000_0000_0000_0000, q, x, UINT64_LIMIT);
  }

  /** Wrapping moves a number by a multiple of 2^64. */
  lemma WrapShift(x: int)
    ensures (Wrapped(x) - x) % UINT64_LIMIT == 0 && FitsInt64(Wrapped(x))
  {
    var y := x + 0x8000_0000_0000_0000;
    assert y == y / UINT64_LIMIT * UINT64_LIMIT + y % UINT64_LIMIT;
    DivModUnique(Wrapped(x) - x, -(y / UINT64_LIMIT), 0, UINT64_LIMIT);
  }
}
