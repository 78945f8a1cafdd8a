/** Slicing a view with Python's rules (tensor.h, `slice`). */
module Slices {
  import opened Arith
  import opened Layout
  import opened Views

  datatype Bound = Missing | Index(index: int)

  /** Negative values count from the end; both kinds are then clamped to `[0, size]`. */
  function Clamp(v: int, size: nat): (r: nat)
    ensures r <= size
    ensures 0 <= v <= size ==> r == v
    ensures v < 0 <= v + size ==> r == v + size
    ensures v > size ==> r == size
    ensures v + size < 0 ==> r == 0
  {
    var u := if v < 0 then v + size else v;
    var low := if u > 0 then u else 0;
    if low < size then low else size
  }

  function First(start: Bound, size: nat): nat {
    Clamp(if start.Missing? then 0 else start.index, size)
  }

  function Last(stop: Bound, size: nat): nat {
    Clamp(if stop.Missing? then size else stop.index, size)
  }

  function Count(first: nat, last: nat, step: nat): nat
    requires step >= 1
  {
    if last > first then (last - first + step - 1) / step else 0
  }

  /** Where a slice begins, read off its argument: from the front, or from the end, and inside the dimension. */
  ghost function From(start: Bound, size: nat): int {
    match start
    case Missing => 0
    case Index(i) => if i > size then size else if i >= 0 then i else if i + size >= 0 then i + size else 0
  }

  /** Where it ends, read off in the same way. */
  ghost function To(stop: Bound, size: nat): int {
    match stop
    case Missing => size
    case Index(i) => if i > size then size else if i >= 0 then i else if i + size >= 0 then i + size else 0
  }

  /**
   * Both are what the arguments ask for: of the indices there are, those at or after `From` are the ones
   * not before the start, and those below `To` the ones before the stop; both lie inside the dimension.
   */
  lemma BoundsMeaning(start: Bound, stop: Bound, size: nat, x: int)
    requires 0 <= x < size
    ensures 0 <= From(start, size) <= size && 0 <= To(stop, size) <= size
    ensures x >= From(start, size) <==>
              start.Missing? || (if start.index < 0 then x >= size + start.index else x >= start.index)
    ensures x < To(stop, size) <==>
              stop.Missing? || (if stop.index < 0 then x < size + stop.index else x < stop.index)
  {
  }

  lemma FirstLast(start: Bound, stop: Bound, size: nat)
    ensures First(start, size) == From(start, size) && Last(stop, size) == To(stop, size)
  {
  }

  /** The elements of a slice are those of every `step`-th index from its beginning, before its end. */
  lemma SlicedCount(v: View, dim: nat, start: Bound, stop: Bound, step: nat, i: nat)
    requires dim < |v.sizes| == |v.strides| && step >= 1
    ensures i < Sliced(v, dim, start, stop, step).sizes[dim] <==>
              From(start, v.sizes[dim]) + i * step < To(stop, v.sizes[dim])
  {
    FirstLast(start, stop, v.sizes[dim]);
    CountMeaning(First(start, v.sizes[dim]), Last(stop, v.sizes[dim]), step, i);
    hide Count, First, Last, From, To;
  }

  /** Element `i` of the slice exists exactly when its position is before the stop. */
  lemma CountMeaning(first: nat, last: nat, step: nat, i: nat)
    requires step >= 1
    ensures i < Count(first, last, step) <==> first + i * step < last
  {
    if last > first {
      var x := last - first + step - 1;
      var q := x / step;
      assert x == q * step + x % step;
      if i < q { MulMono(i + 1, q, step); } else { MulMono(q, i, step); }
    } else {
      MulMono(0, i, step);
    }
  }

  /** The signed arithmetic of the slice stays inside int64_t: the step is added before one is subtracted. */
  predicate InRange(v: View, dim: nat, start: Bound, stop: Bound, step: nat)
    requires dim < |v.sizes| == |v.strides|
  {
    var first, last := First(start, v.sizes[dim]), Last(stop, v.sizes[dim]);
    && (last > first ==> last - first + step <= INT64_MAX)
    && FitsInt64(v.strides[dim] * step)
  }

  /** The view of a slice: start, stride and size of one dimension change. */
  function Sliced(v: View, dim: nat, start: Bound, stop: Bound, step: nat): View
    requires dim < |v.sizes| == |v.strides| && step >= 1
  {
    var first, last := First(start, v.sizes[dim]), Last(stop, v.sizes[dim]);
    var offset := (first * v.strides[dim]) % UINT64_LIMIT;
    View(v.sizes[dim := Count(first, last, step)], v.strides[dim := v.strides[dim] * step],
         if v.window > offset then v.offset + offset else v.offset,
         if v.window > offset then v.window - offset else v.window)
  }

  /** `slice(dim, start, stop, step)`. */
  method DoSlice(v: View, dim: nat, start: Bound, stop: Bound, step: int) returns (r: ViewResult)
    requires |v.sizes| == |v.strides|
    ensures r == if dim >= |v.sizes| || step < 1 then Rejected
                 else if !InRange(v, dim, start, stop, step) then Undefined
                 else Ok(Sliced(v, dim, start, stop, step))
    ensures r.Ok? ==> |r.view.sizes| == |v.sizes| && forall i: nat ::
              i < r.view.sizes[dim] <==> From(start, v.sizes[dim]) + i * step < To(stop, v.sizes[dim])
  {
    if dim < |v.sizes| && step >= 1 {
      forall i: nat {
        SlicedCount(v, dim, start, stop, step, i);
      }
    }
    hide From, To;
    if dim >= |v.sizes| || step < 1 {
      return Rejected;
    }
    var size := v.sizes[dim];
    var first, last := First(start, size), Last(stop, size);
    var newSize := 0;
    if last > first {
      if last - first + step > INT64_MAX {
        return Undefined;
      }
      newSize := (last - first + step - 1) / step;
    }
    if !FitsInt64(v.strides[dim] * step) {
      return Undefined;
    }
    var offset := (first * v.strides[dim]) % UINT64_LIMIT;
    var storageSize := if v.window > offset then v.window - offset else 0;
    var sizes, strides := v.sizes[dim := newSize], v.strides[dim := v.strides[dim] * step];
    return Ok(if storageSize == 0 then v.(sizes := sizes, strides := strides)
              else View(sizes, strides, v.offset + offset, storageSize));
  }

  lemma {:induction false} DotRestride(strides: seq<int>, c: seq<int>, d: nat, s: int)
    requires |strides| == |c| && d < |c|
    ensures Dot(strides[d := s], c) == Dot(strides, c) - Times(strides[d], c[d]) + Times(s, c[d])
  {
    hide Times;
    var k := |c| - 1;
    if d == k {
      assert strides[d := s][..k] == strides[..k];
    } else {
      assert strides[d := s][..k] == strides[..k][d := s];
      DotRestride(strides[..k], c[..k], d, s);
    }
  }

  lemma StepProduct(s: int, step: int, first: int, x: int)
    ensures Times(s, first + x * step - x) == Times(s * step, x) + first * s - Times(s, x)
  {
    assert s * (first + x * step - x) == s * first + s * (x * step) - s * x;
    assert s * (x * step) == s * step * x;
  }

  /** The index a slice selects lies inside the dimension. */
  lemma SelectedIndex(v: View, dim: nat, start: Bound, stop: Bound, step: nat, c: seq<int>)
    requires |v.sizes| == |v.strides| && dim < |v.sizes| && step >= 1
    requires InBox(Sliced(v, dim, start, stop, step).sizes, c)
    ensures First(start, v.sizes[dim]) < v.sizes[dim]
    ensures InBox(v.sizes, c[dim := First(start, v.sizes[dim]) + c[dim] * step])
  {
    var first, last := First(start, v.sizes[dim]), Last(stop, v.sizes[dim]);
    assert 0 <= c[dim] < Count(first, last, step);
    CountMeaning(first, last, step, c[dim]);
    MulMono(0, c[dim], step);
    hide Count, First, Last, Clamp;
    var q := c[dim := first + c[dim] * step];
    forall d | 0 <= d < |v.sizes| ensures 0 <= q[d] < v.sizes[d] {
      assert d != dim ==> Sliced(v, dim, start, stop, step).sizes[d] == v.sizes[d];
    }
  }

  /** The start of a slice that selects anything is an offset of the view. */
  lemma StartOffset(v: View, dim: nat, first: nat, n: nat, q: seq<int>)
    requires Valid(v, n) && dim < |v.sizes| && first < v.sizes[dim] && InBox(v.sizes, q)
    ensures 0 <= first * v.strides[dim] <= INT64_MAX && first * v.strides[dim] < v.window
  {
    FlattenInRange(v.sizes, q);
    var zero := Zeros(|v.sizes|);
    var head := zero[dim := first];
    forall d | 0 <= d < |zero| ensures Times(v.strides[d], zero[d]) == 0 {
      TimesAdd(v.strides[d], 0, 0);
    }
    DotZeros(v.strides, zero);
    DotUpdate(v.strides, zero, dim, first);
    assert Times(v.strides[dim], first) == first * v.strides[dim];
    hide Times, Dot, Extent, Numel;
    assert InBox(v.sizes, head);
    DotWithinExtent(v.sizes, v.strides, head);
  }

  /**
   * Coordinate `c` of the slice reads the coordinate whose index in the sliced dimension is
   * `From(start, size) + c[dim] * step`.
   */
  lemma SliceLaw(v: View, dim: nat, start: Bound, stop: Bound, step: nat, n: nat, c: seq<int>)
    requires Valid(v, n) && dim < |v.sizes| && step >= 1
    requires InBox(Sliced(v, dim, start, stop, step).sizes, c)
    ensures var q := c[dim := From(start, v.sizes[dim]) + c[dim] * step];
            && InBox(v.sizes, q) && At(Sliced(v, dim, start, stop, step), c) == At(v, q)
            && Within(Sliced(v, dim, start, stop, step), v)
  {
    FirstLast(start, stop, v.sizes[dim]);
    hide From;
    SelectedIndex(v, dim, start, stop, step, c);
    StartOffset(v, dim, First(start, v.sizes[dim]), n, c[dim := First(start, v.sizes[dim]) + c[dim] * step]);
    var first, s := First(start, v.sizes[dim]), v.strides[dim];
    DivModUnique(first * s, 0, first * s, UINT64_LIMIT);
    DotRestride(v.strides, c, dim, s * step);
    DotUpdate(v.strides, c, dim, first + c[dim] * step);
    StepProduct(s, step, first, c[dim]);
    hide Times, Dot;
  }

  /**
   * A step too large for int64_t arithmetic makes the slice undefined, even where its elements are
   * plain to see: of two elements, every step of two or more selects the first.
   */
  lemma HugeStepUndefined()
    ensures var v := View([2], [1], 0, 2);
            Valid(v, 2) && Count(First(Missing, 2), Last(Missing, 2), INT64_MAX) == 1 && !InRange(v, 0, Missing, Missing, INT64_MAX)
  {
    var v := View([2], [1], 0, 2);
    assert v.sizes[..0] == [] && v.strides[..0] == [];
    DivModUnique(INT64_MAX + 1, 1, 1, INT64_MAX);
    TimesAdd(1, 1, 0);
    assert Extent(v.sizes, v.strides) == Extent(v.sizes[..0], v.strides[..0]) + Times(1, 1);
  }

  /** The boundary: over a single element, the largest step already overflows, and no other does. */
  lemma LargestStepUndefined(step: nat)
    requires 1 <= step <= INT64_MAX
    ensures var v := View([1], [1], 0, 1);
            && Valid(v, 1) && Count(First(Missing, 1), Last(Missing, 1), step) == 1
            && (InRange(v, 0, Missing, Missing, step) <==> step < INT64_MAX)
  {
    var v := View([1], [1], 0, 1);
    assert v.sizes[..0] == [] && v.strides[..0] == [];
    DivModUnique(step, 1, 0, step);
    TimesAdd(1, 0, 0);
    assert Extent(v.sizes, v.strides) == Extent(v.sizes[..0], v.strides[..0]) + Times(1, 0);
  }

  /** Steps shorter than the dimension are always defined, unless repetition makes the dimension itself huge. */
  lemma SmallStepsDefined(v: View, dim: nat, start: Bound, stop: Bound, step: nat, n: nat)
    requires Valid(v, n) && Numel(v.sizes) > 0 && dim < |v.sizes| && 1 <= step < v.sizes[dim] <= 0x4000_0000_0000_0000
    ensures InRange(v, dim, start, stop, step)
  {
    NumelPositive(v.sizes);
    var head := Zeros(|v.sizes|)[dim := step];
    AlongDimension(v, dim, step);
    DotWithinExtent(v.sizes, v.strides, head);
    MulMono(0, v.strides[dim], step);
    hide Dot, Extent, Times, Numel;
  }

  lemma AlongDimension(v: View, dim: nat, x: nat)
    requires |v.sizes| == |v.strides| && Positive(v.sizes) && dim < |v.sizes| && x < v.sizes[dim]
    ensures InBox(v.sizes, Zeros(|v.sizes|)[dim := x]) && Dot(v.strides, Zeros(|v.sizes|)[dim := x]) == v.strides[dim] * x
  {
    var zero := Zeros(|v.sizes|);
    forall d | 0 <= d < |zero| ensures Times(v.strides[d], zero[d]) == 0 {
      TimesAdd(v.strides[d], 0, 0);
    }
    DotZeros(v.strides, zero);
    DotUpdate(v.strides, zero, dim, x);
    assert Times(v.strides[dim], x) == v.strides[dim] * x;
    hide Times, Dot;
  }
}
