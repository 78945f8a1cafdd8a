/**
 * CPU reductions (expression_reductions.h): vector accumulators in bounded batches, the merge of their
 * lanes, and the scalar tail.
 */
module Reductions {
  import opened Arith
  import opened Monoids
  import opened Peels

  const COUNT_BATCH: nat := 4096
  const FLOAT_EXACT: int := 0x100_0000   // float holds every integer up to 2^24

  function Mapped<V, T>(f: V -> T, xs: seq<V>): (r: seq<T>)
    ensures |r| == |xs| && forall i :: 0 <= i < |xs| ==> r[i] == f(xs[i])
  {
    seq(|xs|, i requires 0 <= i < |xs| => f(xs[i]))
  }

  lemma MappedSnoc<V, T>(f: V -> T, xs: seq<V>, i: nat)
    requires i < |xs|
    ensures Mapped(f, xs)[..i + 1] == Mapped(f, xs)[..i] + [f(xs[i])]
  {
  }

  /** Lane `c` holds the fold of `parts[c]`; together the lanes hold the elements `seen`, each once. */
  ghost predicate Accumulated<T>(m: Monoid<T>, cells: seq<T>, parts: seq<seq<T>>, seen: seq<T>) {
    && cells == Folds(m, parts)
    && multiset(Joined(parts)) == multiset(seen)
  }

  /** No lane of the first `mark` holds more than `steps + 1` elements, and none of the others more than `steps`. */
  ghost predicate Bounded<T>(parts: seq<seq<T>>, mark: nat, steps: nat) {
    forall c :: 0 <= c < |parts| ==> |parts[c]| <= if c < mark then steps + 1 else steps
  }

  lemma AccumulateOne<T>(m: Monoid<T>, cells: seq<T>, parts: seq<seq<T>>, seen: seq<T>, c: nat, x: T)
    requires Accumulated(m, cells, parts, seen) && c < |parts|
    ensures |cells| == |parts|
    ensures Accumulated(m, cells[c := m.op(cells[c], x)], parts[c := parts[c] + [x]], seen + [x])
  {
    hide Joined, Fold;
    FoldSnoc(m, parts[c], x);
    JoinedGrows(parts, c, x);
    assert Folds(m, parts[c := parts[c] + [x]]) == cells[c := m.op(cells[c], x)];
  }

  lemma BoundOne<T>(parts: seq<seq<T>>, c: nat, steps: nat, x: T)
    requires Bounded(parts, c, steps) && c < |parts|
    ensures Bounded(parts[c := parts[c] + [x]], c + 1, steps)
  {
  }

  // ----- lanes whose addition is exact only for so long -----

  ghost predicate AllUnits<T>(unit: T -> bool, s: seq<T>) {
    forall i :: 0 <= i < |s| ==> unit(s[i])
  }

  /** A lane adds exactly as long as it holds fewer than `bound` elements, each of them a `unit`. */
  ghost predicate LaneExact<T(!new)>(m: Monoid<T>, lane: (T, T) -> T, unit: T -> bool, bound: nat) {
    forall p: seq<T>, x: T :: |p| < bound && AllUnits(unit, p) && unit(x) ==> lane(Fold(m, p), x) == m.op(Fold(m, p), x)
  }

  /** All that goes into the lanes, and all they hold, are units. */
  ghost predicate UnitsOnly<V, T>(f: V -> T, xs: seq<V>, unit: T -> bool, parts: seq<seq<T>>) {
    AllUnits(unit, Mapped(f, xs)) && forall c :: 0 <= c < |parts| ==> AllUnits(unit, parts[c])
  }

  /** Adding the next element to lane `c` is exact. */
  lemma LaneAdds<V, T(!new)>(m: Monoid<T>, f: V -> T, xs: seq<V>, i: nat, lane: (T, T) -> T, unit: T -> bool, bound: nat,
                             cells: seq<T>, parts: seq<seq<T>>, seen: seq<T>, steps: nat, c: nat)
    requires LaneExact(m, lane, unit, bound) && UnitsOnly(f, xs, unit, parts) && i < |xs|
    requires Accumulated(m, cells, parts, seen) && Bounded(parts, c, steps) && steps < bound && c < |parts|
    ensures |cells| == |parts| && lane(cells[c], f(xs[i])) == m.op(cells[c], f(xs[i]))
    ensures UnitsOnly(f, xs, unit, parts[c := parts[c] + [f(xs[i])]])
  {
    assert unit(Mapped(f, xs)[i]);
  }

  /** Adds one register of consecutive elements to the lanes from `base` on. */
  method Update<V, T(!new)>(m: Monoid<T>, f: V -> T, xs: seq<V>, offset: nat, cells: array<T>, base: nat, length: nat,
                            lane: (T, T) -> T, ghost unit: T -> bool, ghost bound: nat,
                            ghost parts: seq<seq<T>>, ghost begin: nat, ghost steps: nat)
    returns (ghost parts': seq<seq<T>>)
    requires begin <= offset && offset + length <= |xs| && base + length <= cells.Length
    requires Accumulated(m, cells[..], parts, Mapped(f, xs)[begin..offset])
    requires Bounded(parts, base, steps) && steps < bound
    requires LaneExact(m, lane, unit, bound) && UnitsOnly(f, xs, unit, parts)
    modifies cells
    ensures Accumulated(m, cells[..], parts', Mapped(f, xs)[begin..offset + length])
    ensures Bounded(parts', base + length, steps) && UnitsOnly(f, xs, unit, parts')
  {
    hide *;
    parts' := parts;
    AccumulatedLength(m, cells[..], parts, Mapped(f, xs)[begin..offset]);
    for k := 0 to length
      invariant |parts'| == cells.Length
      invariant Accumulated(m, cells[..], parts', Mapped(f, xs)[begin..offset + k])
      invariant Bounded(parts', base + k, steps) && UnitsOnly(f, xs, unit, parts')
    {
      ghost var c, x, was := base + k, f(xs[offset + k]), cells[..];
      LaneAdds(m, f, xs, offset + k, lane, unit, bound, was, parts', Mapped(f, xs)[begin..offset + k], steps, c);
      AccumulateOne(m, was, parts', Mapped(f, xs)[begin..offset + k], c, x);
      BoundOne(parts', c, steps, x);
      SeenNext(f, xs, begin, offset + k);
      parts' := parts'[c := parts'[c] + [x]];
      cells[base + k] := lane(cells[base + k], f(xs[offset + k]));
      assert cells[..] == was[c := m.op(was[c], x)];
    }
  }

  lemma AccumulatedLength<T>(m: Monoid<T>, cells: seq<T>, parts: seq<seq<T>>, seen: seq<T>)
    requires Accumulated(m, cells, parts, seen)
    ensures |parts| == |cells|
  {
  }

  lemma SeenNext<V, T>(f: V -> T, xs: seq<V>, begin: nat, i: nat)
    requires begin <= i < |xs|
    ensures Mapped(f, xs)[begin..i] + [f(xs[i])] == Mapped(f, xs)[begin..i + 1]
  {
  }

  lemma Unmarked<T>(parts: seq<seq<T>>, mark: nat, steps: nat, more: nat)
    requires Bounded(parts, mark, steps) && (mark == 0 || more > steps) && more >= steps
    ensures Bounded(parts, 0, more)
  {
  }

  /** Registers as they start a batch: every lane is the identity and holds nothing. */
  lemma FreshLanes<T>(m: Monoid<T>, cells: seq<T>, parts: seq<seq<T>>, seen: seq<T>)
    requires |parts| == |cells| && seen == []
    requires forall c :: 0 <= c < |cells| ==> cells[c] == m.id && parts[c] == []
    ensures Accumulated(m, cells, parts, seen) && Bounded(parts, 0, 0)
  {
    JoinedEmpty(parts);
  }

  /**
   * Accumulates one batch: unrolled steps spread over all registers, then single registers into the
   * first. Every element of the batch lands in exactly one lane, and no lane takes more elements than
   * the batch has registers, so the lanes need to add exactly only for as many elements.
   */
  method AccumulateBatch<V, T(!new)>(m: Monoid<T>, f: V -> T, xs: seq<V>, begin: nat, end: nat, length: nat, packet: nat,
                                     cells: array<T>, lane: (T, T) -> T, ghost unit: T -> bool, ghost bound: nat)
    returns (ghost parts: seq<seq<T>>, ghost steps: nat)
    requires begin <= end <= |xs| && length > 0 && packet > 0 && Divides(length, end - begin)
    requires cells.Length == packet * length && forall c :: 0 <= c < cells.Length ==> cells[c] == m.id
    requires LaneExact(m, lane, unit, bound) && AllUnits(unit, Mapped(f, xs)) && end - begin <= bound * length
    modifies cells
    ensures Accumulated(m, cells[..], parts, Mapped(f, xs)[begin..end])
    ensures Bounded(parts, 0, steps) && steps * length == end - begin
  {
    hide *;
    var block, i := length * packet, begin;
    parts, steps := seq(cells.Length, _ => []), 0;
    FreshLanes(m, cells[..], parts, Mapped(f, xs)[begin..begin]);
    FreshUnits(f, xs, unit, parts);
    MulMono(1, packet, length);
    while end - i >= block
      invariant begin <= i <= end && Divides(length, end - i)
      invariant i == begin + steps * length
      invariant Accumulated(m, cells[..], parts, Mapped(f, xs)[begin..i]) && Bounded(parts, 0, steps)
      invariant UnitsOnly(f, xs, unit, parts)
    {
      StepsBelow(steps, bound, length, end - begin);
      parts := UpdateBlock(m, f, xs, i, cells, length, packet, lane, unit, bound, parts, begin, steps);
      BlockSteps(end - i, length, packet, steps);
      steps := steps + packet;
      i := i + block;
    }
    while i < end
      invariant begin <= i <= end && Divides(length, end - i)
      invariant i == begin + steps * length
      invariant Accumulated(m, cells[..], parts, Mapped(f, xs)[begin..i]) && Bounded(parts, 0, steps)
      invariant UnitsOnly(f, xs, unit, parts)
    {
      MultipleStep(end - i, length);
      StepsBelow(steps, bound, length, end - begin);
      parts := Update(m, f, xs, i, cells, 0, length, lane, unit, bound, parts, begin, steps);
      Unmarked(parts, length, steps, steps + 1);
      StepOnce(steps, length);
      steps := steps + 1;
      i := i + length;
    }
  }

  lemma FreshUnits<V, T>(f: V -> T, xs: seq<V>, unit: T -> bool, parts: seq<seq<T>>)
    requires AllUnits(unit, Mapped(f, xs)) && forall c :: 0 <= c < |parts| ==> parts[c] == []
    ensures UnitsOnly(f, xs, unit, parts)
  {
  }

  /** While elements are left, fewer registers have been added than the lanes can take. */
  lemma StepsBelow(steps: nat, bound: nat, length: nat, all: nat)
    requires steps * length < all <= bound * length
    ensures steps < bound
  {
    if steps >= bound {
      MulMono(bound, steps, length);
    }
  }

  lemma StepOnce(steps: nat, length: nat)
    ensures (steps + 1) * length == steps * length + length
  {
  }

  lemma BlockSteps(left: nat, length: nat, packet: nat, steps: nat)
    requires length > 0 && packet > 0 && left >= length * packet && Divides(length, left)
    ensures Divides(length, left - length * packet)
    ensures (steps + packet) * length == steps * length + length * packet
  {
    MultipleOf(packet, length);
    assert packet * length == length * packet;
    MultipleSum(left, length * packet, length);
  }

  /** One unrolled step: register `k` takes the `k`-th run of consecutive elements. */
  method UpdateBlock<V, T(!new)>(m: Monoid<T>, f: V -> T, xs: seq<V>, i: nat, cells: array<T>, length: nat, packet: nat,
                                 lane: (T, T) -> T, ghost unit: T -> bool, ghost bound: nat,
                                 ghost parts: seq<seq<T>>, ghost begin: nat, ghost steps: nat)
    returns (ghost parts': seq<seq<T>>)
    requires begin <= i && i + length * packet <= |xs| && cells.Length == packet * length && packet > 0
    requires Accumulated(m, cells[..], parts, Mapped(f, xs)[begin..i]) && Bounded(parts, 0, steps) && steps < bound
    requires LaneExact(m, lane, unit, bound) && UnitsOnly(f, xs, unit, parts)
    modifies cells
    ensures Accumulated(m, cells[..], parts', Mapped(f, xs)[begin..i + length * packet])
    ensures Bounded(parts', 0, steps + packet) && UnitsOnly(f, xs, unit, parts')
  {
    hide *;
    parts' := parts;
    var at := i;
    assert packet * length == length * packet;
    for k := 0 to packet
      invariant at == i + k * length
      invariant Accumulated(m, cells[..], parts', Mapped(f, xs)[begin..at])
      invariant Bounded(parts', k * length, steps) && UnitsOnly(f, xs, unit, parts')
    {
      MulMono(k + 1, packet, length);
      StepOnce(k, length);
      parts' := Update(m, f, xs, at, cells, k * length, length, lane, unit, bound, parts', begin, steps);
      at := at + length;
    }
    Unmarked(parts', packet * length, steps, steps + packet);
  }

  // ----- merging the lanes -----

  /**
   * A lane read back into the accumulator type. For counts the lanes are floats, and reading one is
   * exact because it has summed at most a batch of zeros and ones.
   */
  function Widen<T>(m: Monoid<T>, lane: T, ghost summed: seq<T>, isCount: bool): (wide: T)
    requires lane == Fold(m, summed) && (isCount ==> |summed| <= COUNT_BATCH)
    ensures wide == Fold(m, summed)
  {
    lane
  }

  lemma LaneBatch<T>(m: Monoid<T>, cells: seq<T>, parts: seq<seq<T>>, seen: seq<T>, steps: nat, c: nat)
    requires Accumulated(m, cells, parts, seen) && Bounded(parts, 0, steps) && c < |cells|
    ensures |parts| == |cells| && cells[c] == Fold(m, parts[c]) && |parts[c]| <= steps
  {
  }

  lemma MergeStep<T(!new)>(m: Monoid<T>, cells: seq<T>, c: nat, start: T)
    requires Lawful(m) && c < |cells|
    ensures m.op(m.op(start, Fold(m, cells[..c])), cells[c]) == m.op(start, Fold(m, cells[..c + 1]))
  {
    FoldSnoc(m, cells[..c], cells[c]);
    assert cells[..c] + [cells[c]] == cells[..c + 1];
  }

  /** Merging lane by lane, as counts and products do. */
  method MergeLanes<T(!new)>(m: Monoid<T>, cells: array<T>, start: T, isCount: bool,
                             ghost parts: seq<seq<T>>, ghost seen: seq<T>, ghost steps: nat) returns (result: T)
    requires Lawful(m) && Accumulated(m, cells[..], parts, seen) && Bounded(parts, 0, steps)
    requires isCount ==> steps <= COUNT_BATCH
    ensures result == m.op(start, Fold(m, cells[..]))
  {
    hide *;
    result := start;
    MergeStart(m, start);
    ghost var all := cells[..];
    assert all[..0] == [];
    for c := 0 to cells.Length
      invariant cells[..] == all && result == m.op(start, Fold(m, all[..c]))
    {
      LaneBatch(m, all, parts, seen, steps, c);
      MergeStep(m, all, c, start);
      result := m.op(result, Widen(m, cells[c], parts[c], isCount));
    }
    assert all[..cells.Length] == all;
  }

  lemma MergeStart<T(!new)>(m: Monoid<T>, start: T)
    requires Lawful(m)
    ensures start == m.op(start, Fold(m, []))
  {
  }

  /** Folding register `k` into the first register folds one more register of lanes. */
  method MergeRegister<T(!new)>(m: Monoid<T>, cells: array<T>, combined: array<T>, length: nat, base: nat)
    requires Lawful(m) && combined != cells && combined.Length == length && base + length <= cells.Length
    requires Fold(m, combined[..]) == Fold(m, cells[..base])
    modifies combined
    ensures Fold(m, combined[..]) == Fold(m, cells[..base + length])
  {
    hide *;
    ghost var all := cells[..];
    assert all[..base + 0] == cells[..base];
    for lane := 0 to length
      invariant cells[..] == all && Fold(m, combined[..]) == Fold(m, all[..base + lane])
    {
      ghost var was := combined[..];
      FoldUpdate(m, was, lane, all[base + lane]);
      FoldSnoc(m, all[..base + lane], all[base + lane]);
      assert all[..base + lane] + [all[base + lane]] == all[..base + lane + 1];
      combined[lane] := m.op(combined[lane], cells[base + lane]);
      assert combined[..] == was[lane := m.op(was[lane], all[base + lane])];
    }
    assert all[..base + length] == cells[..base + length];
  }

  /** Merging register by register and then across the lanes of one register. */
  method MergeRegisters<T(!new)>(m: Monoid<T>, cells: array<T>, start: T, length: nat, packet: nat) returns (result: T)
    requires Lawful(m) && packet > 0 && cells.Length == packet * length
    ensures result == m.op(start, Fold(m, cells[..]))
  {
    hide *;
    MulMono(1, packet, length);
    var combined := new T[length](c requires 0 <= c < length <= cells.Length reads cells => cells[c]);
    assert combined[..] == cells[..length];
    for k := 1 to packet
      invariant Fold(m, combined[..]) == Fold(m, cells[..k * length])
      invariant 0 <= k * length <= cells.Length
    {
      MulMono(k + 1, packet, length);
      StepOnce(k, length);
      MergeRegister(m, cells, combined, length, k * length);
    }
    assert cells[..packet * length] == cells[..];
    ghost var all := combined[..];
    result := start;
    MergeStart(m, start);
    assert all[..0] == [];
    for lane := 0 to length
      invariant combined[..] == all && result == m.op(start, Fold(m, all[..lane]))
    {
      MergeStep(m, all, lane, start);
      result := m.op(result, combined[lane]);
    }
    assert all[..length] == all;
  }

  // ----- the whole reduction -----

  lemma FoldRange<T(!new)>(m: Monoid<T>, all: seq<T>, i: nat, j: nat)
    requires Lawful(m) && i <= j <= |all|
    ensures m.op(Fold(m, all[..i]), Fold(m, all[i..j])) == Fold(m, all[..j])
  {
    FoldConcat(m, all[..i], all[i..j]);
    assert all[..i] + all[i..j] == all[..j];
  }

  lemma LanesFold<T(!new)>(m: Monoid<T>, cells: seq<T>, parts: seq<seq<T>>, seen: seq<T>)
    requires Lawful(m) && Accumulated(m, cells, parts, seen)
    ensures Fold(m, cells) == Fold(m, seen)
  {
    PartsFold(m, parts, seen);
  }

  /** Lanes of a count add exactly for a batch of units, those of other reductions as the operation itself. */
  ghost predicate LanesAdd<T(!new)>(m: Monoid<T>, lane: (T, T) -> T, unit: T -> bool, isCount: bool) {
    if isCount then LaneExact(m, lane, unit, COUNT_BATCH) else forall a, b :: lane(a, b) == m.op(a, b)
  }

  lemma LaneBound<T(!new)>(m: Monoid<T>, lane: (T, T) -> T, unit: T -> bool, isCount: bool, batch: nat, length: nat)
    returns (bound: nat)
    requires LanesAdd(m, lane, unit, isCount) && length > 0 && (isCount ==> batch <= COUNT_BATCH * length)
    ensures LaneExact(m, lane, unit, bound) && batch <= bound * length
  {
    if isCount {
      bound := COUNT_BATCH;
    } else {
      bound := batch;
      MulMono(1, length, batch);
    }
  }

  /** A count batch has at most `COUNT_BATCH` registers. */
  lemma BatchSteps(steps: nat, length: nat, batch: nat)
    requires length > 0 && steps * length == batch <= COUNT_BATCH * length
    ensures steps <= COUNT_BATCH
  {
    if steps > COUNT_BATCH {
      MulMono(COUNT_BATCH + 1, steps, length);
    }
  }

  /**
   * The reduction of a packed CPU operand: batches of vector accumulators and a scalar tail. For any
   * commutative monoid, any length, register width and unrolling, the result is the fold of all
   * transformed elements, each taken once. The lanes of a count need to add exactly only while a batch lasts.
   */
  method ReduceExpression<V, T(!new)>(m: Monoid<T>, f: V -> T, xs: seq<V>, length: nat, packet: nat, isCount: bool, byLane: bool,
                                      lane: (T, T) -> T, ghost unit: T -> bool)
    returns (result: T)
    requires Lawful(m) && packet > 0 && (isCount ==> byLane)
    requires LanesAdd(m, lane, unit, isCount) && AllUnits(unit, Mapped(f, xs))
    ensures result == Fold(m, Mapped(f, xs))
  {
    hide *;
    ghost var all := Mapped(f, xs);
    var i, n := 0, |xs|;
    result := m.id;
    assert result == Fold(m, all[..0]) by { FoldNothing(m, all[..0]); }
    if length > 0 {
      var vectorEnd := n - n % length;
      VectorEnd(n, length);
      while i < vectorEnd
        invariant 0 <= i <= vectorEnd <= n && Divides(length, vectorEnd - i)
        invariant result == Fold(m, all[..i])
      {
        var remaining := vectorEnd - i;
        var batch := if isCount && remaining > COUNT_BATCH * length then COUNT_BATCH * length else remaining;
        MultipleOf(COUNT_BATCH, length);
        BatchPositive(length);
        MultipleSum(remaining, batch, length);
        result := ReduceBatch(m, f, xs, i, batch, length, packet, isCount, byLane, lane, unit, result);
        i := i + batch;
      }
    }
    while i < n
      invariant 0 <= i <= n && result == Fold(m, all[..i])
    {
      FoldSnoc(m, all[..i], f(xs[i]));
      MappedSnoc(f, xs, i);
      result := m.op(result, f(xs[i]));
      i := i + 1;
    }
    assert all[..n] == all;
  }

  lemma BatchPositive(length: nat)
    requires length > 0
    ensures COUNT_BATCH * length > 0
  {
  }

  lemma FoldNothing<T>(m: Monoid<T>, s: seq<T>)
    requires s == []
    ensures Fold(m, s) == m.id
  {
  }

  lemma VectorEnd(n: nat, length: nat)
    requires length > 0
    ensures 0 <= n - n % length <= n && Divides(length, n - n % length)
  {
    assert n == n / length * length + n % length;
    MultipleOf(n / length, length);
  }

  method ReduceBatch<V, T(!new)>(m: Monoid<T>, f: V -> T, xs: seq<V>, i: nat, batch: nat, length: nat, packet: nat,
                                 isCount: bool, byLane: bool, lane: (T, T) -> T, ghost unit: T -> bool, start: T)
    returns (result: T)
    requires Lawful(m) && length > 0 && packet > 0 && Divides(length, batch) && i + batch <= |xs|
    requires isCount ==> batch <= COUNT_BATCH * length && byLane
    requires LanesAdd(m, lane, unit, isCount) && AllUnits(unit, Mapped(f, xs))
    requires start == Fold(m, Mapped(f, xs)[..i])
    ensures result == Fold(m, Mapped(f, xs)[..i + batch])
  {
    hide *;
    MulMono(0, packet, length);
    var cells := new T[packet * length](_ => m.id);
    ghost var bound := LaneBound(m, lane, unit, isCount, batch, length);
    ghost var parts, steps := AccumulateBatch(m, f, xs, i, i + batch, length, packet, cells, lane, unit, bound);
    ghost var seen := Mapped(f, xs)[i..i + batch];
    LanesFold(m, cells[..], parts, seen);
    FoldRange(m, Mapped(f, xs), i, i + batch);
    if byLane {
      if isCount {
        BatchSteps(steps, length, batch);
      }
      result := MergeLanes(m, cells, start, isCount, parts, seen, steps);
    } else {
      result := MergeRegisters(m, cells, start, length, packet);
    }
  }

  // ----- counting -----

  /** Addition of counts. */
  function Plus(): Monoid<int> {
    Monoid(0, (a: int, b: int) => a + b)
  }

  lemma PlusLawful()
    ensures Lawful(Plus())
  {
  }

  function Indicator<V>(pred: V -> bool): V -> int {
    (x: V) => if pred(x) then 1 else 0
  }

  /** The positions that satisfy the predicate. */
  function Satisfying<V>(pred: V -> bool, xs: seq<V>): set<nat> {
    set i: nat | i < |xs| && pred(xs[i])
  }

  /** Summing indicators counts the elements that satisfy the predicate. */
  lemma {:induction false} CountIsCardinality<V>(pred: V -> bool, xs: seq<V>)
    ensures Fold(Plus(), Mapped(Indicator(pred), xs)) == |Satisfying(pred, xs)| <= |xs|
  {
    if |xs| > 0 {
      var k := |xs| - 1;
      CountIsCardinality(pred, xs[..k]);
      SatisfyingSnoc(pred, xs);
      var all, f := Mapped(Indicator(pred), xs), Indicator(pred);
      assert all == Mapped(f, xs[..k]) + [f(xs[k])];
      FoldSnoc(Plus(), Mapped(f, xs[..k]), f(xs[k]));
      hide Fold, Mapped, Satisfying;
    }
  }

  lemma SatisfyingSnoc<V>(pred: V -> bool, xs: seq<V>)
    requires |xs| > 0
    ensures var k := |xs| - 1;
            |Satisfying(pred, xs)| == |Satisfying(pred, xs[..k])| + (if pred(xs[k]) then 1 else 0)
  {
    var k := |xs| - 1;
    var before := Satisfying(pred, xs[..k]);
    assert k !in before;
    assert Satisfying(pred, xs) == before + if pred(xs[k]) then {k} else {};
  }

  /** Float addition on small integers: exact up to 2^24, rounded in some way beyond. */
  function FloatAdd(round: (int, int) -> int): (int, int) -> int {
    (a: int, b: int) => if -FLOAT_EXACT <= a + b <= FLOAT_EXACT then a + b else round(a, b)
  }

  function ZeroOrOne(): int -> bool {
    (x: int) => 0 <= x <= 1
  }

  /** Zeros and ones sum to at most their number. */
  lemma {:induction false} UnitsSum(summed: seq<int>)
    requires AllUnits(ZeroOrOne(), summed)
    ensures 0 <= Fold(Plus(), summed) <= |summed|
  {
    if |summed| > 0 {
      UnitsSum(summed[..|summed| - 1]);
    }
  }

  /**
   * Zeros and ones summed in a float lane stay exact, however floats round: every intermediate sum of a
   * batch is far below the first integer a float cannot represent.
   */
  lemma LaneStaysExact(round: (int, int) -> int)
    ensures LaneExact(Plus(), FloatAdd(round), ZeroOrOne(), COUNT_BATCH)
  {
    forall p: seq<int>, x: int | |p| < COUNT_BATCH && AllUnits(ZeroOrOne(), p) && ZeroOrOne()(x)
      ensures FloatAdd(round)(Fold(Plus(), p), x) == Plus().op(Fold(Plus(), p), x)
    {
      UnitsSum(p);
    }
  }

  lemma IndicatorUnits<V>(pred: V -> bool, xs: seq<V>)
    ensures AllUnits(ZeroOrOne(), Mapped(Indicator(pred), xs))
  {
  }

  /**
   * `count_nonzero` and `count_valid`: exact for every length, register width and unrolling, although the
   * lanes are floats.
   */
  method Count<V>(pred: V -> bool, xs: seq<V>, length: nat, packet: nat, round: (int, int) -> int) returns (count: int)
    requires packet > 0
    ensures 0 <= count == |Satisfying(pred, xs)| <= |xs|
  {
    PlusLawful();
    CountIsCardinality(pred, xs);
    LaneStaysExact(round);
    IndicatorUnits(pred, xs);
    hide *;
    LanesOfCount(Plus(), FloatAdd(round), ZeroOrOne());
    count := ReduceExpression(Plus(), Indicator(pred), xs, length, packet, true, true, FloatAdd(round), ZeroOrOne());
  }

  lemma LanesOfCount<T(!new)>(m: Monoid<T>, lane: (T, T) -> T, unit: T -> bool)
    requires LaneExact(m, lane, unit, COUNT_BATCH)
    ensures LanesAdd(m, lane, unit, true)
  {
  }
}
