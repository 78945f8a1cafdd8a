/**
 * The GPU reduction (expressions_evaluator_gpu.h): grid-stride threads, the tree over a block's shared
 * memory, and the host loop that reduces partials until one is left.
 */
module GpuReduce {
  import opened Arith
  import opened StridedRefs
  import opened Exprs
  import opened Monoids
  import opened Reductions
  import opened Spans
  import opened Sweeps

  const BLOCK_SIZE: nat := 256
  const ITEMS_PER_THREAD: nat := 4
  const MAX_BLOCKS: nat := 4096
  const MAX_GRID: nat := 0x7fff_ffff

  /** Blocks launched for `n` elements: the fewest that cover them at 1024 each, but no more than 4096. */
  function Blocks(n: nat): (b: nat)
    ensures b <= 4096 <= MAX_GRID
    ensures b < 4096 ==> n <= 1024 * b
    ensures b > 0 ==> n > 1024 * (b - 1)
    ensures n > 0 ==> b > 0
    ensures n > 1 ==> b < n
  {
    var tile := BLOCK_SIZE * ITEMS_PER_THREAD;
    var blocks := n / tile + if n % tile != 0 then 1 else 0;
    if blocks < MAX_BLOCKS then blocks else MAX_BLOCKS
  }

  // ----- grid-stride threads -----

  /** The elements thread `t` of `step` threads visits. */
  function Visited<T>(xs: seq<T>, t: nat, step: nat): seq<T>
    requires step > 0
  {
    if |xs| == 0 then []
    else
      var k := |xs| - 1;
      if k % step == t then Visited(xs[..k], t, step) + [xs[k]] else Visited(xs[..k], t, step)
  }

  lemma VisitedNext<T>(xs: seq<T>, i: nat, t: nat, step: nat)
    requires step > 0 && i < |xs|
    ensures Visited(xs[..i + 1], t, step) == Visited(xs[..i], t, step) + if i % step == t then [xs[i]] else []
  {
    assert xs[..i + 1][..i] == xs[..i];
  }

  /** Between two visits of a thread there is nothing for it. */
  lemma {:induction false} VisitedGap<T>(xs: seq<T>, i: nat, j: nat, t: nat, step: nat)
    requires step > 0 && i <= j <= |xs| && forall k :: i <= k < j ==> Turn(k, t, step) == false
    ensures Visited(xs[..j], t, step) == Visited(xs[..i], t, step)
    decreases j
  {
    if i < j {
      VisitedNext(xs, j - 1, t, step);
      assert !Turn(j - 1, t, step);
      VisitedGap(xs, i, j - 1, t, step);
    }
  }

  predicate Turn(k: nat, t: nat, step: nat)
    requires step > 0
  {
    k % step == t
  }

  lemma NoTurn(i: nat, k: nat, t: nat, step: nat)
    requires step > 0 && t < step && i % step == t && i < k < i + step
    ensures !Turn(k, t, step)
  {
    var q := i / step;
    assert i == q * step + t;
    if k < (q + 1) * step {
      DivModUnique(k, q, k - q * step, step);
    } else {
      assert (q + 1) * step == q * step + step;
      DivModUnique(k, q + 1, k - q * step - step, step);
    }
  }

  lemma NextTurn(i: nat, t: nat, step: nat)
    requires step > 0 && t < step && i % step == t
    ensures (i + step) % step == t
  {
    var q := i / step;
    assert (q + 1) * step == q * step + step;
    DivModUnique(i + step, q + 1, t, step);
  }

  lemma BeforeFirst<T>(xs: seq<T>, t: nat, step: nat)
    requires step > 0 && t < step
    ensures Visited(xs[..if t < |xs| then t else |xs|], t, step) == []
    ensures t % step == t
  {
    var stop := if t < |xs| then t else |xs|;
    DivModUnique(t, 0, t, step);
    forall k: nat | 0 <= k < stop ensures Turn(k, t, step) == false {
      DivModUnique(k, 0, k, step);
    }
    VisitedGap(xs, 0, stop, t, step);
    assert xs[..0] == [];
  }

  lemma VisitTurn<T>(xs: seq<T>, i: nat, t: nat, step: nat)
    requires step > 0 && t < step && i < |xs| && i % step == t
    ensures var j := if i + step < |xs| then i + step else |xs|;
            Visited(xs[..j], t, step) == Visited(xs[..i], t, step) + [xs[i]]
  {
    var j := if i + step < |xs| then i + step else |xs|;
    VisitedNext(xs, i, t, step);
    forall k: nat | i + 1 <= k < j ensures Turn(k, t, step) == false {
      NoTurn(i, k, t, step);
    }
    VisitedGap(xs, i + 1, j, t, step);
  }

  /** The loop of one thread: every `step`-th element from its own index on. */
  method ThreadLoop<V, T>(m: Monoid<T>, f: V -> T, xs: seq<V>, t: nat, step: nat) returns (value: T)
    requires step > 0 && t < step
    ensures value == Fold(m, Visited(Mapped(f, xs), t, step))
  {
    hide Visited, Fold;
    ghost var all, n := Mapped(f, xs), |xs|;
    value := m.id;
    var i := t;
    BeforeFirst(all, t, step);
    FoldNothing(m, Visited(all[..if t < n then t else n], t, step));
    while i < |xs|
      invariant i % step == t
      invariant value == Fold(m, Visited(all[..if i < n then i else n], t, step))
    {
      VisitTurn(all, i, t, step);
      FoldSnoc(m, Visited(all[..i], t, step), all[i]);
      NextTurn(i, t, step);
      value := m.op(value, f(xs[i]));
      i := i + step;
    }
    assert all[..n] == all;
  }

  function Shares<T>(xs: seq<T>, step: nat): (parts: seq<seq<T>>)
    requires step > 0
    ensures |parts| == step && forall t :: 0 <= t < step ==> parts[t] == Visited(xs, t, step)
  {
    seq(step, t requires 0 <= t < step => Visited(xs, t, step))
  }

  /** The threads of the grid visit every element exactly once. */
  lemma {:induction false} ThreadsPartition<T>(xs: seq<T>, step: nat)
    requires step > 0
    ensures multiset(Joined(Shares(xs, step))) == multiset(xs)
  {
    if |xs| == 0 {
      JoinedEmpty(Shares(xs, step));
    } else {
      var k := |xs| - 1;
      SharesGrow(xs, step);
      hide *;
      ThreadsPartition(xs[..k], step);
      JoinedGrows(Shares(xs[..k], step), k % step, xs[k]);
      assert xs == xs[..k] + [xs[k]];
    }
  }

  /** The last element goes to the thread whose turn it is. */
  lemma SharesGrow<T>(xs: seq<T>, step: nat)
    requires step > 0 && |xs| > 0
    ensures var k := |xs| - 1;
            var was := Shares(xs[..k], step);
            k % step < |was| && Shares(xs, step) == was[k % step := was[k % step] + [xs[k]]]
  {
  }

  // ----- the block tree -----

  predicate PowerOfTwo(w: nat) {
    w == 1 || (w > 1 && w % 2 == 0 && PowerOfTwo(w / 2))
  }

  /** One barrier phase as independent iterations: thread `t` combines elements `t` and `t + stride` into `t`. */
  ghost function PhaseSweep<T>(m: Monoid<T>, stride: nat): (s: Sweep<T>)
    ensures |s.writes| == |s.sources| == stride
    ensures forall t :: 0 <= t < stride ==> s.writes[t] == t && s.sources[t] == [t, t + stride]
  {
    var leaf := Expr.Data(DataView(Elem(0, 1), 0, CUDA, 0, 0));
    Sweep(Expr.Binary(m.op, leaf, leaf), seq(stride, t requires 0 <= t < stride => t),
          seq(stride, t requires 0 <= t < stride => [t, t + stride]))
  }

  lemma PhaseIndependent<T>(m: Monoid<T>, stride: nat, n: nat)
    requires 2 * stride <= n
    ensures PhaseSweep(m, stride).Fits(n) && PhaseSweep(m, stride).Safe()
  {
  }

  lemma PhaseValue<T>(m: Monoid<T>, stride: nat, t: nat, smem: seq<T>)
    requires 2 * stride <= |smem| && t < stride
    ensures PhaseSweep(m, stride).Fits(|smem|)
    ensures PhaseSweep(m, stride).Value(t, smem) == m.op(smem[t], smem[t + stride])
  {
    var s := PhaseSweep(m, stride);
    assert s.sources[t] == [t, t + stride];
    var vals := seq(|s.sources[t]|, k requires 0 <= k < |s.sources[t]| => smem[s.sources[t][k]]);
    assert vals == [smem[t], smem[t + stride]];
    assert vals[..1] == [smem[t]] && vals[1..] == [smem[t + stride]];
    assert |Leaves(s.e.lhs)| == 1 && s.Value(t, smem) == EvalAt(s.e, vals);
    assert EvalAt(s.e, vals) == m.op(EvalAt(s.e.lhs, vals[..1]), EvalAt(s.e.rhs, vals[1..]));
  }

  /** Shared memory after the phase. */
  function Halved<T>(m: Monoid<T>, smem: seq<T>, stride: nat): (r: seq<T>)
    requires 2 * stride <= |smem|
    ensures |r| == |smem|
  {
    seq(|smem|, i requires 0 <= i < |smem| => if i < stride then m.op(smem[i], smem[i + stride]) else smem[i])
  }

  lemma PhaseDone<T>(m: Monoid<T>, stride: nat, before: seq<T>, after: seq<T>)
    requires 2 * stride <= |before| && PhaseSweep(m, stride).Fits(|before|)
    requires PhaseSweep(m, stride).Wrote(before, after, Span(0, stride))
    ensures after == Halved(m, before, stride)
  {
    assert |after| == |before|;
    var r := Halved(m, before, stride);
    HalvedAt(m, before, stride, r);
    hide *;
    forall i | 0 <= i < |before| ensures after[i] == r[i] {
      if i < stride {
        PhaseWritten(m, stride, before, after, i);
      } else {
        PhaseUntouched(m, stride, before, after, i);
      }
    }
  }

  lemma HalvedAt<T>(m: Monoid<T>, smem: seq<T>, stride: nat, r: seq<T>)
    requires 2 * stride <= |smem| && r == Halved(m, smem, stride)
    ensures |r| == |smem|
    ensures forall i :: 0 <= i < stride ==> r[i] == m.op(smem[i], smem[i + stride])
    ensures forall i :: stride <= i < |smem| ==> r[i] == smem[i]
  {
  }

  lemma PhaseWritten<T>(m: Monoid<T>, stride: nat, before: seq<T>, after: seq<T>, t: nat)
    requires 2 * stride <= |before| && PhaseSweep(m, stride).Fits(|before|) && t < stride
    requires PhaseSweep(m, stride).Wrote(before, after, Span(0, stride))
    ensures |after| == |before| && after[t] == m.op(before[t], before[t + stride])
  {
    PhaseValue(m, stride, t, before);
    var s := PhaseSweep(m, stride);
    hide PhaseSweep;
    assert t in Span(0, stride) && after[s.writes[t]] == s.Value(t, before);
  }

  lemma PhaseUntouched<T>(m: Monoid<T>, stride: nat, before: seq<T>, after: seq<T>, i: nat)
    requires 2 * stride <= |before| && PhaseSweep(m, stride).Fits(|before|) && stride <= i < |before|
    requires PhaseSweep(m, stride).Wrote(before, after, Span(0, stride))
    ensures |after| == |before| && after[i] == before[i]
  {
    var s := PhaseSweep(m, stride);
    hide PhaseSweep;
    assert forall g :: g in Span(0, stride) ==> s.writes[g] != i;
  }

  /**
   * Inside a barrier phase the loads and stores of the threads may interleave in any way at all; once
   * every thread has stored, shared memory is the same.
   */
  lemma PhaseAnyInterleaving<T(!new)>(m: Monoid<T>, stride: nat, before: seq<T>, events: seq<Event>, st: State<T>)
    requires 2 * stride <= |before| && PhaseSweep(m, stride).Fits(|before|)
    requires Reachable(PhaseSweep(m, stride), before, events, st) && st.stored == Span(0, stride)
    ensures st.heap == Halved(m, before, stride)
  {
    PhaseIndependent(m, stride, |before|);
    EveryInterleaving(PhaseSweep(m, stride), before, events, st);
    PhaseDone(m, stride, before, st.heap);
  }

  /** One phase, its threads taken in any order. */
  method Phase<T>(m: Monoid<T>, smem: array<T>, stride: nat)
    requires 2 * stride <= smem.Length
    modifies smem
    ensures smem[..] == Halved(m, old(smem[..]), stride)
  {
    ghost var before := smem[..];
    ghost var s := PhaseSweep(m, stride);
    PhaseIndependent(m, stride, |before|);
    var pending := Span(0, stride);
    ghost var done: set<nat> := {};
    assert s.Wrote(before, smem[..], done);
    while pending != {}
      invariant forall t :: t in pending ==> t < stride
      invariant forall t: nat :: t in done <==> t < stride && t !in pending
      invariant smem.Length == |before| && s.Wrote(before, smem[..], done)
      decreases pending
    {
      var t :| t in pending;
      ghost var now := smem[..];
      UndoneValue(s, before, now, done, t);
      PhaseValue(m, stride, t, now);
      WroteOne(s, before, now, done, t, m.op(now[t], now[t + stride]));
      smem[t] := m.op(smem[t], smem[t + stride]);
      assert smem[..] == now[s.writes[t] := m.op(now[t], now[t + stride])];
      done := done + {t};
      pending := pending - {t};
    }
    assert done == Span(0, stride);
    PhaseDone(m, stride, before, smem[..]);
  }

  lemma {:induction false} FoldZip<T(!new)>(m: Monoid<T>, a: seq<T>, b: seq<T>, z: seq<T>)
    requires Lawful(m) && |a| == |b| == |z| && forall i :: 0 <= i < |z| ==> z[i] == m.op(a[i], b[i])
    ensures Fold(m, z) == m.op(Fold(m, a), Fold(m, b))
  {
    if |z| > 0 {
      var k := |z| - 1;
      FoldZip(m, a[..k], b[..k], z[..k]);
      FourWay(m, Fold(m, a[..k]), Fold(m, b[..k]), a[k], b[k]);
    }
  }

  lemma FourWay<T(!new)>(m: Monoid<T>, a: T, b: T, c: T, d: T)
    requires Lawful(m)
    ensures m.op(m.op(a, b), m.op(c, d)) == m.op(m.op(a, c), m.op(b, d))
  {
    calc {
      m.op(m.op(a, b), m.op(c, d));
      m.op(a, m.op(b, m.op(c, d)));
      { assert m.op(b, m.op(c, d)) == m.op(m.op(b, c), d) == m.op(m.op(c, b), d) == m.op(c, m.op(b, d)); }
      m.op(a, m.op(c, m.op(b, d)));
      m.op(m.op(a, c), m.op(b, d));
    }
  }

  /** A phase keeps the fold of what is still to be reduced. */
  lemma PhaseKeepsFold<T(!new)>(m: Monoid<T>, smem: seq<T>, stride: nat)
    requires Lawful(m) && 2 * stride <= |smem|
    ensures Fold(m, Halved(m, smem, stride)[..stride]) == Fold(m, smem[..2 * stride])
  {
    hide *;
    var half := smem[..2 * stride];
    var a, b, z := half[..stride], half[stride..], Halved(m, smem, stride)[..stride];
    HalvedZips(m, smem, stride, a, b, z);
    FoldZip(m, a, b, z);
    FoldConcat(m, a, b);
    assert a + b == half;
  }

  lemma HalvedZips<T>(m: Monoid<T>, smem: seq<T>, stride: nat, a: seq<T>, b: seq<T>, z: seq<T>)
    requires 2 * stride <= |smem| && a == smem[..2 * stride][..stride] && b == smem[..2 * stride][stride..]
    requires z == Halved(m, smem, stride)[..stride]
    ensures forall i :: 0 <= i < stride ==> z[i] == m.op(a[i], b[i])
  {
  }

  /** The tree over a block: the first element ends up as the fold of all. */
  method BlockTree<T(!new)>(m: Monoid<T>, smem: array<T>) returns (total: T)
    requires Lawful(m) && PowerOfTwo(smem.Length)
    modifies smem
    ensures total == Fold(m, old(smem[..]))
  {
    hide Fold, Halved;
    ghost var start, w := smem[..], smem.Length;
    var stride := smem.Length / 2;
    assert smem[..w] == start;
    while stride > 0
      invariant 0 < w <= smem.Length && PowerOfTwo(w) && stride == w / 2
      invariant Fold(m, smem[..w]) == Fold(m, start)
    {
      ghost var before := smem[..];
      assert before[..2 * stride] == smem[..w];
      PhaseKeepsFold(m, before, stride);
      Phase(m, smem, stride);
      assert smem[..stride] == smem[..][..stride];
      w := stride;
      stride := stride / 2;
    }
    FoldOne(m, smem[..1]);
    return smem[0];
  }

  lemma FoldOne<T(!new)>(m: Monoid<T>, s: seq<T>)
    requires Lawful(m) && |s| == 1
    ensures Fold(m, s) == s[0]
  {
    assert s[..0] == [];
  }

  // ----- the kernels -----

  /** The values the threads of a grid bring to their blocks, thread by thread. */
  function ThreadValues<T>(m: Monoid<T>, xs: seq<T>, step: nat): (v: seq<T>)
    requires step > 0
    ensures |v| == step
  {
    Folds(m, Shares(xs, step))
  }

  lemma ThreadsFold<T(!new)>(m: Monoid<T>, xs: seq<T>, step: nat)
    requires Lawful(m) && step > 0
    ensures Fold(m, ThreadValues(m, xs, step)) == Fold(m, xs)
  {
    ThreadsPartition(xs, step);
    PartsFold(m, Shares(xs, step), xs);
  }

  lemma BlockBounds(b: nat, grid: nat, size: nat)
    requires b < grid
    ensures b * size + size <= grid * size && (b + 1) * size == b * size + size
  {
    MulMono(b + 1, grid, size);
  }

  /** Consecutive runs of `size` elements. */
  function Cut<T>(v: seq<T>, grid: nat, size: nat): (parts: seq<seq<T>>)
    requires |v| == grid * size
    ensures |parts| == grid
  {
    if grid == 0 then []
    else
      BlockBounds(grid - 1, grid, size);
      Cut(v[..(grid - 1) * size], grid - 1, size) + [v[(grid - 1) * size..]]
  }

  lemma {:induction false} CutAt<T>(v: seq<T>, grid: nat, size: nat, b: nat)
    requires |v| == grid * size && b < grid
    ensures 0 <= b * size <= b * size + size <= |v|
    ensures Cut(v, grid, size)[b] == v[b * size..b * size + size]
  {
    BlockBounds(b, grid, size);
    BlockBounds(grid - 1, grid, size);
    if b < grid - 1 {
      var head := v[..(grid - 1) * size];
      CutAt(head, grid - 1, size, b);
      assert head[b * size..b * size + size] == v[b * size..b * size + size];
    } else {
      assert v[b * size..] == v[b * size..b * size + size];
    }
  }

  lemma {:induction false} CutJoined<T>(v: seq<T>, grid: nat, size: nat)
    requires |v| == grid * size
    ensures Joined(Cut(v, grid, size)) == v
  {
    if grid > 0 {
      BlockBounds(grid - 1, grid, size);
      CutJoined(v[..(grid - 1) * size], grid - 1, size);
      var parts := Cut(v, grid, size);
      assert parts[..grid - 1] == Cut(v[..(grid - 1) * size], grid - 1, size);
    }
  }

  /** The partials of a grid: block `b` folds the values of its own threads. */
  function Partials<T>(m: Monoid<T>, v: seq<T>, grid: nat, size: nat): (p: seq<T>)
    requires |v| == grid * size
    ensures |p| == grid
  {
    Folds(m, Cut(v, grid, size))
  }

  lemma PartialAt<T>(m: Monoid<T>, v: seq<T>, grid: nat, size: nat, b: nat)
    requires |v| == grid * size && b < grid
    ensures 0 <= b * size <= b * size + size <= |v|
    ensures Partials(m, v, grid, size)[b] == Fold(m, v[b * size..b * size + size])
  {
    CutAt(v, grid, size, b);
  }

  /** Folding the partials folds everything. */
  lemma PartialsFold<T(!new)>(m: Monoid<T>, v: seq<T>, grid: nat, size: nat)
    requires Lawful(m) && |v| == grid * size
    ensures Fold(m, Partials(m, v, grid, size)) == Fold(m, v)
  {
    CutJoined(v, grid, size);
    FoldJoined(m, Cut(v, grid, size));
  }

  /** One block: its threads fill shared memory, then the tree reduces it. */
  method RunBlock<V, T(!new)>(m: Monoid<T>, f: V -> T, xs: seq<V>, b: nat, grid: nat) returns (partial: T)
    requires Lawful(m) && b < grid
    ensures grid * BLOCK_SIZE > 0
    ensures partial == Partials(m, ThreadValues(m, Mapped(f, xs), grid * BLOCK_SIZE), grid, BLOCK_SIZE)[b]
  {
    hide Fold, Visited, Partials, PowerOfTwo;
    var step := grid * BLOCK_SIZE;
    BlockBounds(b, grid, BLOCK_SIZE);
    ghost var v := ThreadValues(m, Mapped(f, xs), step);
    var smem := new T[BLOCK_SIZE](_ => m.id);
    for t := 0 to BLOCK_SIZE
      invariant forall i :: 0 <= i < t ==> smem[i] == v[b * BLOCK_SIZE + i]
    {
      smem[t] := ThreadLoop(m, f, xs, b * BLOCK_SIZE + t, step);
    }
    assert smem[..] == v[b * BLOCK_SIZE..b * BLOCK_SIZE + BLOCK_SIZE];
    PartialAt(m, v, grid, BLOCK_SIZE, b);
    BlockSizeIsPower();
    partial := BlockTree(m, smem);
  }

  lemma BlockSizeIsPower()
    ensures PowerOfTwo(BLOCK_SIZE)
  {
    assert PowerOfTwo(4);
    assert PowerOfTwo(16);
    assert PowerOfTwo(64);
  }

  /** A kernel launch: its blocks may run in any order. */
  method RunKernel<V, T(!new)>(m: Monoid<T>, f: V -> T, xs: seq<V>, grid: nat) returns (partials: seq<T>)
    requires Lawful(m) && grid > 0
    ensures |partials| == grid && Fold(m, partials) == Fold(m, Mapped(f, xs))
    ensures grid * BLOCK_SIZE > 0
    ensures partials == Partials(m, ThreadValues(m, Mapped(f, xs), grid * BLOCK_SIZE), grid, BLOCK_SIZE)
  {
    hide Fold, Visited, ThreadValues;
    GridThreads(grid);
    ghost var v := ThreadValues(m, Mapped(f, xs), grid * BLOCK_SIZE);
    ghost var spec := Partials(m, v, grid, BLOCK_SIZE);
    var out := new T[grid](_ => m.id);
    var pending := Span(0, grid);
    while pending != {}
      invariant forall b :: b in pending ==> b < grid
      invariant forall b :: 0 <= b < grid && b !in pending ==> out[b] == spec[b]
      decreases pending
    {
      var b :| b in pending;
      out[b] := RunBlock(m, f, xs, b, grid);
      pending := pending - {b};
    }
    assert out[..] == spec;
    ThreadsFold(m, Mapped(f, xs), grid * BLOCK_SIZE);
    PartialsFold(m, v, grid, BLOCK_SIZE);
    return out[..];
  }

  lemma GridThreads(grid: nat)
    requires grid > 0
    ensures grid * BLOCK_SIZE > 0
  {
  }

  // ----- device buffers and the host loop -----

  /** Device memory: the buffers obtained and not yet freed, by handle. */
  class DeviceMemory<T> {
    var buffers: map<nat, seq<T>>
    /** The next handle; it counts the allocations granted so far. */
    var next: nat
    /** Allocations refused so far. */
    var refused: nat

    ghost predicate Valid()
      reads this
    {
      forall h :: h in buffers ==> h < next
    }

    constructor ()
      ensures Valid() && buffers == map[] && refused == 0
    {
      buffers, next, refused := map[], 0, 0;
    }

    /** Allocation may fail; what a new buffer contains is not specified. */
    method Allocate(n: nat, filler: T) returns (ok: bool, h: nat)
      requires Valid()
      modifies this
      ensures Valid()
      ensures ok ==> h !in old(buffers) && buffers.Keys == old(buffers).Keys + {h} && |buffers[h]| == n
      ensures ok ==> forall k :: k in old(buffers) ==> buffers[k] == old(buffers)[k]
      ensures !ok ==> buffers == old(buffers)
      ensures next == old(next) + if ok then 1 else 0
      ensures refused == old(refused) + if ok then 0 else 1
    {
      var granted: bool := *;
      ok, h := granted, next;
      if ok {
        buffers := buffers[h := seq(n, _ => filler)];
        next := next + 1;
      } else {
        refused := refused + 1;
      }
    }

    method Write(h: nat, values: seq<T>)
      requires Valid() && h in buffers && |values| == |buffers[h]|
      modifies this`buffers
      ensures Valid() && buffers == old(buffers)[h := values]
    {
      buffers := buffers[h := values];
    }

    method Free(h: nat)
      requires Valid() && h in buffers
      modifies this`buffers
      ensures Valid() && buffers == old(buffers) - {h}
    {
      buffers := buffers - {h};
    }
  }

  /** Everything but the reduction's own buffers is as it was. */
  ghost predicate Untouched<T>(now: map<nat, seq<T>>, was: map<nat, seq<T>>, own: set<nat>) {
    && now.Keys == was.Keys + own
    && forall h :: h in was && h !in own ==> now[h] == was[h]
  }

  lemma MappedIdentity<T>(xs: seq<T>)
    ensures Mapped((x: T) => x, xs) == xs
  {
  }

  /** One pass: a new buffer receives the partials of the old one, which is freed. */
  method ReducePass<T(!new)>(m: Monoid<T>, device: DeviceMemory<T>, at: nat, blocks: nat, ghost rest: map<nat, seq<T>>)
    returns (granted: bool, following: nat)
    requires Lawful(m) && device.Valid() && blocks > 0
    requires at in device.buffers && at !in rest && Untouched(device.buffers, rest, {at})
    modifies device
    ensures device.Valid() && device.next == old(device.next) + if granted then 1 else 0
    ensures device.refused == old(device.refused) + if granted then 0 else 1
    ensures !granted ==> device.buffers == old(device.buffers)
    ensures granted ==> (
      && following in device.buffers && following !in rest && Untouched(device.buffers, rest, {following})
      && |device.buffers[following]| == blocks
      && Fold(m, device.buffers[following]) == Fold(m, old(device.buffers)[at]))
  {
    hide Fold, Mapped;
    ghost var before := device.buffers;
    granted, following := device.Allocate(blocks, m.id);
    if !granted {
      return;
    }
    var input := device.buffers[at];
    assert input == before[at];
    var partials := RunKernel(m, (x: T) => x, input, blocks);
    MappedIdentity(input);
    device.Write(following, partials);
    device.Free(at);
    assert device.buffers.Keys == rest.Keys + {following};
  }

  lemma OnlyOwn<T>(now: map<nat, seq<T>>, was: map<nat, seq<T>>, at: nat)
    requires Untouched(now, was, {at}) && at !in was
    ensures now - {at} == was
  {
  }

  /**
   * Reduces a buffer of partials, pass by pass. On success the result is the fold of the partials and
   * every buffer of the reduction has been freed. When an allocation fails, the error leaves exactly
   * one buffer behind: the one that was to be reduced next is not freed on that path.
   */
  method ReducePartials<T(!new)>(m: Monoid<T>, device: DeviceMemory<T>, buf: nat, ghost rest: map<nat, seq<T>>)
    returns (ok: bool, result: T, ghost leaked: set<nat>)
    requires Lawful(m) && device.Valid() && buf in device.buffers && buf !in rest && Untouched(device.buffers, rest, {buf})
    modifies device
    ensures device.Valid() && device.next >= old(device.next)
    ensures device.refused == old(device.refused) + if ok then 0 else 1
    ensures ok ==> result == Fold(m, old(device.buffers)[buf]) && device.buffers == rest
    ensures !ok ==> |leaked| == 1 && leaked !! rest.Keys && Untouched(device.buffers, rest, leaked)
  {
    hide *;
    var at, n := buf, |device.buffers[buf]|;
    while n > 1
      invariant device.Valid() && at in device.buffers && at !in rest && Untouched(device.buffers, rest, {at})
      invariant device.next >= old(device.next) && device.refused == old(device.refused)
      invariant n == |device.buffers[at]| && Fold(m, device.buffers[at]) == Fold(m, old(device.buffers)[buf])
      decreases n
    {
      var blocks := Blocks(n);
      var granted, following := ReducePass(m, device, at, blocks, rest);
      if !granted {
        return false, m.id, {at};
      }
      at, n := following, blocks;
    }
    result := m.id;
    if n == 1 {
      result := device.buffers[at][0];
      FoldOne(m, device.buffers[at]);
    } else {
      FoldNothing(m, device.buffers[at]);
    }
    OnlyOwn(device.buffers, rest, at);
    device.Free(at);
    return true, result, {};
  }

  /**
   * The whole reduction of `n` elements: for any commutative monoid, any number of elements and any
   * order of blocks and threads, the fold of all transformed elements. It fails exactly when an
   * allocation is refused, and ends there; that leaves one buffer behind, unless it is the very first.
   */
  method ReduceGpu<V, T(!new)>(m: Monoid<T>, f: V -> T, xs: seq<V>, device: DeviceMemory<T>)
    returns (ok: bool, result: T, ghost leaked: set<nat>)
    requires Lawful(m) && device.Valid()
    modifies device
    ensures device.Valid() && device.refused == old(device.refused) + if ok then 0 else 1
    ensures ok ==> result == Fold(m, Mapped(f, xs)) && device.buffers == old(device.buffers)
    ensures !ok ==> |xs| > 0 && |leaked| == if device.next == old(device.next) then 0 else 1
    ensures !ok ==> leaked !! old(device.buffers).Keys && Untouched(device.buffers, old(device.buffers), leaked)
  {
    hide Fold;
    leaked := {};
    if |xs| == 0 {
      FoldNothing(m, Mapped(f, xs));
      return true, m.id, leaked;
    }
    var blocks := Blocks(|xs|);
    var granted, buf := device.Allocate(blocks, m.id);
    if !granted {
      return false, m.id, leaked;
    }
    var partials := RunKernel(m, f, xs, blocks);
    device.Write(buf, partials);
    ok, result, leaked := ReducePartials(m, device, buf, old(device.buffers));
  }
}
