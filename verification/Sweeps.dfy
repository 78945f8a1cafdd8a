/**
 * An elementwise assignment as a set of independent iterations over shared memory: iteration `g` reads
 * the elements `sources[g]` and writes `writes[g]`. When no iteration reads what another writes, the
 * result does not depend on the order, the grouping or the interleaving of the iterations.
 */
module Sweeps {
  import opened Exprs

  datatype Sweep<!T> = Sweep(e: Expr<T>, writes: seq<int>, sources: seq<seq<int>>) {

    /** Every iteration stays inside a memory of `n` elements and reads one element per leaf. */
    ghost predicate Fits(n: nat) {
      && |sources| == |writes|
      && (forall g :: 0 <= g < |writes| ==> 0 <= writes[g] < n && |sources[g]| == |Leaves(e)|)
      && (forall g, k :: 0 <= g < |writes| && 0 <= k < |sources[g]| ==> 0 <= sources[g][k] < n)
    }

    /** No element is written twice, and none is read by one iteration and written by another. */
    ghost predicate Safe()
      requires |sources| == |writes|
    {
      && (forall g, h :: 0 <= g < |writes| && 0 <= h < |writes| && writes[g] == writes[h] ==> g == h)
      && (forall g, h :: 0 <= g < |writes| && 0 <= h < |writes| && writes[h] in sources[g] ==> g == h)
    }

    /** What iteration `g` computes from memory `heap`. */
    ghost function Value(g: nat, heap: seq<T>): T
      requires Fits(|heap|) && g < |writes|
    {
      EvalAt(e, seq(|sources[g]|, k requires 0 <= k < |sources[g]| => heap[sources[g][k]]))
    }

    /** `after` is `before` with exactly the iterations in `done` carried out, all reading `before`. */
    ghost predicate Wrote(before: seq<T>, after: seq<T>, done: set<nat>)
      requires Fits(|before|)
    {
      && |after| == |before|
      && (forall g :: g in done ==> g < |writes| && after[writes[g]] == Value(g, before))
      && (forall x :: 0 <= x < |before| && (forall g :: g in done ==> writes[g] != x) ==> after[x] == before[x])
    }
  }

  lemma ValueFrame<T>(s: Sweep<T>, g: nat, a: seq<T>, b: seq<T>)
    requires s.Fits(|a|) && g < |s.writes| && |a| == |b|
    requires forall k :: 0 <= k < |s.sources[g]| ==> a[s.sources[g][k]] == b[s.sources[g][k]]
    ensures s.Value(g, a) == s.Value(g, b)
  {
    assert seq(|s.sources[g]|, k requires 0 <= k < |s.sources[g]| => a[s.sources[g][k]])
        == seq(|s.sources[g]|, k requires 0 <= k < |s.sources[g]| => b[s.sources[g][k]]);
  }

  /** An iteration not yet done reads what it would have read at the start. */
  lemma UndoneReadsOriginal<T>(s: Sweep<T>, before: seq<T>, now: seq<T>, done: set<nat>, g: nat, k: nat)
    requires s.Fits(|before|) && s.Safe() && s.Wrote(before, now, done)
    requires g < |s.writes| && g !in done && k < |s.sources[g]|
    ensures now[s.sources[g][k]] == before[s.sources[g][k]]
  {
    var x := s.sources[g][k];
    assert x in s.sources[g];
    assert forall h :: h in done ==> s.writes[h] != x;
  }

  lemma UndoneValue<T>(s: Sweep<T>, before: seq<T>, now: seq<T>, done: set<nat>, g: nat)
    requires s.Fits(|before|) && s.Safe() && s.Wrote(before, now, done) && g < |s.writes| && g !in done
    ensures s.Value(g, now) == s.Value(g, before)
  {
    forall k | 0 <= k < |s.sources[g]| ensures now[s.sources[g][k]] == before[s.sources[g][k]] {
      UndoneReadsOriginal(s, before, now, done, g, k);
    }
    ValueFrame(s, g, now, before);
  }

  /** Carrying out disjoint groups of iterations one after the other is carrying out their union. */
  lemma WroteCompose<T>(s: Sweep<T>, before: seq<T>, mid: seq<T>, after: seq<T>, first: set<nat>, second: set<nat>)
    requires s.Fits(|before|) && s.Safe() && first !! second
    requires s.Wrote(before, mid, first) && s.Wrote(mid, after, second)
    ensures s.Wrote(before, after, first + second)
  {
    forall g | g in first + second ensures g < |s.writes| && after[s.writes[g]] == s.Value(g, before) {
      if g in second {
        UndoneValue(s, before, mid, first, g);
      } else {
        assert forall h :: h in second ==> s.writes[h] != s.writes[g];
      }
    }
    forall x | 0 <= x < |before| && (forall g :: g in first + second ==> s.writes[g] != x)
      ensures after[x] == before[x]
    {
      assert forall g :: g in first ==> g in first + second;
      assert forall g :: g in second ==> g in first + second;
    }
  }

  /** Carrying out one more iteration. */
  lemma WroteOne<T>(s: Sweep<T>, before: seq<T>, now: seq<T>, done: set<nat>, g: nat, v: T)
    requires s.Fits(|before|) && s.Safe() && s.Wrote(before, now, done)
    requires g < |s.writes| && g !in done && v == s.Value(g, before)
    ensures s.Wrote(before, now[s.writes[g] := v], done + {g})
  {
    var after := now[s.writes[g] := v];
    forall h | h in done + {g} ensures h < |s.writes| && after[s.writes[h]] == s.Value(h, before) {
      if h != g { assert s.writes[h] != s.writes[g]; }
    }
    forall x | 0 <= x < |before| && (forall h :: h in done + {g} ==> s.writes[h] != x) ensures after[x] == before[x] {
      assert g in done + {g};
      assert forall h :: h in done ==> h in done + {g};
    }
  }

  // ----- every interleaving -----

  /** A load of one leaf element into a register of iteration `g`, or the store of its result. */
  datatype Event = Load(g: nat, k: nat) | Store(g: nat)

  /** Memory, the registers of all iterations, and the iterations that have stored. */
  datatype State<T> = State(heap: seq<T>, regs: map<(nat, nat), T>, stored: set<nat>)

  /** A store needs all its loads; each iteration stores once. Loads may come at any time, in any order. */
  ghost predicate Enabled<T>(s: Sweep<T>, st: State<T>, ev: Event) {
    && ev.g < |s.writes| == |s.sources|
    && match ev
       case Load(g, k) => k < |s.sources[g]|
       case Store(g) => g !in st.stored && forall k :: 0 <= k < |s.sources[g]| ==> (g, k) in st.regs
  }

  ghost function Apply<T>(s: Sweep<T>, st: State<T>, ev: Event): State<T>
    requires s.Fits(|st.heap|) && Enabled(s, st, ev)
  {
    match ev
    case Load(g, k) => st.(regs := st.regs[(g, k) := st.heap[s.sources[g][k]]])
    case Store(g) =>
      var v := EvalAt(s.e, seq(|s.sources[g]|, k requires 0 <= k < |s.sources[g]| => st.regs[(g, k)]));
      State(st.heap[s.writes[g] := v], st.regs, st.stored + {g})
  }

  /** The states of every run: each event enabled in turn. */
  ghost predicate Reachable<T(!new)>(s: Sweep<T>, before: seq<T>, events: seq<Event>, st: State<T>)
    requires s.Fits(|before|)
    decreases |events|
  {
    if |events| == 0 then st == State(before, map[], {})
    else exists prev ::
      && Reachable(s, before, events[..|events| - 1], prev)
      && |prev.heap| == |before|
      && Enabled(s, prev, events[|events| - 1])
      && st == Apply(s, prev, events[|events| - 1])
  }

  ghost predicate RunInvariant<T>(s: Sweep<T>, before: seq<T>, st: State<T>)
    requires s.Fits(|before|)
  {
    && s.Wrote(before, st.heap, st.stored)
    && forall g, k :: (g, k) in st.regs && g !in st.stored ==>
         g < |s.writes| && k < |s.sources[g]| && st.regs[(g, k)] == before[s.sources[g][k]]
  }

  /**
   * However loads and stores of different iterations interleave (threads, chunks, vector lanes), memory
   * always is the original with the stored iterations carried out against the original.
   */
  lemma {:induction false} EveryInterleaving<T(!new)>(s: Sweep<T>, before: seq<T>, events: seq<Event>, st: State<T>)
    requires s.Fits(|before|) && s.Safe() && Reachable(s, before, events, st)
    ensures RunInvariant(s, before, st)
    decreases |events|
  {
    if |events| > 0 {
      var ev := events[|events| - 1];
      var prev :| Reachable(s, before, events[..|events| - 1], prev) && |prev.heap| == |before|
                  && Enabled(s, prev, ev) && st == Apply(s, prev, ev);
      EveryInterleaving(s, before, events[..|events| - 1], prev);
      EventKeepsInvariant(s, before, prev, ev);
    }
  }

  lemma EventKeepsInvariant<T>(s: Sweep<T>, before: seq<T>, st: State<T>, ev: Event)
    requires s.Fits(|before|) && s.Safe() && RunInvariant(s, before, st) && Enabled(s, st, ev)
    ensures RunInvariant(s, before, Apply(s, st, ev))
  {
    match ev
    case Load(g, k) =>
      if g !in st.stored {
        UndoneReadsOriginal(s, before, st.heap, st.stored, g, k);
      }
    case Store(g) =>
      var v := EvalAt(s.e, seq(|s.sources[g]|, k requires 0 <= k < |s.sources[g]| => st.regs[(g, k)]));
      assert seq(|s.sources[g]|, k requires 0 <= k < |s.sources[g]| => st.regs[(g, k)])
          == seq(|s.sources[g]|, k requires 0 <= k < |s.sources[g]| => before[s.sources[g][k]]);
      WroteOne(s, before, st.heap, st.stored, g, v);
  }
}
