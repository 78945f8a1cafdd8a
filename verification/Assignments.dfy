/**
 * What an elementwise assignment must leave in memory, and how a sweep whose iterations enumerate the
 * coordinates of the destination achieves it.
 */
module Assignments {
  import opened Arith
  import opened Layout
  import opened StridedRefs
  import opened Shapes
  import opened Exprs
  import opened Pools
  import opened Sweeps

  /**
   * The reference semantics of `dst = e`: every destination element gets the meaning of the expression
   * at its coordinate, read from memory as it was before; nothing else changes.
   */
  ghost predicate Assigned<T>(e: Expr<T>, dst: StridedRef, p: Pool, before: seq<T>, after: seq<T>)
    requires Holds(p, dst) && AllHeld(p, Leaves(e), dst.sizes) && |before| == p.length
  {
    && |after| == |before|
    && (forall c :: InBox(dst.sizes, c) ==>
          0 <= LeafIndex(dst, c) < |after| && after[LeafIndex(dst, c)] == Denote(e, p, dst.sizes, c, before))
    && (forall x :: 0 <= x < |before| && (forall c :: InBox(dst.sizes, c) ==> LeafIndex(dst, c) != x) ==> after[x] == before[x])
  }

  ghost predicate Readable(ls: seq<StridedRef>, rank: nat) {
    forall l :: l in ls ==> l.elem.bytes > 0 && |l.sizes| == |l.strides| <= rank
  }

  function LeafIndices(ls: seq<StridedRef>, c: seq<int>): (p: seq<int>)
    requires forall k :: 0 <= k < |ls| ==> ls[k].elem.bytes > 0 && |ls[k].sizes| == |ls[k].strides| <= |c|
    ensures |p| == |ls|
  {
    seq(|ls|, k requires 0 <= k < |ls| => LeafIndex(ls[k], c))
  }

  /** `coords` lists every coordinate of the box exactly once. */
  ghost predicate Enumerates(coords: seq<seq<int>>, sizes: seq<nat>) {
    && (forall g :: 0 <= g < |coords| ==> InBox(sizes, coords[g]))
    && (forall g, h :: 0 <= g < |coords| && 0 <= h < |coords| && coords[g] == coords[h] ==> g == h)
    && (forall c :: InBox(sizes, c) ==> c in coords)
  }

  /** Iteration `g` of the sweep computes the destination element at coordinate `coords[g]`. */
  ghost predicate Follows<T>(s: Sweep<T>, dst: StridedRef, coords: seq<seq<int>>)
    requires dst.elem.bytes > 0 && |dst.sizes| == |dst.strides| && Readable(Leaves(s.e), |dst.sizes|)
  {
    && |s.writes| == |s.sources| == |coords| && Enumerates(coords, dst.sizes)
    && (forall g :: 0 <= g < |coords| ==> s.writes[g] == LeafIndex(dst, coords[g]))
    && (forall g :: 0 <= g < |coords| ==> s.sources[g] == LeafIndices(Leaves(s.e), coords[g]))
  }

  lemma FollowsFits<T>(s: Sweep<T>, dst: StridedRef, p: Pool, coords: seq<seq<int>>)
    requires Holds(p, dst) && AllHeld(p, Leaves(s.e), dst.sizes) && Readable(Leaves(s.e), |dst.sizes|)
    requires Follows(s, dst, coords)
    ensures s.Fits(p.length)
  {
    hide LeafIndex;
    forall g | 0 <= g < |coords| ensures 0 <= s.writes[g] < p.length {
      IndexInPool(p, dst, dst.sizes, coords[g]);
    }
    forall g, k | 0 <= g < |coords| && 0 <= k < |s.sources[g]| ensures 0 <= s.sources[g][k] < p.length {
      assert Leaves(s.e)[k] in Leaves(s.e);
      IndexInPool(p, Leaves(s.e)[k], dst.sizes, coords[g]);
    }
  }

  /** With an injective destination and no hazard, the iterations are independent of each other. */
  lemma FollowsSafe<T>(s: Sweep<T>, dst: StridedRef, p: Pool, coords: seq<seq<int>>)
    requires Holds(p, dst) && AllHeld(p, Leaves(s.e), dst.sizes) && Readable(Leaves(s.e), |dst.sizes|)
    requires Follows(s, dst, coords) && Injective(dst.sizes, dst.strides) && NoHazard(dst, Leaves(s.e), p)
    ensures s.Safe()
  {
    forall g, h | 0 <= g < |s.writes| && 0 <= h < |s.writes| && s.writes[g] == s.writes[h] ensures g == h {
      ProjectSameShape(dst.sizes, coords[g]);
      ProjectSameShape(dst.sizes, coords[h]);
    }
    forall g, h | 0 <= g < |s.writes| && 0 <= h < |s.writes| && s.writes[h] in s.sources[g] ensures g == h {
      var k :| 0 <= k < |s.sources[g]| && s.sources[g][k] == s.writes[h];
      assert Leaves(s.e)[k] in Leaves(s.e);
      assert LeafIndex(Leaves(s.e)[k], coords[g]) == LeafIndex(dst, coords[h]);
    }
  }

  /** An iteration computes the meaning of the expression at its coordinate. */
  lemma FollowsValue<T>(s: Sweep<T>, dst: StridedRef, p: Pool, coords: seq<seq<int>>, g: nat, heap: seq<T>)
    requires Holds(p, dst) && AllHeld(p, Leaves(s.e), dst.sizes) && Readable(Leaves(s.e), |dst.sizes|)
    requires Follows(s, dst, coords) && s.Fits(|heap|) && |heap| == p.length && g < |coords|
    ensures s.Value(g, heap) == Denote(s.e, p, dst.sizes, coords[g], heap)
  {
    hide LeafIndex;
    DenoteReadsLeaves(s.e, p, dst.sizes, coords[g], heap);
    assert LeafValues(Leaves(s.e), p, dst.sizes, coords[g], heap)
        == seq(|s.sources[g]|, k requires 0 <= k < |s.sources[g]| => heap[s.sources[g][k]]);
  }

  /** Carrying out all iterations is the assignment. */
  lemma FollowsAssigned<T>(s: Sweep<T>, dst: StridedRef, p: Pool, coords: seq<seq<int>>, before: seq<T>, after: seq<T>, done: set<nat>)
    requires Holds(p, dst) && AllHeld(p, Leaves(s.e), dst.sizes) && Readable(Leaves(s.e), |dst.sizes|)
    requires Follows(s, dst, coords) && s.Fits(|before|) && |before| == p.length
    requires s.Wrote(before, after, done) && forall g: nat :: g in done <==> g < |s.writes|
    ensures Assigned(s.e, dst, p, before, after)
  {
    hide LeafIndex, Denote;
    forall c | InBox(dst.sizes, c)
      ensures 0 <= LeafIndex(dst, c) < |after| && after[LeafIndex(dst, c)] == Denote(s.e, p, dst.sizes, c, before)
    {
      var g :| 0 <= g < |coords| && coords[g] == c;
      assert g in done;
      FollowsValue(s, dst, p, coords, g, before);
    }
    forall x | 0 <= x < |before| && (forall c :: InBox(dst.sizes, c) ==> LeafIndex(dst, c) != x)
      ensures after[x] == before[x]
    {
      forall g | g in done ensures s.writes[g] != x {
        assert InBox(dst.sizes, coords[g]);
      }
    }
  }
}
