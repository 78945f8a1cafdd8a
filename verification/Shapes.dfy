/** Broadcasting (expression_shape.h): result shapes, and reading a leaf in the index space of the result. */
module Shapes {
  import opened Arith
  import opened Layout

  const MAX_RANK: nat := 8

  /** `sizes` can be repeated to shape `out`: matched from the right, each dimension is equal or one. */
  ghost predicate Expands(sizes: seq<nat>, out: seq<nat>) {
    && |sizes| <= |out|
    && forall j :: 0 <= j < |sizes| ==> sizes[j] == 1 || sizes[j] == out[j + |out| - |sizes|]
  }

  /** `sizes` with ones in the places of `ones`. */
  ghost function Shrunk(sizes: seq<nat>, ones: seq<bool>): (r: seq<nat>)
    requires |ones| == |sizes|
    ensures |r| == |sizes| && forall d :: 0 <= d < |r| ==> r[d] == if ones[d] then 1 else sizes[d]
  {
    seq(|sizes|, d requires 0 <= d < |sizes| => if ones[d] then 1 else sizes[d])
  }

  /** The shapes that expand to `out` are its trailing dimensions, with any of them replaced by one. */
  lemma ExpandsExactly(sizes: seq<nat>, out: seq<nat>)
    ensures Expands(sizes, out) <==>
              |sizes| <= |out| && exists ones :: |ones| == |sizes| && sizes == Shrunk(out[|out| - |sizes|..], ones)
  {
    if Expands(sizes, out) {
      var ones := seq(|sizes|, d requires 0 <= d < |sizes| => sizes[d] == 1);
      var part := Shrunk(out[|out| - |sizes|..], ones);
      forall d | 0 <= d < |sizes| ensures sizes[d] == part[d] {
        assert out[|out| - |sizes|..][d] == out[d + |out| - |sizes|];
      }
      assert sizes == part;
    }
    if |sizes| <= |out| && exists ones :: |ones| == |sizes| && sizes == Shrunk(out[|out| - |sizes|..], ones) {
      var ones :| |ones| == |sizes| && sizes == Shrunk(out[|out| - |sizes|..], ones);
      ShrunkExpands(sizes, out, ones);
    }
  }

  lemma ShrunkExpands(sizes: seq<nat>, out: seq<nat>, ones: seq<bool>)
    requires |ones| == |sizes| <= |out| && sizes == Shrunk(out[|out| - |sizes|..], ones)
    ensures Expands(sizes, out)
  {
    forall d | 0 <= d < |sizes| ensures sizes[d] == 1 || sizes[d] == out[d + |out| - |sizes|] {
      assert out[|out| - |sizes|..][d] == out[d + |out| - |sizes|];
    }
  }

  /** Dimension `i` counted from the right, one when the shape has no such dimension. */
  function FromRight(sizes: seq<nat>, i: nat): nat {
    if i < |sizes| then sizes[|sizes| - 1 - i] else 1
  }

  ghost predicate Compatible(a: seq<nat>, b: seq<nat>) {
    forall i :: 0 <= i < |a| && i < |b| ==> FromRight(a, i) == FromRight(b, i) || FromRight(a, i) == 1 || FromRight(b, i) == 1
  }

  /**
   * Broadcasts the accumulated shape with one leaf's. On success the result is the smallest shape both
   * expand to; it fails exactly when no shape is expanded to by both, or the leaf's rank is too high.
   */
  method BroadcastInto(acc: seq<nat>, sizes: seq<nat>) returns (ok: bool, result: seq<nat>)
    ensures ok <==> |sizes| <= 8 && Compatible(acc, sizes)
    ensures ok ==> Expands(acc, result) && Expands(sizes, result)
    ensures ok ==> forall t :: Expands(acc, t) && Expands(sizes, t) ==> Expands(result, t)
    ensures ok ==> |result| == if |acc| > |sizes| then |acc| else |sizes|
    ensures !ok ==> result == acc
  {
    if |sizes| > MAX_RANK {
      return false, acc;
    }
    var outRank := if |acc| > |sizes| then |acc| else |sizes|;
    var out := new nat[outRank](_ => 0);
    for i := 0 to outRank
      invariant forall k :: 0 <= k < i ==> FromRight(acc, k) == FromRight(sizes, k) || FromRight(acc, k) == 1 || FromRight(sizes, k) == 1
      invariant forall k :: 0 <= k < i ==>
                  out[outRank - 1 - k] == if FromRight(acc, k) == 1 then FromRight(sizes, k) else FromRight(acc, k)
    {
      var a := if i < |acc| then acc[|acc| - 1 - i] else 1;
      var b := if i < |sizes| then sizes[|sizes| - 1 - i] else 1;
      assert a == FromRight(acc, i) && b == FromRight(sizes, i);
      if a != b && a != 1 && b != 1 {
        return false, acc;
      }
      out[outRank - 1 - i] := if a == 1 then b else a;
    }
    result := out[..];
    assert forall k :: 0 <= k < outRank ==>
        FromRight(result, k) == if FromRight(acc, k) == 1 then FromRight(sizes, k) else FromRight(acc, k);
    JoinIsLeast(acc, sizes, result);
    return true, result;
  }

  lemma ExpandsFromRight(sizes: seq<nat>, out: seq<nat>)
    ensures Expands(sizes, out) <==>
              |sizes| <= |out| && forall i :: 0 <= i < |sizes| ==> FromRight(sizes, i) == 1 || FromRight(sizes, i) == FromRight(out, i)
  {
    if |sizes| <= |out| {
      if Expands(sizes, out) {
        forall i | 0 <= i < |sizes| ensures FromRight(sizes, i) == 1 || FromRight(sizes, i) == FromRight(out, i) {
          var j := |sizes| - 1 - i;
          assert sizes[j] == 1 || sizes[j] == out[j + |out| - |sizes|];
        }
      }
      if forall i :: 0 <= i < |sizes| ==> FromRight(sizes, i) == 1 || FromRight(sizes, i) == FromRight(out, i) {
        forall j | 0 <= j < |sizes| ensures sizes[j] == 1 || sizes[j] == out[j + |out| - |sizes|] {
          assert FromRight(sizes, |sizes| - 1 - j) == 1 || FromRight(sizes, |sizes| - 1 - j) == FromRight(out, |sizes| - 1 - j);
        }
      }
    }
  }

  lemma JoinIsLeast(a: seq<nat>, b: seq<nat>, r: seq<nat>)
    requires |r| == if |a| > |b| then |a| else |b|
    requires forall k :: 0 <= k < |r| ==> FromRight(a, k) == FromRight(b, k) || FromRight(a, k) == 1 || FromRight(b, k) == 1
    requires forall k :: 0 <= k < |r| ==> FromRight(r, k) == if FromRight(a, k) == 1 then FromRight(b, k) else FromRight(a, k)
    ensures Expands(a, r) && Expands(b, r)
    ensures forall t :: Expands(a, t) && Expands(b, t) ==> Expands(r, t)
  {
    ExpandsFromRight(a, r);
    ExpandsFromRight(b, r);
    forall t | Expands(a, t) && Expands(b, t) ensures Expands(r, t) {
      ExpandsFromRight(a, t);
      ExpandsFromRight(b, t);
      ExpandsFromRight(r, t);
    }
  }

  /** Incompatible shapes have no common expansion. */
  lemma IncompatibleNoShape(a: seq<nat>, b: seq<nat>, t: seq<nat>)
    requires Expands(a, t) && Expands(b, t)
    ensures Compatible(a, b)
  {
    ExpandsFromRight(a, t);
    ExpandsFromRight(b, t);
  }

  lemma ExpandsTransitive(a: seq<nat>, b: seq<nat>, c: seq<nat>)
    requires Expands(a, b) && Expands(b, c)
    ensures Expands(a, c)
  {
    ExpandsFromRight(a, b);
    ExpandsFromRight(b, c);
    ExpandsFromRight(a, c);
  }

  /** The coordinate of a leaf of shape `sizes` that result coordinate `c` reads. */
  function Project(sizes: seq<nat>, c: seq<int>): (p: seq<int>)
    requires |sizes| <= |c|
    ensures |p| == |sizes|
  {
    seq(|sizes|, j requires 0 <= j < |sizes| => if sizes[j] == 1 then 0 else c[j + |c| - |sizes|])
  }

  lemma ProjectInBox(sizes: seq<nat>, out: seq<nat>, c: seq<int>)
    requires Expands(sizes, out) && InBox(out, c)
    ensures InBox(sizes, Project(sizes, c))
  {
  }

  lemma ProjectSameShape(sizes: seq<nat>, c: seq<int>)
    requires InBox(sizes, c)
    ensures Project(sizes, c) == c
  {
  }

  /** What the strides of a leaf become in a result of rank `rank`: zero where the leaf is repeated. */
  function BroadcastStrides(rank: nat, sizes: seq<nat>, strides: seq<int>): (r: seq<int>)
    requires |sizes| == |strides| <= rank
    ensures |r| == rank
  {
    var lead := rank - |sizes|;
    seq(rank, d requires 0 <= d < rank => if d < lead || sizes[d - lead] == 1 then 0 else strides[d - lead])
  }

  /** The loop that fills the rewritten strides. */
  method FillBroadcastStrides(rank: nat, sizes: seq<nat>, strides: seq<int>, result: array<int>)
    requires |sizes| == |strides| <= rank <= result.Length
    modifies result
    ensures result[..rank] == BroadcastStrides(rank, sizes, strides)
    ensures forall d :: rank <= d < result.Length ==> result[d] == old(result[d])
  {
    var lead := rank - |sizes|;
    for d := 0 to rank
      invariant forall k :: 0 <= k < d ==> result[k] == BroadcastStrides(rank, sizes, strides)[k]
      invariant forall k :: d <= k < result.Length ==> result[k] == old(result[k])
    {
      var j := d - lead;
      result[d] := if j < 0 || sizes[j] == 1 then 0 else strides[j];
    }
  }

  /** Rewritten strides read, at every result coordinate, the leaf element that broadcasting selects. */
  lemma {:induction false} BroadcastReads(sizes: seq<nat>, strides: seq<int>, c: seq<int>)
    requires |sizes| == |strides| <= |c|
    ensures Dot(BroadcastStrides(|c|, sizes, strides), c) == Dot(strides, Project(sizes, c))
  {
    hide Times;
    if |sizes| == 0 {
      forall d | 0 <= d < |c| ensures Times(BroadcastStrides(|c|, sizes, strides)[d], c[d]) == 0 {
        TimesAdd(c[d], 0, 0);
        TimesCommutes(c[d], 0);
      }
      DotZeros(BroadcastStrides(|c|, sizes, strides), c);
    } else {
      var k, n := |sizes| - 1, |c| - 1;
      BroadcastReads(sizes[..k], strides[..k], c[..n]);
      assert BroadcastStrides(|c|, sizes, strides)[..n] == BroadcastStrides(n, sizes[..k], strides[..k]);
      assert Project(sizes, c)[..k] == Project(sizes[..k], c[..n]);
      TimesAdd(strides[k], 0, 0);
      TimesAdd(c[n], 0, 0);
      TimesCommutes(c[n], 0);
    }
  }
}
