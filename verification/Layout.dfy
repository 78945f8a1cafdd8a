/**
 * Reference semantics of strided layouts. A layout is a pair of equally long sequences, sizes and
 * strides, outermost dimension first. Everything that walks memory elsewhere in this project is
 * proved against `Dot`, the offset of a coordinate.
 */
module Layout {
  import opened Arith

  function Numel(sizes: seq<nat>): nat {
    if |sizes| == 0 then 1 else Numel(sizes[..|sizes| - 1]) * sizes[|sizes| - 1]
  }

  predicate Positive(sizes: seq<nat>) {
    forall d :: 0 <= d < |sizes| ==> sizes[d] > 0
  }

  predicate InBox(sizes: seq<nat>, c: seq<int>) {
    |c| == |sizes| && forall d :: 0 <= d < |sizes| ==> 0 <= c[d] < sizes[d]
  }

  /** Offset of coordinate `c`: the sum of `strides[d] * c[d]`. */
  function Dot(strides: seq<int>, c: seq<int>): int
    requires |strides| == |c|
  {
    if |c| == 0 then 0
    else Dot(strides[..|c| - 1], c[..|c| - 1]) + Times(strides[|c| - 1], c[|c| - 1])
  }

  /** Coordinate of the `f`-th element in C order. */
  function Unflatten(sizes: seq<nat>, f: nat): (c: seq<int>)
    requires Positive(sizes)
    ensures |c| == |sizes|
  {
    if |sizes| == 0 then []
    else var n := sizes[|sizes| - 1];
         Unflatten(sizes[..|sizes| - 1], f / n) + [f % n]
  }

  /** Position of coordinate `c` in C order. */
  function Flatten(sizes: seq<nat>, c: seq<int>): int
    requires |c| == |sizes|
  {
    if |sizes| == 0 then 0
    else Flatten(sizes[..|sizes| - 1], c[..|c| - 1]) * sizes[|sizes| - 1] + c[|c| - 1]
  }

  /** Offset of the `f`-th element in C order, by repeated division from the innermost dimension. */
  function FlatOffset(sizes: seq<nat>, strides: seq<int>, f: nat): int
    requires Positive(sizes) && |strides| == |sizes|
  {
    if |sizes| == 0 then 0
    else var k := |sizes| - 1;
         FlatOffset(sizes[..k], strides[..k], f / sizes[k]) + Times(strides[k], f % sizes[k])
  }

  lemma NumelPositive(sizes: seq<nat>)
    ensures Positive(sizes) <==> Numel(sizes) > 0
  {
    if |sizes| > 0 {
      var k := |sizes| - 1;
      NumelPositive(sizes[..k]);
      assert Positive(sizes) <==> Positive(sizes[..k]) && sizes[k] > 0;
      if Numel(sizes[..k]) > 0 && sizes[k] > 0 {
        MulMono(1, Numel(sizes[..k]), sizes[k]);
      }
    }
  }

  lemma NumelLast(sizes: seq<nat>)
    requires |sizes| > 0
    ensures Numel(sizes) == Numel(sizes[..|sizes| - 1]) * sizes[|sizes| - 1]
  {
  }

  lemma {:induction false} NumelConcat(a: seq<nat>, b: seq<nat>)
    ensures Numel(a + b) == Numel(a) * Numel(b)
  {
    if |b| == 0 {
      assert a + b == a;
    } else {
      var k := |b| - 1;
      assert (a + b)[..|a + b| - 1] == a + b[..k];
      NumelConcat(a, b[..k]);
      assert Numel(a) * Numel(b[..k]) * b[k] == Numel(a) * (Numel(b[..k]) * b[k]);
    }
  }

  /** C order enumerates exactly the box. */
  lemma {:induction false} UnflattenInBox(sizes: seq<nat>, f: nat)
    requires Positive(sizes) && f < Numel(sizes)
    ensures InBox(sizes, Unflatten(sizes, f))
    ensures Flatten(sizes, Unflatten(sizes, f)) == f
  {
    if |sizes| > 0 {
      var k := |sizes| - 1;
      UnflattenSnoc(sizes, f);
      var n, q, r := sizes[k], f / sizes[k], f % sizes[k];
      hide *;
      DivBound(f, Numel(sizes[..k]), n);
      UnflattenInBox(sizes[..k], q);
      var c := Unflatten(sizes[..k], q);
      BoxSnoc(sizes, c, r);
      FlattenSnoc(sizes, c, r);
      DivModWhole(f, n);
    }
  }

  lemma DivModWhole(f: nat, n: nat)
    requires n > 0
    ensures f / n * n + f % n == f && 0 <= f % n < n
  {
  }

  lemma UnflattenSnoc(sizes: seq<nat>, f: nat)
    requires Positive(sizes) && |sizes| > 0
    ensures var k := |sizes| - 1;
            && Positive(sizes[..k]) && sizes[k] > 0 && f % sizes[k] < sizes[k] && Numel(sizes) == Numel(sizes[..k]) * sizes[k]
            && Unflatten(sizes, f) == Unflatten(sizes[..k], f / sizes[k]) + [f % sizes[k]]
  {
  }

  lemma BoxSnoc(sizes: seq<nat>, c: seq<int>, x: int)
    requires |sizes| > 0 && InBox(sizes[..|sizes| - 1], c) && 0 <= x < sizes[|sizes| - 1]
    ensures InBox(sizes, c + [x])
  {
  }

  lemma DotSnoc(strides: seq<int>, s: int, c: seq<int>, x: int)
    requires |strides| == |c|
    ensures Dot(strides + [s], c + [x]) == Dot(strides, c) + Times(s, x)
  {
    assert (strides + [s])[..|c|] == strides && (c + [x])[..|c|] == c;
  }

  lemma FlattenSnoc(sizes: seq<nat>, c: seq<int>, x: int)
    requires |sizes| == |c| + 1
    ensures Flatten(sizes, c + [x]) == Flatten(sizes[..|c|], c) * sizes[|c|] + x
  {
    assert (c + [x])[..|c|] == c;
  }

  lemma {:induction false} FlattenInRange(sizes: seq<nat>, c: seq<int>)
    requires InBox(sizes, c)
    ensures Positive(sizes)
    ensures 0 <= Flatten(sizes, c) < Numel(sizes)
    ensures Unflatten(sizes, Flatten(sizes, c)) == c
  {
    if |sizes| > 0 {
      var k := |sizes| - 1;
      var q, n := Flatten(sizes[..k], c[..k]), Numel(sizes[..k]);
      BoxLast(sizes, c);
      FlattenLast(sizes, c, q);
      hide *;
      FlattenInRange(sizes[..k], c[..k]);
      RowInRange(q, n, c[k], sizes[k]);
      UnflattenSnoc(sizes, q * sizes[k] + c[k]);
    }
  }

  lemma BoxLength(sizes: seq<nat>, c: seq<int>)
    requires InBox(sizes, c)
    ensures |c| == |sizes|
  {
  }

  lemma BoxLast(sizes: seq<nat>, c: seq<int>)
    requires InBox(sizes, c) && |sizes| > 0
    ensures var k := |sizes| - 1; InBox(sizes[..k], c[..k]) && 0 <= c[k] < sizes[k] && c == c[..k] + [c[k]]
    ensures Positive(sizes[..|sizes| - 1]) ==> Positive(sizes)
  {
  }

  lemma FlattenLast(sizes: seq<nat>, c: seq<int>, q: int)
    requires |c| == |sizes| > 0 && q == Flatten(sizes[..|sizes| - 1], c[..|sizes| - 1])
    ensures var k := |sizes| - 1;
            Flatten(sizes, c) == q * sizes[k] + c[k] && Numel(sizes) == Numel(sizes[..k]) * sizes[k]
  {
  }

  lemma RowInRange(q: int, n: int, x: int, d: nat)
    requires 0 <= q < n && 0 <= x < d
    ensures 0 <= q * d + x < n * d
    ensures (q * d + x) / d == q && (q * d + x) % d == x
  {
    MulMono(q, n - 1, d);
    MulMono(0, q, d);
    DivModUnique(q * d + x, q, x, d);
  }

  lemma {:induction false} FlatOffsetIsDot(sizes: seq<nat>, strides: seq<int>, f: nat)
    requires Positive(sizes) && |strides| == |sizes|
    ensures FlatOffset(sizes, strides, f) == Dot(strides, Unflatten(sizes, f))
  {
    hide Times;
    if |sizes| > 0 {
      var k := |sizes| - 1;
      FlatOffsetIsDot(sizes[..k], strides[..k], f / sizes[k]);
      assert Unflatten(sizes, f)[..k] == Unflatten(sizes[..k], f / sizes[k]);
    }
  }

  /** An inner group of dimensions contributes the remainder, the outer group the quotient. */
  lemma {:induction false} FlatOffsetConcat(
    a: seq<nat>, sa: seq<int>, b: seq<nat>, sb: seq<int>, f: nat)
    requires Positive(a) && Positive(b) && |sa| == |a| && |sb| == |b|
    ensures Positive(a + b) && Numel(b) > 0
    ensures FlatOffset(a + b, sa + sb, f)
         == FlatOffset(a, sa, f / Numel(b)) + FlatOffset(b, sb, f % Numel(b))
  {
    hide Times;
    NumelPositive(b);
    if |b| == 0 {
      assert a + b == a && sa + sb == sa;
    } else {
      var k := |b| - 1;
      NumelPositive(b[..k]);
      assert (a + b)[..|a + b| - 1] == a + b[..k];
      assert (sa + sb)[..|a + b| - 1] == sa + sb[..k];
      FlatOffsetConcat(a, sa, b[..k], sb[..k], f / b[k]);
      DivModProduct(f, Numel(b[..k]), b[k]);
    }
  }

  /** Changing one coordinate moves the offset by that coordinate's stride. */
  lemma {:induction false} DotUpdate(strides: seq<int>, c: seq<int>, i: nat, x: int)
    requires |strides| == |c| && i < |c|
    ensures Dot(strides, c[i := x]) == Dot(strides, c) + Times(strides[i], x - c[i])
  {
    hide Times;
    TimesAdd(strides[i], x, c[i]);
    var k := |c| - 1;
    if i == k {
      assert c[i := x][..k] == c[..k];
    } else {
      assert c[i := x][..k] == c[..k][i := x];
      DotUpdate(strides[..k], c[..k], i, x);
    }
  }

  function Zeros(n: nat): (z: seq<int>)
    ensures |z| == n && forall i :: 0 <= i < n ==> z[i] == 0
  {
    seq(n, _ => 0)
  }

  lemma {:induction false} DotZeros(strides: seq<int>, c: seq<int>)
    requires |strides| == |c|
    requires forall d :: 0 <= d < |c| ==> Times(strides[d], c[d]) == 0
    ensures Dot(strides, c) == 0
  {
    hide Times;
    if |c| > 0 {
      DotZeros(strides[..|c| - 1], c[..|c| - 1]);
    }
  }

  /** The largest offset a non-negative layout reaches. */
  function Extent(sizes: seq<nat>, strides: seq<int>): int
    requires |sizes| == |strides|
  {
    if |sizes| == 0 then 0
    else var k := |sizes| - 1; Extent(sizes[..k], strides[..k]) + Times(strides[k], sizes[k] as int - 1)
  }

  predicate NonNegative(strides: seq<int>) {
    forall d :: 0 <= d < |strides| ==> strides[d] >= 0
  }

  /** Offsets of a non-negative layout fill no more than `[0, Extent]`, and reach its end. */
  lemma {:induction false} DotWithinExtent(sizes: seq<nat>, strides: seq<int>, c: seq<int>)
    requires |strides| == |sizes| && NonNegative(strides) && InBox(sizes, c)
    ensures 0 <= Dot(strides, c) <= Extent(sizes, strides)
  {
    if |sizes| > 0 {
      var k := |sizes| - 1;
      hide Times;
      DotWithinExtent(sizes[..k], strides[..k], c[..k]);
      TimesNonNegative(strides[k], c[k]);
      TimesMono(strides[k], c[k], sizes[k] - 1);
    }
  }

  /** The last element in C order lies at the extent. */
  lemma {:induction false} ExtentIsLast(sizes: seq<nat>, strides: seq<int>)
    requires |strides| == |sizes| && Positive(sizes)
    ensures Numel(sizes) > 0 && FlatOffset(sizes, strides, Numel(sizes) - 1) == Extent(sizes, strides)
  {
    NumelPositive(sizes);
    if |sizes| > 0 {
      var k := |sizes| - 1;
      var n, m := sizes[k], Numel(sizes[..k]);
      ExtentIsLast(sizes[..k], strides[..k]);
      assert Numel(sizes) == m * n;
      assert m * n - 1 == (m - 1) * n + (n - 1);
      DivModUnique(m * n - 1, m - 1, n - 1, n);
      hide Times, Numel;
    }
  }

  /** A stride times a size, as the planner multiplies them, is at most twice the extent. */
  lemma {:induction false} StepWithinTwice(sizes: seq<nat>, strides: seq<int>, d: nat)
    requires |strides| == |sizes| && Positive(sizes) && NonNegative(strides) && d < |sizes| && sizes[d] > 1
    ensures Times(strides[d], sizes[d]) <= 2 * Extent(sizes, strides)
  {
    var k := |sizes| - 1;
    hide Times;
    TimesNonNegative(strides[k], sizes[k] as int - 1);
    if d < k {
      StepWithinTwice(sizes[..k], strides[..k], d);
    } else {
      TimesAdd(strides[k], sizes[k] as int - 1, 1);
      TimesMono(strides[k], 1, sizes[k] as int - 1);
      ExtentNonNegative(sizes[..k], strides[..k]);
    }
  }

  lemma {:induction false} ExtentNonNegative(sizes: seq<nat>, strides: seq<int>)
    requires |strides| == |sizes| && Positive(sizes) && NonNegative(strides)
    ensures Extent(sizes, strides) >= 0
  {
    hide Times;
    if |sizes| > 0 {
      var k := |sizes| - 1;
      ExtentNonNegative(sizes[..k], strides[..k]);
      TimesNonNegative(strides[k], sizes[k] as int - 1);
    }
  }

  lemma {:induction false} ExtentReached(sizes: seq<nat>, strides: seq<int>)
    requires |strides| == |sizes| && Positive(sizes)
    ensures var c := seq(|sizes|, d requires 0 <= d < |sizes| => sizes[d] - 1);
            InBox(sizes, c) && Dot(strides, c) == Extent(sizes, strides)
  {
    var c := seq(|sizes|, d requires 0 <= d < |sizes| => sizes[d] - 1);
    hide Times;
    if |sizes| > 0 {
      var k := |sizes| - 1;
      ExtentReached(sizes[..k], strides[..k]);
      assert c[..k] == seq(k, d requires 0 <= d < k => sizes[..k][d] - 1);
    }
  }

  /** Distinct coordinates have distinct offsets. */
  ghost predicate Injective(sizes: seq<nat>, strides: seq<int>)
    requires |sizes| == |strides|
  {
    forall c, c' :: InBox(sizes, c) && InBox(sizes, c') && Dot(strides, c) == Dot(strides, c') ==> c == c'
  }

  // ----- the offset of the `f`-th element -----

  /** Offset of element `f` in C order; a contiguous layout is not consulted, and an empty one gives zero. */
  function LogicalOffset(sizes: seq<nat>, strides: seq<int>, contiguous: bool, f: nat): int
    requires |sizes| == |strides|
  {
    if contiguous then f else if Positive(sizes) then FlatOffset(sizes, strides, f) else 0
  }

  lemma PrefixOfPrefix<A>(s: seq<A>, d: nat)
    requires 0 < d <= |s|
    ensures s[..d][..d - 1] == s[..d - 1]
  {
  }

  /** The loop of `strided_offset` and `logical_offset`: repeated division from the innermost dimension. */
  method StridedOffset(sizes: seq<nat>, strides: seq<int>, contiguous: bool, flat: nat) returns (off: int)
    requires |sizes| == |strides|
    ensures off == LogicalOffset(sizes, strides, contiguous, flat)
  {
    hide Times;
    if contiguous {
      return flat;
    }
    off := 0;
    var rem, k := flat, |sizes|;
    assert sizes[..k] == sizes && strides[..k] == strides;
    while k > 0
      invariant 0 <= k <= |sizes| && Positive(sizes[k..])
      invariant Positive(sizes) ==> FlatOffset(sizes, strides, flat) == FlatOffset(sizes[..k], strides[..k], rem) + off
    {
      PrefixOfPrefix(sizes, k);
      PrefixOfPrefix(strides, k);
      k := k - 1;
      if sizes[k] == 0 {
        return 0;
      }
      off := off + Times(strides[k], rem % sizes[k]);
      rem := rem / sizes[k];
    }
    assert sizes[0..] == sizes;
  }

  // ----- layouts of two dimensions -----

  lemma NumelPair(a: nat, b: nat)
    ensures Numel([a, b]) == a * b && Numel([a]) == a
    ensures [a, b][1..2] == [b] && [a, b][0..2] == [a, b] && [a, b][2..2] == []
  {
    var one: seq<nat>, two: seq<nat> := [a], [a, b];
    assert two[..|two| - 1] == one && one[..|one| - 1] == [];
    assert Numel(one) == Numel(one[..|one| - 1]) * one[0];
    assert Numel(two) == Numel(two[..|two| - 1]) * two[1];
  }

  lemma ExtentPair(a: nat, b: nat, s: int, t: int)
    ensures Extent([a, b], [s, t]) == Times(s, a as int - 1) + Times(t, b as int - 1)
    ensures Extent([a], [s]) == Times(s, a as int - 1)
  {
    var one: seq<nat>, two: seq<nat>, ones: seq<int>, twos: seq<int> := [a], [a, b], [s], [s, t];
    assert two[..1] == one && twos[..1] == ones && one[..0] == [] && ones[..0] == [];
    assert Extent(one, ones) == Extent(one[..0], ones[..0]) + Times(s, a as int - 1);
    assert Extent(two, twos) == Extent(two[..1], twos[..1]) + Times(t, b as int - 1);
  }

  lemma DotPair(s: int, t: int, x: int, y: int)
    ensures Dot([s, t], [x, y]) == Times(s, x) + Times(t, y)
  {
    var one, two, ones, twos := [s], [s, t], [x], [x, y];
    assert two[..1] == one && twos[..1] == ones && one[..0] == [] && ones[..0] == [];
    assert Dot(one, ones) == Dot(one[..0], ones[..0]) + Times(s, x);
    assert Dot(two, twos) == Dot(two[..1], twos[..1]) + Times(t, y);
  }
}
