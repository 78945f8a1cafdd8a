/** The state a tensor caches about its layout (tensor.h, `recompute_cpu_simd_alignment_state`). */
module Tensors {
  import opened Arith
  import opened Layout
  import opened Permutations
  import opened StridedRefs
  import opened Axes
  import opened Lattice
  import opened Packing
  import opened Peels
  import opened Kernels
  import opened ViewStrides

  class Tensor {
    var sizes: seq<nat>
    var strides: seq<int>
    const elem: Elem
    const address: nat
    const device: Device
    const deviceIndex: int
    const isView: bool
    var numel: nat
    var contiguous: bool
    var nonOverlapping: bool
    var body: Body

    constructor (elem: Elem, address: nat, device: Device, deviceIndex: int, isView: bool, sizes: seq<nat>, strides: seq<int>)
      ensures this.elem == elem && this.address == address && this.device == device && this.deviceIndex == deviceIndex
      ensures this.isView == isView && this.sizes == sizes && this.strides == strides
    {
      this.elem, this.address, this.device, this.deviceIndex, this.isView := elem, address, device, deviceIndex, isView;
      this.sizes, this.strides := sizes, strides;
      numel, contiguous, nonOverlapping, body := 0, true, true, Body(0, 0);
    }

    ghost predicate CachedShape()
      reads this
    {
      && |sizes| == |strides| && numel == Numel(sizes)
      && (contiguous <==> numel == 0 || Packed(sizes, strides))
    }

    ghost predicate CachedLayout()
      reads this
    {
      CachedShape() && (nonOverlapping <==> !isView || numel == 0 || Separated(AxesOf(sizes, strides)))
    }

    /** The caches describe the layout. */
    ghost predicate Cached(simd: Simd)
      reads this
    {
      CachedLayout() && (contiguous && elem.bytes > 0 ==> BodyFits(body, address / elem.bytes, numel, simd))
    }

    /** `to_strided_ref`. */
    function ToStridedRef(): StridedRef
      reads this
    {
      StridedRef(elem, address, device, deviceIndex, sizes, strides, numel, contiguous)
    }

    /** The injectivity loop over axes sorted by stride. Its uint64_t sums do not wrap for layouts whose extent fits. */
    method InjectiveAxes() returns (r: bool)
      requires |sizes| == |strides| && numel == Numel(sizes) > 0
      ensures r <==> Separated(AxesOf(sizes, strides))
    {
      hide AxesOf, Separated, Sorted, StepsOver, AxesExtent, Numel;
      NoSteps([]);
      var axes := new Axis[|sizes|](_ => Axis(0, 0));
      var count := OverlapAxes(ToStridedRef(), axes);
      ghost var sorted := axes[..count];
      WalkMeansSeparated(sorted, sizes, strides);
      var extent := 0;
      for d := 0 to count
        invariant axes[..count] == sorted && extent == AxesExtent(sorted[..d]) && StepsOver(sorted[..d])
      {
        assert axes[d] == sorted[d];
        StepsOverSnoc(sorted, d);
        if axes[d].stride <= 0 || axes[d].stride <= extent {
          return false;
        }
        extent := extent + Times(axes[d].size - 1, axes[d].stride);
        TimesCommutes(axes[d].size - 1, axes[d].stride);
      }
      assert sorted[..count] == sorted;
      return true;
    }

    predicate HasBody(simd: Simd)
      reads this
    {
      simd.length > 0 && |sizes| > 0 && device == CPU && numel > 0 && contiguous
    }

    /**
     * Recomputes every cached field from sizes and strides. In a vectorized build the aligned body is
     * right for element types of which two fit the allocation alignment, as four and eight bytes always do.
     */
    method Recompute(simd: Simd)
      requires |sizes| == |strides| && simd.Valid() && elem.bytes > 0
      modifies this`numel, this`contiguous, this`nonOverlapping, this`body
      ensures CachedLayout() && (simd.length == 0 || 2 * elem.bytes <= simd.allocation ==> Cached(simd))
      ensures simd.align > 0
      ensures if simd.length > 0 && |sizes| > 0 && device == CPU && numel > 0 && contiguous
              then body.first == FirstAligned(address, elem.bytes, numel, simd)
                   && body.last == LastAligned(body.first, numel, simd.length)
              else body == Body(0, 0)
    {
      hide Numel, Packed, AxesOf, Separated, BodyFits, FirstAligned, LastAligned, Divides;
      hide Tensor.Cached, Tensor.CachedLayout, Tensor.CachedShape;
      ValidSimd(simd);
      body := Body(0, 0);
      if |sizes| == 0 {
        EmptyLayout(sizes, strides);
        nonOverlapping, numel, contiguous := true, 1, true;
        CachedIntro(this, simd);
        return;
      }
      var total := CountElements(sizes);
      numel, nonOverlapping := total, true;
      if isView && total != 0 {
        nonOverlapping := InjectiveAxes();
      }
      contiguous := CachedContiguous(sizes, strides, numel);
      if simd.length == 0 || device != CPU || numel == 0 || !contiguous {
        CachedIntro(this, simd);
        return;
      }
      var first := FirstAligned(address, elem.bytes, numel, simd);
      body := Body(first, LastAligned(first, numel, simd.length));
      CachedIntro(this, simd);
    }
  }

  lemma ValidSimd(simd: Simd)
    requires simd.Valid()
    ensures simd.align > 0
  {
  }

  /** Right layout caches and the body the recomputation leaves make right caches. */
  lemma CachedIntro(t: Tensor, simd: Simd)
    requires |t.sizes| == |t.strides| && simd.Valid() && t.elem.bytes > 0
    requires t.numel == Numel(t.sizes) && (t.contiguous <==> t.numel == 0 || Packed(t.sizes, t.strides))
    requires t.nonOverlapping <==> !t.isView || t.numel == 0 || Separated(AxesOf(t.sizes, t.strides))
    requires simd.align > 0
    requires t.HasBody(simd) ==> t.body == AlignedBody(t.address, t.elem.bytes, t.numel, simd)
    requires !t.HasBody(simd) ==> t.body == Body(0, 0)
    ensures t.CachedLayout() && (simd.length == 0 || 2 * t.elem.bytes <= simd.allocation ==> t.Cached(simd))
  {
    hide Numel, Packed, AxesOf, Separated, BodyFits, AlignedBody;
    NoBody(t.address / t.elem.bytes, simd);
    if simd.length > 0 && 2 * t.elem.bytes <= simd.allocation {
      PeeledBody(t.address, t.elem.bytes, t.numel, simd);
    }
  }

  /** The product of the sizes, multiplied up from the outermost. */
  method CountElements(sizes: seq<nat>) returns (total: nat)
    ensures total == Numel(sizes)
  {
    total := 1;
    for i := 0 to |sizes|
      invariant total == Numel(sizes[..i])
    {
      assert sizes[..i + 1][..i] == sizes[..i];
      total := total * sizes[i];
    }
    assert sizes[..|sizes|] == sizes;
  }

  lemma NoBody(data: nat, simd: Simd)
    ensures forall n: nat :: BodyFits(Body(0, 0), data, n, simd)
  {
    if simd.length > 0 {
      MultipleOf(0, simd.length);
    }
  }

  lemma EmptyLayout(sizes: seq<nat>, strides: seq<int>)
    requires |sizes| == |strides| == 0
    ensures Numel(sizes) == 1 && Packed(sizes, strides) && Separated(AxesOf(sizes, strides))
  {
    assert AxesOf(sizes, strides) == [];
  }

  lemma PeeledBody(address: nat, bytes: nat, n: nat, simd: Simd)
    requires bytes > 0 && simd.Valid() && simd.length > 0 && simd.align > 0 && 2 * bytes <= simd.allocation
    ensures BodyFits(AlignedBody(address, bytes, n, simd), address / bytes, n, simd)
  {
    hide FirstAligned, LastAligned;
  }

  /**
   * The flag a view caches is the answer of the overlap classifier's own test. Both loops are proved from
   * nothing but that their axes are sorted, so a sort that breaks ties in another way gives the same answer.
   */
  method FlagAgrees(t: Tensor, simd: Simd) returns (flag: bool, test: bool)
    requires t.Cached(simd) && t.isView
    ensures flag == test == t.nonOverlapping
  {
    flag := t.nonOverlapping;
    test := IsNonOverlapping(t.ToStridedRef());
  }

  // ----- owners -----

  lemma AxesCons(n: nat, s: int, sizes: seq<nat>, strides: seq<int>)
    requires |sizes| == |strides|
    ensures AxesOf([n] + sizes, [s] + strides) == (if n > 1 then [Axis(n, s)] else []) + AxesOf(sizes, strides)
  {
    if |sizes| == 0 {
      assert ([n] + sizes)[..0] == [] && ([s] + strides)[..0] == [];
    } else {
      var k := |sizes| - 1;
      assert ([n] + sizes)[..|sizes|] == [n] + sizes[..k] && ([s] + strides)[..|sizes|] == [s] + strides[..k];
      AxesCons(n, s, sizes[..k], strides[..k]);
    }
  }

  lemma TightGroup(n: nat, m: nat)
    requires m > 0
    ensures Times(m, n - 1) + (m - 1) == n * m - 1
  {
    assert m * (n - 1) == m * n - m;
  }

  lemma StepsGrow(sorted: seq<Axis>, a: Axis)
    requires StepsOver(sorted) && a.size > 1 && a.stride > 0 && a.stride > AxesExtent(sorted)
    ensures StepsOver(sorted + [a])
    ensures AxesExtent(sorted + [a]) == AxesExtent(sorted) + Times(a.stride, a.size - 1)
  {
    assert (sorted + [a])[..|sorted|] == sorted;
  }

  /** What peeling off the outermost dimension of a packed layout leaves. */
  lemma PeelPacked(sizes: seq<nat>, strides: seq<int>)
    requires 0 < |sizes| == |strides| && Positive(sizes) && Packed(sizes, strides)
    ensures sizes[0] > 0 && Positive(sizes[1..]) && Packed(sizes[1..], strides[1..]) && Numel(sizes[1..]) > 0
    ensures Numel(sizes) == sizes[0] * Numel(sizes[1..]) && (sizes[0] == 1 || strides[0] == Numel(sizes[1..]))
    ensures AxesOf(sizes, strides) == (if sizes[0] > 1 then [Axis(sizes[0], strides[0])] else []) + AxesOf(sizes[1..], strides[1..])
  {
    assert [sizes[0]] + sizes[1..] == sizes && [strides[0]] + strides[1..] == strides;
    PackedCons(sizes[0], strides[0], sizes[1..], strides[1..], 1);
    NumelCons(sizes[0], sizes[1..]);
    NumelPositive(sizes[1..]);
    AxesCons(sizes[0], strides[0], sizes[1..], strides[1..]);
    TimesOne(Numel(sizes[1..]));
    hide Times, Numel, AxesOf, PackedFrom;
  }

  /** In C order the axes, from the inside out, step over each other with nothing to spare. */
  lemma {:induction false} PackedSteps(sizes: seq<nat>, strides: seq<int>) returns (sorted: seq<Axis>)
    requires |sizes| == |strides| && Positive(sizes) && Packed(sizes, strides)
    ensures multiset(sorted) == multiset(AxesOf(sizes, strides))
    ensures StepsOver(sorted) && AxesExtent(sorted) == Numel(sizes) - 1
  {
    hide *;
    if |sizes| == 0 {
      sorted := [];
      assert sizes == [] && strides == [];
      EmptyLayout(sizes, strides);
      NoAxes();
      NoSteps([]);
    } else {
      PeelPacked(sizes, strides);
      sorted := PackedSteps(sizes[1..], strides[1..]);
      TightGroup(sizes[0], Numel(sizes[1..]));
      if sizes[0] > 1 {
        var a := Axis(sizes[0], strides[0]);
        StepsGrow(sorted, a);
        sorted := sorted + [a];
      }
    }
  }

  /** A packed layout always passes the injectivity test, so an owner need not run it. */
  lemma OwnerSeparated(sizes: seq<nat>, strides: seq<int>)
    requires |sizes| == |strides| && Positive(sizes) && Packed(sizes, strides)
    ensures Separated(AxesOf(sizes, strides)) && Injective(sizes, strides)
  {
    var sorted := PackedSteps(sizes, strides);
    SortedSeparated(sorted);
    SeparatedPermutation(sorted, AxesOf(sizes, strides));
    SeparatedInjective(sizes, strides);
  }
}
