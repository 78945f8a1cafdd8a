/** The descriptor an expression stores for a tensor leaf (`strided_ref`), and the bytes it may touch. */
module StridedRefs {
  import opened Arith
  import opened Layout

  datatype Device = CPU | CUDA | HIP | METAL

  /** An element type: its identity and its size in bytes. */
  datatype Elem = Elem(id: nat, bytes: nat)

  datatype StridedRef = StridedRef(
    elem: Elem,
    address: nat,
    device: Device,
    deviceIndex: int,
    sizes: seq<nat>,
    strides: seq<int>,
    numel: nat,
    contiguous: bool)
  {
    /**
     * What the view constructors check before a descriptor can exist (tensor.h, `check_view_geometry`):
     * no negative stride, an extent that fits int64_t, and storage that holds the extent, hence does
     * not wrap around the address space.
     */
    ghost predicate Valid() {
      && |sizes| == |strides|
      && numel == Numel(sizes)
      && elem.bytes >= 1
      && NonNegative(strides)
      && (forall d :: 0 <= d < |sizes| ==> sizes[d] <= INT64_MAX)
      && (numel > 0 ==>
            && Extent(sizes, strides) <= INT64_MAX
            && EndAddress() < UINT64_LIMIT)
    }

    /** One past the last byte of the range the descriptor spans. */
    ghost function EndAddress(): int
      requires |sizes| == |strides|
    {
      address + (Extent(sizes, strides) + 1) * elem.bytes
    }

    ghost function ByteOf(c: seq<int>): int
      requires |c| == |strides|
    {
      address + Dot(strides, c) * elem.bytes
    }

    ghost predicate TouchesByte(x: int)
      requires |sizes| == |strides|
    {
      address != 0 && exists c :: InBox(sizes, c) && ByteOf(c) <= x < ByteOf(c) + elem.bytes
    }
  }

  /** A one-byte operand whose inner stride times its size leaves int64_t. */
  lemma LargeStepOverflows()
    ensures var l := StridedRef(Elem(0, 1), 1, CPU, 0, [2, 2], [1, 0x4000_0000_0000_0000], 4, false);
            l.Valid() && !FitsInt64(Times(l.strides[1], l.sizes[1]))
  {
    NumelPair(2, 2);
    ExtentPair(2, 2, 1, 0x4000_0000_0000_0000);
    hide Numel, Extent;
  }

  ghost predicate SamePlace(a: StridedRef, b: StridedRef) {
    a.device == b.device && a.deviceIndex == b.deviceIndex
  }

  /** The relation the overlap check is about: some byte of memory belongs to both. */
  ghost predicate SharesByte(a: StridedRef, b: StridedRef)
    requires |a.sizes| == |a.strides| && |b.sizes| == |b.strides|
  {
    SamePlace(a, b) && exists x :: a.TouchesByte(x) && b.TouchesByte(x)
  }

  /** Both descriptors map every coordinate to the same address. */
  predicate SameMapping(a: StridedRef, b: StridedRef) {
    a.address == b.address && a.sizes == b.sizes && a.strides == b.strides
  }

  lemma BytesWithinRange(r: StridedRef, c: seq<int>)
    requires r.Valid() && InBox(r.sizes, c)
    ensures r.address <= r.ByteOf(c) && r.ByteOf(c) + r.elem.bytes <= r.EndAddress()
  {
    DotWithinExtent(r.sizes, r.strides, c);
    MulMono(0, Dot(r.strides, c), r.elem.bytes);
    MulMono(Dot(r.strides, c), Extent(r.sizes, r.strides), r.elem.bytes);
  }

  lemma TouchIntro(r: StridedRef, c: seq<int>, x: int)
    requires r.Valid() && r.address != 0 && InBox(r.sizes, c) && r.ByteOf(c) <= x < r.ByteOf(c) + r.elem.bytes
    ensures r.TouchesByte(x)
  {
  }

  /** Ranges that do not meet share no byte. */
  lemma DisjointRanges(a: StridedRef, b: StridedRef)
    requires a.Valid() && b.Valid()
    requires a.EndAddress() <= b.address || b.EndAddress() <= a.address
    ensures !SharesByte(a, b)
  {
    if SharesByte(a, b) {
      var x :| a.TouchesByte(x) && b.TouchesByte(x);
      var c :| InBox(a.sizes, c) && a.ByteOf(c) <= x < a.ByteOf(c) + a.elem.bytes;
      var c' :| InBox(b.sizes, c') && b.ByteOf(c') <= x < b.ByteOf(c') + b.elem.bytes;
      BytesWithinRange(a, c);
      BytesWithinRange(b, c');
    }
  }

  lemma EmptyTouchesNothing(r: StridedRef, x: int)
    requires r.Valid() && (r.numel == 0 || r.address == 0)
    ensures !r.TouchesByte(x)
  {
    if r.TouchesByte(x) {
      var c :| InBox(r.sizes, c) && r.ByteOf(c) <= x < r.ByteOf(c) + r.elem.bytes;
      FlattenInRange(r.sizes, c);
    }
  }

  /** Some element of `a` lies `delta` elements after the start of `b`'s numbering: `i·s = delta + j·t`. */
  ghost predicate SharesOffset(a: StridedRef, b: StridedRef, delta: int)
    requires |a.sizes| == |a.strides| && |b.sizes| == |b.strides|
  {
    exists c, c' :: InBox(a.sizes, c) && InBox(b.sizes, c') && Dot(a.strides, c) == delta + Dot(b.strides, c')
  }

  /** `a` and `b` hold elements of the same width, `delta` elements apart. */
  ghost predicate OnGrid(a: StridedRef, b: StridedRef, delta: int) {
    && a.Valid() && b.Valid() && SamePlace(a, b)
    && a.elem.bytes == b.elem.bytes
    && a.address != 0 && b.address != 0
    && b.address - a.address == delta * a.elem.bytes
  }

  lemma CellsMeet(w: int, base: int, p: int, q: int, x: int)
    requires w > 0
    requires base + p * w <= x < base + p * w + w && base + q * w <= x < base + q * w + w
    ensures p == q
  {
    if p < q { MulMono(p + 1, q, w); }
    if q < p { MulMono(q + 1, p, w); }
  }

  lemma SharedByteGivesOffset(a: StridedRef, b: StridedRef, delta: int, c: seq<int>, c': seq<int>, x: int)
    requires OnGrid(a, b, delta) && InBox(a.sizes, c) && InBox(b.sizes, c')
    requires a.ByteOf(c) <= x < a.ByteOf(c) + a.elem.bytes
    requires b.ByteOf(c') <= x < b.ByteOf(c') + b.elem.bytes
    ensures Dot(a.strides, c) == delta + Dot(b.strides, c')
  {
    var w, p, q := a.elem.bytes, Dot(a.strides, c), Dot(b.strides, c');
    assert b.ByteOf(c') == a.address + (delta + q) * w by {
      assert delta * w + q * w == (delta + q) * w;
    }
    CellsMeet(w, a.address, p, delta + q, x);
  }

  lemma SharedOffsetGivesByte(a: StridedRef, b: StridedRef, delta: int, c: seq<int>, c': seq<int>)
    requires OnGrid(a, b, delta) && InBox(a.sizes, c) && InBox(b.sizes, c')
    requires Dot(a.strides, c) == delta + Dot(b.strides, c')
    ensures SharesByte(a, b)
  {
    var x := a.ByteOf(c);
    calc {
      Dot(a.strides, c) * a.elem.bytes;
      (delta + Dot(b.strides, c')) * a.elem.bytes;
      delta * a.elem.bytes + Dot(b.strides, c') * b.elem.bytes;
    }
    TouchIntro(a, c, x);
    TouchIntro(b, c', x);
  }

  /** On a common element grid, sharing a byte and sharing an element are the same. */
  lemma AlignedSharing(a: StridedRef, b: StridedRef, delta: int)
    requires OnGrid(a, b, delta)
    ensures SharesByte(a, b) <==> SharesOffset(a, b, delta)
  {
    if SharesByte(a, b) {
      var x :| a.TouchesByte(x) && b.TouchesByte(x);
      var c :| InBox(a.sizes, c) && a.ByteOf(c) <= x < a.ByteOf(c) + a.elem.bytes;
      var c' :| InBox(b.sizes, c') && b.ByteOf(c') <= x < b.ByteOf(c') + b.elem.bytes;
      SharedByteGivesOffset(a, b, delta, c, c', x);
    }
    if SharesOffset(a, b, delta) {
      var c, c' :| InBox(a.sizes, c) && InBox(b.sizes, c') && Dot(a.strides, c) == delta + Dot(b.strides, c');
      SharedOffsetGivesByte(a, b, delta, c, c');
    }
  }
}
