/** Peeling a range into whole vector steps: divisibility facts under a name the loops need not open. */
module Peels {
  import opened Arith

  lemma MultipleOf(q: int, m: nat)
    requires m > 0
    ensures Divides(m, q * m)
  {
    DivModUnique(q * m, q, 0, m);
  }

  lemma MultipleSum(x: int, y: int, m: nat)
    requires Divides(m, x) && Divides(m, y)
    ensures Divides(m, x + y) && Divides(m, x - y)
  {
    DividesCombination(m, x, y, 1);
    TimesOne(y);
  }

  lemma MultipleStep(x: nat, m: nat)
    requires Divides(m, x) && x > 0
    ensures x >= m && Divides(m, x - m)
  {
    var q := x / m;
    assert x == q * m;
    MulMono(1, q, m);
    MultipleOf(1, m);
    MultipleSum(x, m, m);
  }

  lemma PositiveFactors(a: nat, b: nat)
    requires a * b > 0
    ensures a > 0 && b > 0
  {
  }

  /** A multiple of a whole unrolled block is a multiple of one register. */
  lemma BlockMultiple(x: int, length: nat, packet: nat)
    requires Divides(length * packet, x)
    ensures length > 0 && packet > 0 && Divides(length, x)
  {
    var q := x / (length * packet);
    PositiveFactors(length, packet);
    assert x == q * (length * packet);
    assert q * (length * packet) == (q * packet) * length;
    MultipleOf(q * packet, length);
  }

  /** The part of `n` that whole steps of `m` cover. */
  function Peel(n: nat, m: nat): (p: nat)
    requires m > 0
    ensures p <= n && Divides(m, p) && n - p < m
  {
    assert n == n / m * m + n % m;
    MulMono(0, n / m, m);
    MultipleOf(n / m, m);
    n / m * m
  }

  /** Whole steps already taken never pass the peel, and whole steps remain up to it. */
  lemma PeelAfter(n: nat, m: nat, x: nat)
    requires Divides(m, x) && x <= n
    ensures x <= Peel(n, m) && Divides(m, Peel(n, m) - x)
  {
    var p := Peel(n, m);
    MultipleSum(p, x, m);
    if x > p {
      MultipleSum(x, p, m);
      MultipleStep(x - p, m);
    }
  }

  lemma NoneBetween(q: nat, m: nat, a: nat)
    requires q * m < a < q * m + m
    ensures !Divides(m, a)
  {
    DivModUnique(a, q, a - q * m, m);
  }

  /** The multiples of `align` around `e`, and none between them. */
  lemma Neighbours(e: nat, align: nat)
    requires align > 0
    ensures var r := e % align;
            && r < align && Divides(align, e - r) && Divides(align, e - r + align)
            && forall a :: e - r < a < e - r + align ==> !Divides(align, a)
  {
    var q, r := e / align, e % align;
    assert e - r == q * align;
    assert (q + 1) * align == q * align + align;
    MultipleOf(q, align);
    MultipleOf(q + 1, align);
    hide Divides;
    forall a | q * align < a < q * align + align ensures !Divides(align, a) {
      NoneBetween(q, align, a);
    }
  }

  /** Distance from `e` to the next multiple of `align`. */
  function Ahead(e: nat, align: nat): (first: nat)
    requires align > 0
    ensures Divides(align, e + first) && first < align
    ensures forall a :: e <= a < e + first ==> !Divides(align, a)
  {
    Neighbours(e, align);
    if e % align == 0 then 0 else align - e % align
  }

  lemma MaskedDistance(e: nat, align: nat)
    requires align > 0
    ensures (align - e % align) % align == Ahead(e, align)
  {
    var r := e % align;
    if r == 0 {
      DivModUnique(align, 1, 0, align);
    } else {
      DivModUnique(align - r, 0, align - r, align);
    }
  }
}
