/** Integer facts shared by the layout proofs, and the C++ integer operators that differ from Dafny's. */
module Arith {

  const INT64_MAX: int := 0x7fff_ffff_ffff_ffff
  const INT64_MIN: int := -0x8000_0000_0000_0000
  const UINT64_LIMIT: int := 0x1_0000_0000_0000_0000

  predicate FitsInt64(x: int) {
    INT64_MIN <= x <= INT64_MAX
  }

  /** C++ integer division: truncates toward zero. */
  function TruncDiv(n: int, d: int): (q: int)
    requires d > 0
  {
    if n >= 0 then n / d else -((-n) / d)
  }

  /** C++ remainder: takes the sign of the dividend. */
  function TruncMod(n: int, d: int): (r: int)
    requires d > 0
  {
    n - TruncDiv(n, d) * d
  }

  /** Multiplication under a name, so that proofs about the shape of a sum can hide what a product is. */
  function Times(a: int, b: int): int {
    a * b
  }

  /** What two's complement arithmetic makes of a result. */
  function Wrapped(x: int): int {
    (x + 0x8000_0000_0000_0000) % UINT64_LIMIT - 0x8000_0000_0000_0000
  }

  lemma TimesMono(s: int, x: int, y: int)
    requires 0 <= s && x <= y
    ensures Times(s, x) <= Times(s, y)
  {
  }

  lemma TimesOne(u: int)
    ensures Times(u, 1) == u && Times(1, u) == u
  {
  }

  lemma TimesCommutes(a: int, b: int)
    ensures Times(a, b) == Times(b, a) && a * b == b * a
  {
  }

  lemma TimesNonNegative(s: int, x: int)
    requires 0 <= s && 0 <= x
    ensures 0 <= Times(s, x)
  {
  }

  lemma TimesAdd(s: int, x: int, y: int)
    ensures Times(s, x + y) == Times(s, x) + Times(s, y)
    ensures Times(s, x - y) == Times(s, x) - Times(s, y)
    ensures Times(s, -x) == -Times(s, x)
    ensures Times(s, 0) == 0 && Times(s, 1) == s
  {
  }

  lemma MulMono(a: int, b: int, k: int)
    requires a <= b && 0 <= k
    ensures a * k <= b * k
  {
  }

  /** Quotient and remainder are determined by the equation they satisfy. */
  lemma DivModUnique(x: int, q: int, r: int, d: int)
    requires d > 0 && 0 <= r < d && x == q * d + r
    ensures x / d == q && x % d == r
  {
    var q', r' := x / d, x % d;
    assert x == q' * d + r' && (q - q') * d == r' - r;
    if q < q' {
      MulMono(1, q' - q, d);
    } else if q' < q {
      MulMono(1, q - q', d);
    }
  }

  lemma DivBound(x: int, a: int, d: int)
    requires d > 0 && 0 <= x < a * d
    ensures 0 <= x / d < a
  {
    if x / d >= a {
      MulMono(a, x / d, d);
    }
  }

  /** Dividing by a product is dividing twice. */
  lemma DivModProduct(x: int, m: int, d: int)
    requires m > 0 && d > 0
    ensures m * d > 0
    ensures x / (m * d) == (x / d) / m
    ensures (x % (m * d)) / d == (x / d) % m
    ensures (x % (m * d)) % d == x % d
  {
    MulMono(1, m, d);
    var q, r := x / d, x % d;
    var p, s := q / m, q % m;
    assert q == p * m + s;
    MulMono(s, m - 1, d);
    assert 0 <= s * d by { MulMono(0, s, d); }
    calc {
      x;
      q * d + r;
      (p * m + s) * d + r;
      p * (m * d) + (s * d + r);
    }
    DivModUnique(x, p, s * d + r, m * d);
    DivModUnique(s * d + r, s, r, d);
  }

  predicate Divides(g: int, x: int) {
    g > 0 && x % g == 0
  }

  lemma DividesCombination(g: int, x: int, y: int, k: int)
    requires Divides(g, x) && Divides(g, y)
    ensures Divides(g, x + Times(k, y)) && Divides(g, x - Times(k, y))
  {
    var p, q := x / g, y / g;
    assert x == p * g && y == q * g;
    assert k * (q * g) == (k * q) * g;
    DivModUnique(x + k * y, p + k * q, 0, g) by { assert (p + k * q) * g == p * g + (k * q) * g; }
    DivModUnique(x - k * y, p - k * q, 0, g) by { assert (p - k * q) * g == p * g - (k * q) * g; }
  }
}
