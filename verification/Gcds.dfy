/** `std::gcd`, and what it says about the offsets of a layout. */
module Gcds {
  import opened Arith
  import opened Axes
  import opened Lattice

  function Gcd(a: nat, b: nat): nat
    decreases b
  {
    if b == 0 then a else Gcd(b, a % b)
  }

  /** `Gcd` is a common divisor that every common divisor divides. */
  lemma {:induction false} GcdIsGreatest(a: nat, b: nat, g: int)
    requires a > 0 || b > 0
    ensures Divides(Gcd(a, b), a) && Divides(Gcd(a, b), b)
    ensures Divides(g, a) && Divides(g, b) ==> Divides(g, Gcd(a, b))
    decreases b
  {
    if b == 0 {
      DivModUnique(a, 1, 0, a);
    } else {
      GcdIsGreatest(b, a % b, g);
      var q := a / b;
      assert a == a % b + Times(q, b) && a % b == a - Times(q, b);
      DividesCombination(Gcd(a, b), a % b, b, q);
      if Divides(g, a) && Divides(g, b) {
        DividesCombination(g, a, b, q);
      }
    }
  }

  /** `g` divides every stride. */
  predicate DividesAxes(g: int, axes: seq<Axis>) {
    forall i :: 0 <= i < |axes| ==> Divides(g, axes[i].stride)
  }

  lemma {:induction false} DividesOffsets(g: int, axes: seq<Axis>, c: seq<int>)
    requires g > 0 && DividesAxes(g, axes) && |c| == |axes|
    ensures Divides(g, AxisDot(axes, c))
  {
    if |c| > 0 {
      var k := |c| - 1;
      hide Times, Divides;
      assert Divides(g, axes[k].stride);
      DividesOffsets(g, axes[..k], c[..k]);
      TimesCommutes(c[k], axes[k].stride);
      DividesCombination(g, AxisDot(axes[..k], c[..k]), axes[k].stride, c[k]);
    } else {
      DivModUnique(0, 0, 0, g);
    }
  }

  lemma DividesAxesPermutation(g: int, xs: seq<Axis>, ys: seq<Axis>)
    requires multiset(xs) == multiset(ys)
    ensures DividesAxes(g, xs) <==> DividesAxes(g, ys)
  {
    assert forall a :: a in xs <==> a in multiset(ys);
    assert forall a :: a in ys <==> a in multiset(xs);
    assert DividesAxes(g, xs) <==> forall a :: a in xs ==> Divides(g, a.stride);
    assert DividesAxes(g, ys) <==> forall a :: a in ys ==> Divides(g, a.stride);
  }
}
