/** The filter kernels of av/sample_window.go, over the reals. */
module Kernels {

  function Abs(d: real): real {
    if d < 0.0 then -d else d
  }

  function Tent(x: real): real {
    var d := Abs(x);
    if d >= 1.0 then 0.0 else 1.0 - d
  }

  /** Catmull-Rom. */
  function Cubic(x: real): real {
    var d := Abs(x);
    if d < 1.0 then ((1.5 * d - 2.5) * d) * d + 1.0
    else if d < 2.0 then (((-0.5 * d + 2.5) * d - 4.0) * d) + 2.0
    else 0.0
  }

  /** The uniform cubic B-spline. */
  function Bspline(x: real): real {
    var d := Abs(x);
    if d < 1.0 then
      var d2 := d * d;
      (3.0 * d2 * d - 6.0 * d2 + 4.0) / 6.0
    else if d < 2.0 then
      var t := 2.0 - d;
      (t * t * t) / 6.0
    else 0.0
  }

  type Kernel = real -> real

  /** The kernel is zero at distances of its support and beyond. This is all that filtering relies on. */
  ghost predicate Vanishes(kernel: Kernel, support: real) {
    support > 0.0 && forall d: real :: Abs(d) >= support ==> kernel(d) == 0.0
  }

  lemma TentVanishes()
    ensures Vanishes(Tent, 1.0)
  {
  }

  lemma CubicVanishes()
    ensures Vanishes(Cubic, 2.0)
  {
  }

  lemma BsplineVanishes()
    ensures Vanishes(Bspline, 2.0)
  {
  }

  /** The distance of k pixels. */
  function Pixels(k: int): real {
    k as real
  }

  /** An interpolating kernel is one at zero and zero at every other integer. */
  ghost predicate Interpolates(kernel: Kernel) {
    kernel(0.0) == 1.0 && forall k: int :: k != 0 ==> kernel(Pixels(k)) == 0.0
  }

  lemma TentInterpolates()
    ensures Interpolates(Tent)
  {
  }

  lemma CubicInterpolates()
    ensures Interpolates(Cubic)
  {
    forall k: int | k != 0
      ensures Cubic(Pixels(k)) == 0.0
    {
      assert k == 1 || k == -1 || Abs(k as real) >= 2.0;
    }
  }

  /** The B-spline is not interpolating: an integer coordinate mixes in a sixth of each neighbour. */
  lemma BsplineBlurs()
    ensures Bspline(0.0) == 4.0 / 6.0 && Bspline(1.0) == 1.0 / 6.0 && Bspline(-1.0) == 1.0 / 6.0
    ensures !Interpolates(Bspline)
  {
    assert Bspline(Pixels(1)) == 1.0 / 6.0;
  }

  // ----- What the kernels reproduce

  /** What four samples at -1, 0, 1 and 2 weigh together at x, each taken v times. */
  function Weighed(kernel: Kernel, x: real, v: (real, real, real, real)): real {
    v.0 * kernel(x + 1.0) + v.1 * kernel(x) + v.2 * kernel(x - 1.0) + v.3 * kernel(x - 2.0)
  }

  /** The tent reproduces constants and ramps: it interpolates linearly. */
  lemma TentReproduces(x: real)
    requires 0.0 <= x <= 1.0
    ensures Weighed(Tent, x, (1.0, 1.0, 1.0, 1.0)) == 1.0
    ensures Weighed(Tent, x, (-1.0, 0.0, 1.0, 2.0)) == x
  {
  }

  lemma Cubed(d: real, x: real, c: real, e: real)
    requires d == c + e * x
    ensures d * d == c * c + 2.0 * c * e * x + e * e * (x * x)
    ensures d * d * d == c * c * c + 3.0 * c * c * e * x + 3.0 * c * e * e * (x * x) + e * e * e * (x * x * x)
  {
  }

  lemma CubicInner(d: real)
    requires 0.0 <= d <= 1.0
    ensures Cubic(d) == Cubic(-d) == 1.5 * (d * d * d) - 2.5 * (d * d) + 1.0
  {
    assert ((1.5 * d - 2.5) * d) * d == 1.5 * (d * d * d) - 2.5 * (d * d);
  }

  lemma CubicOuter(d: real)
    requires 1.0 <= d <= 2.0
    ensures Cubic(d) == Cubic(-d) == -0.5 * (d * d * d) + 2.5 * (d * d) - 4.0 * d + 2.0
  {
    assert ((-0.5 * d + 2.5) * d - 4.0) * d == -0.5 * (d * d * d) + 2.5 * (d * d) - 4.0 * d;
  }

  /** Catmull-Rom reproduces constants, ramps and parabolas. */
  lemma CubicReproduces(x: real)
    requires 0.0 <= x <= 1.0
    ensures Weighed(Cubic, x, (1.0, 1.0, 1.0, 1.0)) == 1.0
    ensures Weighed(Cubic, x, (-1.0, 0.0, 1.0, 2.0)) == x
    ensures Weighed(Cubic, x, (1.0, 0.0, 1.0, 4.0)) == x * x
  {
    hide Cubic;
    CubicOuter(x + 1.0);
    CubicInner(x);
    CubicInner(1.0 - x);
    CubicOuter(2.0 - x);
    Cubed(x + 1.0, x, 1.0, 1.0);
    Cubed(1.0 - x, x, 1.0, -1.0);
    Cubed(2.0 - x, x, 2.0, -1.0);
    assert -(1.0 - x) == x - 1.0 && -(2.0 - x) == x - 2.0;
  }

  lemma BsplineInner(d: real)
    requires 0.0 <= d <= 1.0
    ensures 6.0 * Bspline(d) == 6.0 * Bspline(-d) == 3.0 * (d * d * d) - 6.0 * (d * d) + 4.0
  {
    assert 3.0 * (d * d) * d == 3.0 * (d * d * d);
  }

  lemma BsplineOuter(d: real, t: real)
    requires 1.0 <= d <= 2.0 && t == 2.0 - d
    ensures 6.0 * Bspline(d) == 6.0 * Bspline(-d) == t * t * t
  {
  }

  /** The B-spline reproduces constants and ramps, and raises a parabola by a third. */
  lemma BsplineReproduces(x: real)
    requires 0.0 <= x <= 1.0
    ensures Weighed(Bspline, x, (1.0, 1.0, 1.0, 1.0)) == 1.0
    ensures Weighed(Bspline, x, (-1.0, 0.0, 1.0, 2.0)) == x
    ensures Weighed(Bspline, x, (1.0, 0.0, 1.0, 4.0)) == x * x + 1.0 / 3.0
  {
    hide Bspline;
    BsplineOuter(x + 1.0, 1.0 - x);
    BsplineInner(x);
    BsplineInner(1.0 - x);
    BsplineOuter(2.0 - x, x);
    Cubed(1.0 - x, x, 1.0, -1.0);
    assert -(1.0 - x) == x - 1.0 && -(2.0 - x) == x - 2.0;
  }

  lemma PositiveProduct(a: real, b: real, p: real)
    requires a > 0.0 && b > 0.0 && p == a * b
    ensures p > 0.0
  {
  }

  lemma ShrinkingPowers(t: real, square: real, cube: real)
    requires 0.0 < t < 1.0 && square == t * t && cube == square * t
    ensures 0.0 < cube < square
  {
    PositiveProduct(t, t, square);
    PositiveProduct(square, t, cube);
    PositiveProduct(square, 1.0 - t, square - cube);
  }

  /** Up to a distance of two neither of them vanishes: Catmull-Rom is negative there, the B-spline positive. */
  lemma OuterNonzero(d: real)
    requires 1.0 < d < 2.0
    ensures Cubic(d) < 0.0 < Bspline(d)
  {
    hide Cubic, Bspline;
    var t := 2.0 - d;
    CubicOuter(d);
    BsplineOuter(d, t);
    Cubed(d, t, 2.0, -1.0);
    ShrinkingPowers(t, t * t, t * t * t);
  }

  // ----- Stretching

  /** mm_scaled_kern: a downscale by f stretches the kernel by f. */
  function Scaled(kernel: Kernel, d: real, f: real): real {
    if f > 1.0 then kernel(d / f) else kernel(d)
  }

  /** The stretched kernel vanishes beyond the stretched support. */
  lemma ScaledVanishes(kernel: Kernel, support: real, f: real, d: real)
    requires Vanishes(kernel, support) && f >= 1.0 && Abs(d) >= support * f
    ensures Scaled(kernel, d, f) == 0.0
  {
    if f > 1.0 {
      Divided(d, support, f);
    }
  }

  lemma Divided(d: real, support: real, f: real)
    requires f > 1.0 && Abs(d) >= support * f
    ensures Abs(d / f) >= support
  {
    var q := d / f;
    assert q * f == d;
    if d >= 0.0 {
      RealCancel(support, q, f);
    } else {
      assert (-q) * f == -d;
      RealCancel(support, -q, f);
    }
  }

  /** A sample f times as far away weighs as much at a stretch of f; and no kernel is ever narrowed. */
  lemma Stretches(kernel: Kernel, x: real, f: real)
    requires f > 0.0
    ensures f >= 1.0 ==> Scaled(kernel, f * x, f) == kernel(x)
    ensures f <= 1.0 ==> Scaled(kernel, x, f) == kernel(x)
  {
    var q := (f * x) / f;
    assert q * f == x * f;
    RealCancel(q, x, f);
    RealCancel(x, q, f);
  }

  lemma RealOrder(a: real, b: real, f: real)
    requires f > 0.0
    ensures f * a < f * b <==> a < b
    ensures f * -a == -(f * a)
  {
    assert f * (b - a) == f * b - f * a;
    assert a < b ==> f * (b - a) > 0.0;
    assert a >= b ==> f * (a - b) >= 0.0;
  }

  lemma RealCancel(a: real, b: real, f: real)
    requires f > 0.0 && a * f <= b * f
    ensures a <= b
  {
    assert a > b ==> (a - b) * f > 0.0;
  }
}
