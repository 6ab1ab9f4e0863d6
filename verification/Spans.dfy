/** mm_max_taps and mm_build_spans of av/sample_window.go: which source samples an output sample reads. */
module Spans {
  import opened Kernels

  /** One direction of the filter: output sample i is centred on origin + (i + 1/2) scale - 1/2. */
  datatype Axis = Axis(origin: real, scale: real, stretch: real, support: real) {
    function Radius(): real {
      support * stretch
    }

    ghost predicate Valid() {
      scale > 0.0 && stretch >= 1.0 && 0.0 < support
    }
  }

  /** The axis along one direction of a plane of n output samples. */
  function AxisOf(origin: real, length: real, sub: int, n: int, support: real): Axis
    requires sub >= 1 && n >= 1
  {
    var scale := length / sub as real / n as real;
    Axis(origin / sub as real, scale, if scale > 1.0 then scale else 1.0, support)
  }

  lemma AxisValid(origin: real, length: real, sub: int, n: int, support: real)
    requires sub >= 1 && n >= 1 && length > 0.0 && support > 0.0
    ensures var a := AxisOf(origin, length, sub, n, support); a.Valid() && a.Radius() >= 0.0
  {
    var part := length / sub as real;
    PositiveQuotient(length, sub as real);
    PositiveQuotient(part, n as real);
    var a := AxisOf(origin, length, sub, n, support);
    assert support * a.stretch >= 0.0;
  }

  lemma PositiveQuotient(x: real, n: real)
    requires x > 0.0 && n > 0.0
    ensures x / n > 0.0
  {
    var q := x / n;
    assert q * n == x;
    assert q <= 0.0 ==> q * n <= 0.0;
  }

  function Centre(a: Axis, i: nat): real {
    a.origin + (i as real + 0.5) * a.scale - 0.5
  }

  /** The weight of source sample k in output sample i. */
  function Weight(kernel: Kernel, a: Axis, i: nat, k: int): real {
    Scaled(kernel, Centre(a, i) - k as real, a.stretch)
  }

  // ----- Where the samples sit, and how far they reach

  /** The parts of an axis, without quotients. */
  lemma AxisParts(origin: real, length: real, sub: int, n: int, support: real)
    requires sub >= 1 && n >= 1
    ensures var a := AxisOf(origin, length, sub, n, support);
            a.origin * sub as real == origin && a.scale * n as real * sub as real == length
            && (a.stretch == a.scale >= 1.0 || a.stretch == 1.0 >= a.scale)
  {
    var part := length / sub as real;
    var scale := part / n as real;
    assert part * sub as real == length && scale * n as real == part;
    assert (origin / sub as real) * sub as real == origin;
  }

  lemma AxisSupport(origin: real, length: real, sub: int, n: int, support: real)
    requires sub >= 1 && n >= 1
    ensures AxisOf(origin, length, sub, n, support).support == support
  {
  }

  /** Output samples are spread evenly over the window, and evenly about its middle. */
  lemma CentresSpread(origin: real, length: real, sub: int, n: int, support: real, i: nat)
    requires sub >= 1 && i < n
    ensures var a := AxisOf(origin, length, sub, n, support);
            && Centre(a, i + 1) - Centre(a, i) == a.scale && a.scale * n as real * sub as real == length
            && (Centre(a, i) + Centre(a, n - 1 - i) + 1.0) * sub as real == 2.0 * origin + length
  {
    AxisParts(origin, length, sub, n, support);
    var a := AxisOf(origin, length, sub, n, support);
    var s, m := sub as real, n as real;
    assert (n - 1 - i) as real == m - 1.0 - i as real;
    assert Centre(a, i) + Centre(a, n - 1 - i) + 1.0 == 2.0 * a.origin + m * a.scale;
    assert (2.0 * a.origin + m * a.scale) * s == 2.0 * (a.origin * s) + a.scale * m * s;
    assert (i as real + 1.5) * a.scale == (i as real + 0.5) * a.scale + a.scale;
  }

  lemma PlaneCentre(origin: real, length: real, sub: int, n: int, support: real, i: nat)
    requires sub >= 1 && n >= 1
    ensures var a := AxisOf(origin, length, sub, n, support);
            (Centre(a, i) + 0.5) * sub as real * n as real == origin * n as real + (i as real + 0.5) * length
  {
    AxisParts(origin, length, sub, n, support);
    var a := AxisOf(origin, length, sub, n, support);
    var s, m, x := sub as real, n as real, i as real + 0.5;
    assert (a.origin + x * a.scale) * s * m == (a.origin * s) * m + x * (a.scale * m * s);
  }

  lemma Siting(c: real, a: real, b: real, sub: int, n: int, i: nat, o: real, len: real)
    requires sub >= 1 && n >= 1
    requires c * sub as real * n as real == o * n as real + (i as real + 0.5) * len
    requires a * 1 as real * (n * sub) as real == o * (n * sub) as real + ((sub * i) as real + 0.5) * len
    requires b * 1 as real * (n * sub) as real == o * (n * sub) as real + ((sub * i + sub - 1) as real + 0.5) * len
    ensures c * sub as real == (a + b) / 2.0
  {
    var s, m, x := sub as real, n as real, i as real;
    assert (n * sub) as real == m * s && (sub * i) as real == s * x && (sub * i + sub - 1) as real == s * x + s - 1.0;
    assert (a + b) * (m * s) == 2.0 * (o * (m * s)) + (2.0 * (s * x) + s) * len;
    assert (2.0 * (s * x) + s) * len == 2.0 * (s * ((x + 0.5) * len));
    assert s * (c * s * m) == (c * s) * (m * s);
    assert s * (o * m) == o * (m * s);
    var g := 2.0 * (c * s) - (a + b);
    assert g * (m * s) == 0.0;
    assert m * s > 0.0;
  }

  /** A plane sample sits in the middle of the luma samples it covers. */
  lemma PlaneSiting(origin: real, length: real, sub: int, n: int, support: real, i: nat)
    requires sub >= 1 && n >= 1
    ensures var luma, plane := AxisOf(origin, length, 1, n * sub, support), AxisOf(origin, length, sub, n, support);
            var first, last: nat := sub * i, sub * i + sub - 1;
            (Centre(plane, i) + 0.5) * sub as real == (Centre(luma, first) + Centre(luma, last) + 1.0) / 2.0
  {
    hide AxisOf, Centre;
    var luma, plane := AxisOf(origin, length, 1, n * sub, support), AxisOf(origin, length, sub, n, support);
    var first, last: nat := sub * i, sub * i + sub - 1;
    PlaneCentre(origin, length, sub, n, support, i);
    PlaneCentre(origin, length, 1, n * sub, support, first);
    PlaneCentre(origin, length, 1, n * sub, support, last);
    Siting(Centre(plane, i) + 0.5, Centre(luma, first) + 0.5, Centre(luma, last) + 0.5, sub, n, i, origin, length);
  }

  lemma UnitDistance(x: real, f: real, d: real)
    requires f >= 1.0 && d == f * x
    ensures Abs(x) < 1.0 <==> Abs(d) < f
  {
    if x >= 0.0 {
      RealOrder(x, 1.0, f);
    } else {
      RealOrder(-x, 1.0, f);
    }
  }

  /** The tent reaches exactly as far as its stretched support: the footprint covers the source under the pixel. */
  lemma Footprint(a: Axis, i: nat, k: int)
    requires a.Valid() && a.support == 1.0
    ensures Weight(Tent, a, i, k) > 0.0 <==> Abs(Centre(a, i) - k as real) < a.stretch
  {
    hide Centre;
    var d := Centre(a, i) - k as real;
    var x := d / a.stretch;
    assert a.stretch * x == d;
    Stretches(Tent, x, a.stretch);
    UnitDistance(x, a.stretch, d);
  }

  lemma UnderWindow(d: real, q: real, scale: real, s: real, n: real, x: real, length: real)
    requires s > 0.0 && n > 0.0 && scale > 0.0 && q * scale == d && d * s == x && 0.0 <= x < length
    requires scale * n * s == length
    ensures 0.0 <= q < n
  {
    var f := scale * s;
    assert f > 0.0;
    assert f * q == (q * scale) * s;
    assert f * n == scale * n * s;
    RealOrder(q, n, f);
    RealOrder(q, 0.0, f);
  }

  lemma HalfStep(x: real, scale: real)
    requires -0.5 <= x <= 0.5 && scale > 0.0
    ensures Abs(x * scale) < scale
  {
    assert x * scale == scale * x && scale * 1.0 == scale && scale * -1.0 == -scale;
    RealOrder(x, 1.0, scale);
    RealOrder(-1.0, x, scale);
  }

  lemma Under(a: Axis, s: real, n: real, origin: real, length: real, k: int) returns (i: nat)
    requires s > 0.0 && n > 0.0 && a.Valid() && a.scale * n * s == length && a.origin * s == origin
    requires origin <= (k as real + 0.5) * s < origin + length
    ensures i as real < n && Abs(Centre(a, i) - k as real) < a.scale
  {
    var x := k as real + 0.5;
    var d := x - a.origin;
    var q := d / a.scale;
    assert q * a.scale == d;
    assert d * s == x * s - a.origin * s;
    UnderWindow(d, q, a.scale, s, n, x * s - origin, length);
    i := q.Floor;
    var off := i as real + 0.5 - q;
    assert off * a.scale == (i as real + 0.5) * a.scale - q * a.scale;
    HalfStep(off, a.scale);
  }

  /** Under the window no source sample is left out by the bilinear kernel, however much it shrinks. */
  lemma NothingSkipped(origin: real, length: real, sub: int, n: int, k: int) returns (i: nat)
    requires sub >= 1 && n >= 1 && length > 0.0
    requires origin <= (k as real + 0.5) * sub as real < origin + length
    ensures i < n && Weight(Tent, AxisOf(origin, length, sub, n, 1.0), i, k) > 0.0
  {
    hide AxisOf, Axis.Radius, Weight;
    AxisParts(origin, length, sub, n, 1.0);
    AxisValid(origin, length, sub, n, 1.0);
    AxisSupport(origin, length, sub, n, 1.0);
    var a := AxisOf(origin, length, sub, n, 1.0);
    i := Under(a, sub as real, n as real, origin, length, k);
    Footprint(a, i, k);
  }

  // ----- Taps

  function Ceil(r: real): int {
    -((-r).Floor)
  }

  lemma FloorCeil(r: real)
    ensures r - 1.0 < r.Floor as real <= r
    ensures r <= Ceil(r) as real < r + 1.0
  {
  }

  const FAR := 1000000000.0

  datatype Span = Span(k0: int, n: nat, norm: real, skip: bool)

  /** Taps from the first sample that can have weight to the last. */
  function FirstTap(a: Axis, i: nat): int {
    (Centre(a, i) - a.Radius()).Floor
  }

  function TapCount(a: Axis, i: nat): int {
    Ceil(Centre(a, i) + a.Radius()) - FirstTap(a, i) + 1
  }

  /** mm_max_taps; -1 when the radius is absurd. */
  function MaxTaps(rad: real): int {
    if rad < 0.0 then -1
    else
      var t := (2.0 * rad).Floor + 3;
      if t < 1 || t > 1000000 then -1 else t
  }

  /** No span ever needs more taps than there is room for. */
  lemma TapsFit(a: Axis, i: nat)
    requires a.Radius() >= 0.0
    ensures 1 <= TapCount(a, i) <= (2.0 * a.Radius()).Floor + 3
  {
    var s, rad := Centre(a, i), a.Radius();
    FloorCeil(s - rad);
    FloorCeil(s + rad);
    FloorCeil(2.0 * rad);
  }

  /** A sample outside the span has no weight. */
  lemma OutsideSpan(kernel: Kernel, a: Axis, i: nat, k: int)
    requires a.Valid() && Vanishes(kernel, a.support)
    requires k < FirstTap(a, i) || k >= FirstTap(a, i) + TapCount(a, i)
    ensures Weight(kernel, a, i, k) == 0.0
  {
    hide Centre, Scaled, Vanishes;
    OutOfReach(Centre(a, i), a.Radius(), k);
    ScaledVanishes(kernel, a.support, a.stretch, Centre(a, i) - k as real);
  }

  lemma OutOfReach(s: real, rad: real, k: int)
    requires k < (s - rad).Floor || k > Ceil(s + rad)
    ensures Abs(s - k as real) >= rad
  {
    FloorCeil(s - rad);
    FloorCeil(s + rad);
  }

  /** The sum of n weights from k0 on. */
  ghost function WeightSum(kernel: Kernel, a: Axis, i: nat, k0: int, n: nat): real {
    if n == 0 then 0.0 else WeightSum(kernel, a, i, k0, n - 1) + Weight(kernel, a, i, k0 + n - 1)
  }

  predicate Far(a: Axis, i: nat) {
    Centre(a, i) < -FAR || Centre(a, i) > FAR
  }

  ghost function SpanOf(kernel: Kernel, a: Axis, i: nat): Span
    requires a.Radius() >= 0.0
  {
    if Far(a, i) then Span(0, 0, 0.0, true)
    else
      TapsFit(a, i);
      Span(FirstTap(a, i), TapCount(a, i), WeightSum(kernel, a, i, FirstTap(a, i), TapCount(a, i)), false)
  }

  /** The spans and the table of weights, row i of which holds the taps of output sample i. */
  ghost predicate Built(span: seq<Span>, weights: array2<real>, nout: nat, kernel: Kernel, a: Axis)
    requires a.Radius() >= 0.0 && nout <= |span| && nout <= weights.Length0
    reads weights
  {
    forall i :: 0 <= i < nout ==> SpanBuilt(span[i], weights, kernel, a, i)
  }

  ghost predicate SpanBuilt(sp: Span, weights: array2<real>, kernel: Kernel, a: Axis, i: nat)
    requires a.Radius() >= 0.0 && i < weights.Length0
    reads weights
  {
    && sp == SpanOf(kernel, a, i) && sp.n <= weights.Length1
    && forall t :: 0 <= t < sp.n ==> weights[i, t] == Weight(kernel, a, i, sp.k0 + t)
  }

  /** The weights of one span and their sum. Zero weights are not added, which changes nothing. */
  method BuildSpan(weights: array2<real>, i: nat, kernel: Kernel, a: Axis) returns (ok: bool, sp: Span)
    requires a.Radius() >= 0.0 && i < weights.Length0 && weights.Length1 == MaxTaps(a.Radius())
    modifies weights
    ensures ok && SpanBuilt(sp, weights, kernel, a, i)
    ensures forall m, t :: 0 <= m < weights.Length0 && m != i && 0 <= t < weights.Length1 ==>
              weights[m, t] == old(weights[m, t])
  {
    hide Weight, Centre;
    sp := Span(0, 0, 0.0, true);
    TapsFit(a, i);
    var s := Centre(a, i);
    if s < -FAR || s > FAR {
      return true, sp;
    }
    var k0 := (s - a.Radius()).Floor;
    var k1 := Ceil(s + a.Radius());
    var n := k1 - k0 + 1;
    if n < 1 || n > weights.Length1 {
      return false, sp;
    }
    var norm := 0.0;
    var t := 0;
    while t < n
      invariant 0 <= t <= n && norm == WeightSum(kernel, a, i, k0, t)
      invariant forall u :: 0 <= u < t ==> weights[i, u] == Weight(kernel, a, i, k0 + u)
      invariant forall m, u :: 0 <= m < weights.Length0 && m != i && 0 <= u < weights.Length1 ==>
                  weights[m, u] == old(weights[m, u])
    {
      var wx := Weight(kernel, a, i, k0 + t);
      weights[i, t] := wx;
      if wx != 0.0 {
        norm := norm + wx;
      }
      t := t + 1;
    }
    return true, Span(k0, n, norm, false);
  }

  /** mm_build_spans. It never fails: max_taps is always enough. */
  method BuildSpans(span: array<Span>, weights: array2<real>, nout: nat, kernel: Kernel, a: Axis) returns (ok: bool)
    requires a.Radius() >= 0.0 && nout <= span.Length && nout <= weights.Length0
    requires weights.Length1 == MaxTaps(a.Radius())
    modifies span, weights
    ensures ok && Built(span[..], weights, nout, kernel, a)
  {
    hide SpanOf;
    var i := 0;
    while i < nout
      invariant 0 <= i <= nout
      invariant forall m :: 0 <= m < i ==> SpanBuilt(span[m], weights, kernel, a, m)
    {
      var sp;
      ok, sp := BuildSpan(weights, i, kernel, a);
      if !ok {
        return;
      }
      span[i] := sp;
      i := i + 1;
    }
    return true;
  }
}
