/** The loops of the separable filter of av/sample_window.go: MM_HORIZ, MM_VERT and mm_filter_separable. */
module Separable {
  import opened Powers
  import opened Kernels
  import opened Coverage
  import opened Spans
  import opened Direct

  // ----- The first pass

  /** One sample of the first pass. Taps without weight are not read. */
  method HorizSample(pic: Picture, kernel: Kernel, ghost ax: Axis, sp: Span, weights: array2<real>, i: nat, y: int)
    returns (v: real)
    requires pic.Valid() && ax.Radius() >= 0.0 && i < weights.Length0 && SpanBuilt(sp, weights, kernel, ax, i)
    ensures v == HorizValue(kernel, ax, i, pic, y)
  {
    hide Weight, SpanOf, Sample, Axis.Radius, Picture.Valid;
    if sp.skip || sp.norm == 0.0 {
      return pic.black as real;
    }
    var acc := 0.0;
    var t := 0;
    while t < sp.n
      invariant 0 <= t <= sp.n && acc == RowSum(kernel, ax, i, pic, y, sp.k0, t)
    {
      var wx := weights[i, t];
      if wx != 0.0 {
        acc := acc + wx * (Sample(pic, sp.k0 + t, y) as real);
      }
      t := t + 1;
    }
    return acc / sp.norm;
  }

  /** Row m of the buffer, which is source row row0 + m, is finished. */
  ghost predicate RowDone(tmp: array2<real>, kernel: Kernel, ax: Axis, pic: Picture, row0: int, m: nat)
    requires pic.Valid() && ax.Radius() >= 0.0 && m < tmp.Length0
    reads tmp
  {
    forall i :: 0 <= i < tmp.Length1 ==> tmp[m, i] == HorizValue(kernel, ax, i, pic, row0 + m)
  }

  method HorizRow(pic: Picture, kernel: Kernel, ghost ax: Axis, span: array<Span>, weights: array2<real>,
                  tmp: array2<real>,
                  row0: int, m: nat)
    requires pic.Valid() && ax.Radius() >= 0.0 && tmp.Length1 <= span.Length && tmp.Length1 <= weights.Length0
    requires Built(span[..], weights, tmp.Length1, kernel, ax) && tmp != weights && m < tmp.Length0
    modifies tmp
    ensures RowDone(tmp, kernel, ax, pic, row0, m)
    ensures forall u, i :: 0 <= u < tmp.Length0 && u != m && 0 <= i < tmp.Length1 ==> tmp[u, i] == old(tmp[u, i])
  {
    hide HorizValue, SpanBuilt, Axis.Radius, Picture.Valid;
    var i := 0;
    while i < tmp.Length1
      invariant 0 <= i <= tmp.Length1 && Built(span[..], weights, tmp.Length1, kernel, ax)
      invariant forall u :: 0 <= u < i ==> tmp[m, u] == HorizValue(kernel, ax, u, pic, row0 + m)
      invariant forall u, v :: 0 <= u < tmp.Length0 && u != m && 0 <= v < tmp.Length1 ==> tmp[u, v] == old(tmp[u, v])
    {
      assert SpanBuilt(span[..][i], weights, kernel, ax, i);
      var v := HorizSample(pic, kernel, ax, span[i], weights, i, row0 + m);
      tmp[m, i] := v;
      i := i + 1;
    }
  }

  /** Of n threads, tid takes every n-th row, starting with row tid. */
  predicate Owns(tid: nat, n: nat, m: nat)
    requires n > 0
  {
    m % n == tid
  }

  lemma FirstOwned(tid: nat, n: nat)
    requires tid < n
    ensures Owns(tid, n, tid) && forall m :: 0 <= m < tid ==> !Owns(tid, n, m)
  {
    forall m | 0 <= m <= tid
      ensures m % n == m
    {
      MultipleMod(n, 0, m);
    }
  }

  lemma NextOwned(tid: nat, n: nat, k: nat)
    requires tid < n && Owns(tid, n, k)
    ensures Owns(tid, n, k + n) && forall m :: k < m < k + n ==> !Owns(tid, n, m)
  {
    var q := k / n;
    assert k == n * q + tid;
    assert n * (q + 1) == n * q + n;
    MultipleMod(n, q + 1, tid);
    forall m | k < m < k + n
      ensures !Owns(tid, n, m)
    {
      if tid + (m - k) < n {
        MultipleMod(n, q, tid + (m - k));
      } else {
        MultipleMod(n, q + 1, tid + (m - k) - n);
      }
    }
  }

  /** Rows of the first pass that a thread has finished, and those it leaves alone. */
  method HorizThread(pic: Picture, kernel: Kernel, ghost ax: Axis, span: array<Span>, weights: array2<real>,
                     tmp: array2<real>,
                     row0: int, tid: nat, nthreads: nat)
    requires pic.Valid() && ax.Radius() >= 0.0 && tmp.Length1 <= span.Length && tmp.Length1 <= weights.Length0
    requires Built(span[..], weights, tmp.Length1, kernel, ax) && tmp != weights && tid < nthreads
    modifies tmp
    ensures forall m :: 0 <= m < tmp.Length0 && Owns(tid, nthreads, m) ==> RowDone(tmp, kernel, ax, pic, row0, m)
    ensures forall m, i :: 0 <= m < tmp.Length0 && !Owns(tid, nthreads, m) && 0 <= i < tmp.Length1 ==>
              tmp[m, i] == old(tmp[m, i])
  {
    hide HorizValue, SpanBuilt, Axis.Radius, Picture.Valid, Owns;
    var m := tid;
    FirstOwned(tid, nthreads);
    while m < tmp.Length0
      invariant Owns(tid, nthreads, m) && Built(span[..], weights, tmp.Length1, kernel, ax)
      invariant forall u :: 0 <= u < tmp.Length0 && u < m && Owns(tid, nthreads, u) ==>
                  RowDone(tmp, kernel, ax, pic, row0, u)
      invariant forall u, i :: 0 <= u < tmp.Length0 && (u >= m || !Owns(tid, nthreads, u)) && 0 <= i < tmp.Length1 ==>
                  tmp[u, i] == old(tmp[u, i])
    {
      NextOwned(tid, nthreads, m);
      HorizRow(pic, kernel, ax, span, weights, tmp, row0, m);
      m := m + nthreads;
    }
  }

  // ----- The second pass

  /** One component plane and how it is to be filtered. */
  datatype Plan = Plan(pic: Picture, win: Window, subX: int, subY: int, kernel: Kernel, ax: Axis, ay: Axis) {
    ghost predicate Valid(): (valid: bool)
      ensures valid ==> subX >= 1 && subY >= 1
    {
      && pic.Valid() && win.Valid() && subX >= 1 && subY >= 1 && ax.Valid() && ay.Valid()
      && ax.Radius() >= 0.0 && ay.Radius() >= 0.0 && Vanishes(kernel, ax.support) && Vanishes(kernel, ay.support)
    }

    function Width(): int
      requires subX >= 1
    {
      PlaneSize(win.dstW, subX)
    }

    function Height(): int
      requires subY >= 1
    {
      PlaneSize(win.dstH, subY)
    }

    /** The axes are those of the window. */
    ghost predicate FromWindow()
      requires subX >= 1 && subY >= 1
    {
      && Width() >= 1 && Height() >= 1
      && ax == AxisOf(win.x, win.w, subX, Width(), ax.support) && ay == AxisOf(win.y, win.h, subY, Height(), ay.support)
    }

    /** Sample (i, j) of the output is written: it covers a pixel inside the source and is not absurdly far away. */
    ghost predicate Written(i: int, j: nat)
      requires Valid()
    {
      !Far(ay, j) && KeepsX(win, subX, i) && KeepsY(win, subY, j)
    }
  }

  const MAX_STRETCH := 4096.0

  // ----- What is kept is near

  /** Half a part of fewer parts is no smaller: t is at least half of one of n parts, and e half of one of d. */
  lemma HalfPart(t: real, n: real, e: real, d: real, h: real)
    requires 0.0 < n <= d && h > 0.0 && t * n >= 0.5 * h && e * d == 0.5 * h
    ensures t >= e
  {
    assert e <= 0.0 ==> e * d <= 0.0;
    NonnegativeProduct(d - n, e);
    assert (d - n) * e == d * e - n * e;
    assert t < e ==> (e - t) * n > 0.0;
    assert (e - t) * n == e * n - t * n;
  }

  /** x of m parts lies between half of one of d parts and all but that. */
  lemma PartWithin(h: real, d: real, m: real, x: real, t: real, first: real, last: real)
    requires 0.0 < m <= d && h > 0.0 && 0.5 <= x <= m - 0.5
    requires t * m == x * h && first * d == 0.5 * h && last * d == (d - 0.5) * h
    ensures first <= t <= last
  {
    NonnegativeProduct(x - 0.5, h);
    assert (x - 0.5) * h == x * h - 0.5 * h;
    HalfPart(t, m, first, d, h);
    NonnegativeProduct(m - 0.5 - x, h);
    assert (m - 0.5 - x) * h == m * h - x * h - 0.5 * h;
    assert (h - t) * m == h * m - t * m;
    assert (h - last) * d == h * d - last * d;
    HalfPart(h - t, m, h - last, d, h);
  }

  /** The centre of output row j, as a coordinate of luma pixels: t is its distance from the top of the window. */
  lemma CentreByLuma(win: Window, sub: int, n: nat, support: real, j: nat) returns (t: real)
    requires win.Valid() && sub >= 1 && n >= 1
    ensures t * n as real == (j as real + 0.5) * win.h
    ensures (Centre(AxisOf(win.y, win.h, sub, n, support), j) + 0.5) * sub as real == win.y + t
  {
    var s, m := sub as real, n as real;
    var part := win.h / s;
    var scale := part / m;
    var g := win.y / s;
    assert part * s == win.h && scale * m == part && g * s == win.y;
    var c := (j as real + 0.5) * scale;
    t := c * s;
    assert t * m == (j as real + 0.5) * (scale * m * s);
    assert (g + c) * s == win.y + t;
  }

  lemma PlaneNotLarger(size: int, sub: int)
    requires size >= 1 && sub >= 1
    ensures 1 <= PlaneSize(size, sub) <= size && size <= PlaneSize(size, sub) * sub <= size + sub - 1
  {
    PlaneNotEmpty(size, sub);
    var x := size + sub - 1;
    var q := x / sub;
    assert x == sub * q + x % sub && sub * q == q * sub;
    MulLe(1, sub, size);
    assert (q - 1) * sub == q * sub - sub;
    MulCancel(q - 1, size, sub);
  }

  /** Dividing a luma coordinate by the subsampling does not take it further away. */
  lemma Nearer(c: real, s: real, lo: real, hi: real)
    requires s >= 1.0 && lo <= 0.0 <= hi && lo * s <= c * s <= hi * s
    ensures lo <= c <= hi
  {
    assert c < lo ==> (lo - c) * s > 0.0;
    assert c > hi ==> (c - hi) * s > 0.0;
  }

  lemma FirstAndLast(win: Window) returns (first: real, last: real)
    requires win.Valid()
    ensures first * win.dstH as real == 0.5 * win.h && last * win.dstH as real == (win.dstH as real - 0.5) * win.h
    ensures CentreAt(win.y, win.h, win.dstH, 0) == win.y + first - 0.5
    ensures CentreAt(win.y, win.h, win.dstH, win.dstH - 1) == win.y + last - 0.5
  {
    first, last := CentreAt(win.y, win.h, win.dstH, 0) - win.y + 0.5,
         CentreAt(win.y, win.h, win.dstH, win.dstH - 1) - win.y + 0.5;
    QuotientBack(0.5 * win.h, win.dstH as real, first);
    QuotientBack(((win.dstH - 1) as real + 0.5) * win.h, win.dstH as real, last);
  }

  lemma QuotientBack(x: real, n: real, q: real)
    requires n > 0.0 && q == x / n
    ensures q * n == x
  {
  }

  /** When the window is covered, no output row is absurdly far away. */
  lemma CoveredIsNear(win: Window, sub: int, support: real, j: nat)
    requires CoversAll(win) && sub >= 1 && j < PlaneSize(win.dstH, sub) && win.srcH as real <= FAR
    ensures !Far(AxisOf(win.y, win.h, sub, PlaneSize(win.dstH, sub), support), j)
  {
    hide PlaneSize, AxisOf, Centre, CentreAt;
    PlaneNotLarger(win.dstH, sub);
    var n := PlaneSize(win.dstH, sub);
    var t := CentreByLuma(win, sub, n, support, j);
    var first, last := FirstAndLast(win);
    PartWithin(win.h, win.dstH as real, n as real, j as real + 0.5, t, first, last);
    LumaNear(Centre(AxisOf(win.y, win.h, sub, n, support), j), sub as real, win.y + t, 0.0, win.srcH as real);
  }

  /** A luma coordinate from lo to hi, on a plane subsampled by s. */
  lemma LumaNear(c: real, s: real, luma: real, lo: real, hi: real)
    requires s >= 1.0 && (c + 0.5) * s == luma && lo <= luma <= hi && lo <= 0.0 <= hi
    ensures lo - 0.5 <= c <= hi - 0.5
  {
    NonnegativeProduct(s - 1.0, hi);
    NonnegativeProduct(s - 1.0, -lo);
    assert (s - 1.0) * hi == hi * s - hi && (s - 1.0) * -lo == lo - lo * s;
    Nearer(c + 0.5, s, lo, hi);
  }

  /** The centre of a plane row and that of a luma row under it are less than two plane rows apart. */
  lemma RowsApart(j: int, l: int, n: int, sub: int, d: int)
    requires 0 <= j && 0 <= l < d && j * sub <= l < j * sub + sub && sub >= 1 && n >= 1 && d <= n * sub <= d + sub - 1
    ensures -3 * d <= (2 * j + 1) * d - (2 * l + 1) * n <= d
  {
    var b := (2 * l + 1) * n;
    RowsBelow(j, l, n, sub, d);
    RowsAbove(j, l, n, sub, d);
    Distribute(2 * j, 1, d);
    Distribute(2 * j, 4, d);
  }

  lemma RowsBelow(j: int, l: int, n: int, sub: int, d: int)
    requires 0 <= j && 0 <= l && j * sub <= l && sub >= 1 && n >= 1 && d <= n * sub
    ensures (2 * l + 1) * n >= (2 * j) * d
  {
    var k, m := j * sub, n * sub;
    MulLe(2 * k + 1, 2 * l + 1, n);
    Distribute(2 * k, 1, n);
    MulLe(d, m, 2 * j);
    assert m * (2 * j) == (2 * k) * n;
    assert d * (2 * j) == (2 * j) * d;
  }

  lemma RowsAbove(j: int, l: int, n: int, sub: int, d: int)
    requires 0 <= j && 0 <= l < d && j * sub <= l < j * sub + sub && sub >= 1 && n >= 1 && d <= n * sub <= d + sub - 1
    ensures (2 * l + 1) * n <= (2 * j + 4) * d
  {
    var c, k := 2 * l + 1, j * sub;
    MulLe(n * sub, d + (sub - 1), c);
    Distribute(d, sub - 1, c);
    MulLe(c, 2 * k + 2 * sub, d);
    Distribute(2 * k, 2 * sub, d);
    MulLe(c, 2 * d, sub - 1);
    Regroup(c, n, k, j, sub, d);
    MulCancel(c * n, (2 * j + 4) * d + 1, sub);
  }

  lemma Distribute(a: int, b: int, c: int)
    ensures (a + b) * c == a * c + b * c
  {
  }

  lemma Regroup(c: int, n: int, k: int, j: int, sub: int, d: int)
    requires k == j * sub
    ensures (n * sub) * c == (c * n) * sub && (sub - 1) * c == c * (sub - 1) && d * c == c * d
    ensures (2 * k) * d == 2 * (k * d) && (2 * sub) * d == 2 * (d * sub) && (2 * d) * (sub - 1) == 2 * (d * sub) - 2 * d
    ensures ((2 * j + 4) * d + 1) * sub == 2 * (k * d) + 4 * (d * sub) + sub
  {
    var jd := j * d;
    assert jd * sub == k * d;
    assert (2 * j + 4) * d == 2 * jd + 4 * d;
    assert (2 * jd + 4 * d + 1) * sub == 2 * (jd * sub) + 4 * (d * sub) + sub;
  }

  lemma Cancel(a: real, d: real)
    requires a * d >= 0.0 && d > 0.0
    ensures a >= 0.0
  {
  }

  /**
   * Two points of the window, t at x of n parts and v at z of d parts, when these are at most one and a half parts
   * apart.
   */
  lemma PointsApart(t: real, v: real, n: real, d: real, s: real, h: real, x: real, z: real)
    requires n > 0.0 && d > 0.0 && h > 0.0 && t * n == x * h && v * d == z * h
    requires -1.5 * d <= x * d - z * n <= 1.5 * d && h <= MAX_STRETCH * (s * n)
    ensures -1.5 * MAX_STRETCH * s <= t - v <= 1.5 * MAX_STRETCH * s
  {
    var w, k := (t - v) * n, x * d - z * n;
    assert w * d == k * h by {
      assert w * d == (t * n) * d - (v * d) * n;
      assert k * h == (x * h) * d - (z * h) * n;
    }
    NonnegativeProduct(1.5 * d - k, h);
    NonnegativeProduct(1.5 * d + k, h);
    assert (1.5 * h - w) * d == (1.5 * d - k) * h;
    assert (1.5 * h + w) * d == (1.5 * d + k) * h;
    Cancel(1.5 * h - w, d);
    Cancel(1.5 * h + w, d);
    assert (1.5 * MAX_STRETCH * s - (t - v)) * n == 1.5 * (MAX_STRETCH * (s * n)) - w;
    assert (1.5 * MAX_STRETCH * s + (t - v)) * n == 1.5 * (MAX_STRETCH * (s * n)) + w;
    Cancel(1.5 * MAX_STRETCH * s - (t - v), n);
    Cancel(1.5 * MAX_STRETCH * s + (t - v), n);
  }

  lemma ModerateWindow(win: Window, sub: int, n: int, support: real)
    requires win.Valid() && sub >= 1 && n >= 1 && AxisOf(win.y, win.h, sub, n, support).stretch < MAX_STRETCH
    ensures win.h <= MAX_STRETCH * (sub as real * n as real)
  {
    var part := win.h / sub as real;
    var scale := part / n as real;
    assert part * sub as real == win.h && scale * n as real == part;
    NonnegativeProduct(MAX_STRETCH - scale, sub as real * n as real);
    assert scale * (sub as real * n as real) == win.h;
  }

  /** Up to this size of the source nothing that is kept is absurdly far away. */
  const MAX_SOURCE := 999993000

  lemma KeptRow(win: Window, sub: int, j: nat) returns (l: nat)
    requires win.Valid() && sub >= 1 && KeepsY(win, sub, j)
    ensures j * sub <= l < j * sub + sub && l < win.dstH && InsideY(win, l)
  {
    hide InsideY;
    MulLe(0, sub, j);
    l :| j * sub <= l < j * sub + sub && l < win.dstH && InsideY(win, l);
  }

  /** A kept row is near: some luma row under it lies in the source, and it is not far from that one. */
  lemma KeptIsNear(win: Window, sub: int, support: real, j: nat)
    requires win.Valid() && sub >= 1 && j < PlaneSize(win.dstH, sub) && win.srcH <= MAX_SOURCE && KeepsY(win, sub, j)
    requires AxisOf(win.y, win.h, sub, PlaneSize(win.dstH, sub), support).stretch < MAX_STRETCH
    ensures !Far(AxisOf(win.y, win.h, sub, PlaneSize(win.dstH, sub), support), j)
  {
    hide PlaneSize, AxisOf, Centre, CentreAt, InsideY, KeepsY;
    PlaneNotLarger(win.dstH, sub);
    var l := KeptRow(win, sub, j);
    HalfRows(j, l, PlaneSize(win.dstH, sub), sub, win.dstH);
    RowNear(win, sub, support, j, l, PlaneSize(win.dstH, sub));
  }

  /** The window with rows and columns exchanged. */
  function Transposed(win: Window): Window {
    Window(win.y, win.x, win.h, win.w, win.dstH, win.dstW, win.srcH, win.srcW)
  }

  lemma TransposedKeeps(win: Window, sub: int, i: int)
    requires win.Valid()
    ensures Transposed(win).Valid() && (KeepsY(Transposed(win), sub, i) <==> KeepsX(win, sub, i))
    ensures CoversAll(Transposed(win)) <==> CoversAll(win)
  {
    hide CentreAt;
    assert forall l :: l < win.dstW ==> (InsideY(Transposed(win), l) <==> InsideX(win, l));
  }

  /** A kept column is near, too. */
  lemma KeptColumnIsNear(win: Window, sub: int, support: real, i: nat)
    requires win.Valid() && sub >= 1 && i < PlaneSize(win.dstW, sub) && win.srcW <= MAX_SOURCE && KeepsX(win, sub, i)
    requires AxisOf(win.x, win.w, sub, PlaneSize(win.dstW, sub), support).stretch < MAX_STRETCH
    ensures !Far(AxisOf(win.x, win.w, sub, PlaneSize(win.dstW, sub), support), i)
  {
    hide PlaneSize, AxisOf, KeepsX, KeepsY, Far, CoversAll;
    TransposedKeeps(win, sub, i);
    KeptIsNear(Transposed(win), sub, support, i);
  }

  /** When the window is covered, no output column is absurdly far away either. */
  lemma CoveredColumnIsNear(win: Window, sub: int, support: real, i: nat)
    requires CoversAll(win) && sub >= 1 && i < PlaneSize(win.dstW, sub) && win.srcW as real <= FAR
    ensures !Far(AxisOf(win.x, win.w, sub, PlaneSize(win.dstW, sub), support), i)
  {
    hide PlaneSize, AxisOf, KeepsX, KeepsY, Far;
    TransposedKeeps(win, sub, i);
    CoveredIsNear(Transposed(win), sub, support, i);
  }

  lemma RowNear(win: Window, sub: int, support: real, j: nat, l: nat, n: nat)
    requires win.Valid() && win.srcH <= MAX_SOURCE && n >= 1 && sub >= 1 && InsideY(win, l)
    requires var d := win.dstH as real; -1.5 * d <= (j as real + 0.5) * d - (l as real + 0.5) * n as real <= 1.5 * d
    requires AxisOf(win.y, win.h, sub, n, support).stretch < MAX_STRETCH
    ensures !Far(AxisOf(win.y, win.h, sub, n, support), j)
  {
    hide AxisOf, Centre, CentreAt;
    var s, m, d, x, z := sub as real, n as real, win.dstH as real, j as real + 0.5, l as real + 0.5;
    var t := CentreByLuma(win, sub, n, support, j);
    var v := LumaCentre(win, l);
    ModerateWindow(win, sub, n, support);
    PointsApart(t, v, m, d, s, win.h, x, z);
    Nearby(Centre(AxisOf(win.y, win.h, sub, n, support), j), s, win.y + t, win.y + v, 1.5 * MAX_STRETCH,
           win.srcH as real);
  }

  lemma LumaCentre(win: Window, l: int) returns (v: real)
    requires win.Valid()
    ensures v * win.dstH as real == (l as real + 0.5) * win.h && CentreAt(win.y, win.h, win.dstH, l) == win.y + v - 0.5
  {
    v := CentreAt(win.y, win.h, win.dstH, l) - win.y + 0.5;
    QuotientBack((l as real + 0.5) * win.h, win.dstH as real, v);
  }

  lemma HalfRows(j: int, l: int, n: int, sub: int, d: int)
    requires 0 <= j && 0 <= l < d && j * sub <= l < j * sub + sub && sub >= 1 && n >= 1 && d <= n * sub <= d + sub - 1
    ensures -1.5 * d as real <= (j as real + 0.5) * d as real - (l as real + 0.5) * n as real <= 1.5 * d as real
  {
    RowsApart(j, l, n, sub, d);
    assert ((2 * j + 1) * d) as real == (2.0 * j as real + 1.0) * d as real;
    assert ((2 * l + 1) * n) as real == (2.0 * l as real + 1.0) * n as real;
  }

  /** A plane coordinate whose luma coordinate is within reach of a luma row inside the source. */
  lemma Nearby(c: real, s: real, luma: real, inside: real, reach: real, height: real)
    requires s >= 1.0 && (c + 0.5) * s == luma && -reach * s <= luma - inside <= reach * s && 0.0 <= inside <= height
    requires reach >= 0.0
    ensures -reach - 0.5 <= c <= height + reach - 0.5
  {
    NonnegativeProduct(s - 1.0, height);
    assert (s - 1.0) * height == height * s - height;
    assert (height + reach) * s == height * s + reach * s;
    Nearer(c + 0.5, s, -reach, height + reach);
  }

  /** What the second pass relies on: the first pass is finished. */
  ghost predicate AllRowsDone(tmp: array2<real>, p: Plan, row0: int, row1: int)
    requires p.Valid()
    reads tmp
  {
    row1 - row0 + 1 == tmp.Length0 && forall m :: 0 <= m < tmp.Length0 ==> RowDone(tmp, p.kernel, p.ax, p.pic, row0, m)
  }

  method VertSample(p: Plan, sp: Span, weights: array2<real>, tmp: array2<real>, row0: int, row1: int, i: nat, j: nat)
    returns (v: int)
    requires p.Valid() && j < weights.Length0 && SpanBuilt(sp, weights, p.kernel, p.ay, j)
    requires AllRowsDone(tmp, p, row0, row1) && i < tmp.Length1
    ensures v == VertValue(p.kernel, p.ax, p.ay, i, j, p.pic, row0, row1)
  {
    hide Weight, SpanOf, HorizValue, Axis.Radius, Picture.Valid, RoundComp, Axis.Valid, Window.Valid, Vanishes;
    if sp.norm == 0.0 {
      return p.pic.black;
    }
    var acc := 0.0;
    var t := 0;
    while t < sp.n
      invariant 0 <= t <= sp.n && acc == ColumnSum(p.kernel, p.ax, p.ay, i, j, p.pic, row0, row1, sp.k0, t)
    {
      var wy := weights[j, t];
      if wy != 0.0 {
        var k := sp.k0 + t;
        var sample := p.pic.black as real;
        if row0 <= k <= row1 {
          assert RowDone(tmp, p.kernel, p.ax, p.pic, row0, k - row0);
          sample := tmp[k - row0, i];
        }
        acc := acc + wy * sample;
      }
      t := t + 1;
    }
    return RoundComp(acc / sp.norm, p.pic.maxv);
  }

  /** The rows of the output before the second pass and the sample it stores for (i, j). */
  ghost predicate Stored(now: int, before: int, p: Plan, row0: int, row1: int, i: nat, j: nat)
    requires p.Valid()
  {
    now == if p.Written(i, j) then VertValue(p.kernel, p.ax, p.ay, i, j, p.pic, row0, row1) else before
  }

  /** A row with nothing to write: for luma the whole row is outside; it is skipped at once. */
  lemma RowOutside(p: Plan, j: nat)
    requires p.Valid() && p.subY == 1 && !InsideY(p.win, j)
    ensures !KeepsY(p.win, p.subY, j)
  {
    hide InsideY;
    assert j * 1 == j;
  }

  /** One row of MM_VERT. */
  method VertRow(p: Plan, allInside: bool, span: array<Span>, weights: array2<real>, tmp: array2<real>,
                 dst: array2<int>,
                 row0: int, row1: int, j: nat)
    requires p.Valid() && dst.Length0 == p.Height() && dst.Length1 == p.Width() == tmp.Length1 && j < dst.Length0
    requires dst.Length0 <= span.Length && dst.Length0 <= weights.Length0
    requires Built(span[..], weights, dst.Length0, p.kernel, p.ay)
    requires AllRowsDone(tmp, p, row0, row1) && allInside == CoversAll(p.win)
    modifies dst
    ensures forall i :: 0 <= i < dst.Length1 ==> Stored(dst[j, i], old(dst[j, i]), p, row0, row1, i, j)
    ensures forall u, i :: 0 <= u < dst.Length0 && u != j && 0 <= i < dst.Length1 ==> dst[u, i] == old(dst[u, i])
  {
    hide Weight, SpanOf, HorizValue, Axis.Radius, Picture.Valid, Axis.Valid, Vanishes, VertValue, CoversAll, KeepsX,
         KeepsY,
         CentreAt, PlaneSize, AllRowsDone;
    assert SpanBuilt(span[..][j], weights, p.kernel, p.ay, j);
    var sp := span[j];
    SkipIsFar(p.kernel, p.ay, j);
    if sp.skip {
      return;
    }
    if !allInside && p.subX == 1 && p.subY == 1 && !InsideY(p.win, j) {
      RowOutside(p, j);
      return;
    }
    var i := 0;
    while i < dst.Length1
      invariant 0 <= i <= dst.Length1
      invariant forall u :: 0 <= u < i ==> Stored(dst[j, u], old(dst[j, u]), p, row0, row1, u, j)
      invariant forall u :: i <= u < dst.Length1 ==> dst[j, u] == old(dst[j, u])
      invariant forall u, v :: 0 <= u < dst.Length0 && u != j && 0 <= v < dst.Length1 ==> dst[u, v] == old(dst[u, v])
    {
      var keep := true;
      if !allInside {
        keep := KeepPixel(p.win, p.subX, p.subY, i, j);
      } else {
        CoveredIsKept(p.win, p.subX, p.subY, i, j);
      }
      if keep {
        var value := VertSample(p, sp, weights, tmp, row0, row1, i, j);
        dst[j, i] := value;
      }
      i := i + 1;
    }
  }

  lemma SkipIsFar(kernel: Kernel, a: Axis, j: nat)
    requires a.Radius() >= 0.0
    ensures SpanOf(kernel, a, j).skip <==> Far(a, j)
  {
  }

  /** MM_VERT for one thread. */
  method VertThread(p: Plan, allInside: bool, span: array<Span>, weights: array2<real>, tmp: array2<real>,
                    dst: array2<int>,
                    row0: int, row1: int, tid: nat, nthreads: nat)
    requires p.Valid() && dst.Length0 == p.Height() && dst.Length1 == p.Width() == tmp.Length1 && tid < nthreads
    requires dst.Length0 <= span.Length && dst.Length0 <= weights.Length0
    requires Built(span[..], weights, dst.Length0, p.kernel, p.ay)
    requires AllRowsDone(tmp, p, row0, row1) && allInside == CoversAll(p.win)
    modifies dst
    ensures forall j, i :: 0 <= j < dst.Length0 && 0 <= i < dst.Length1 ==>
              if Owns(tid, nthreads, j) then Stored(dst[j, i], old(dst[j, i]), p, row0, row1, i, j)
              else dst[j, i] == old(dst[j, i])
  {
    hide Stored, Built, AllRowsDone, CoversAll, PlaneSize, Plan.Valid, Owns;
    var j := tid;
    FirstOwned(tid, nthreads);
    while j < dst.Length0
      invariant Owns(tid, nthreads, j)
      invariant forall u, i :: 0 <= u < dst.Length0 && u < j && 0 <= i < dst.Length1 && Owns(tid, nthreads, u) ==>
                  Stored(dst[u, i], old(dst[u, i]), p, row0, row1, i, u)
      invariant forall u, i :: 0 <= u < dst.Length0 && 0 <= i < dst.Length1 && (u >= j || !Owns(tid, nthreads, u)) ==>
                  dst[u, i] == old(dst[u, i])
    {
      NextOwned(tid, nthreads, j);
      VertRow(p, allInside, span, weights, tmp, dst, row0, row1, j);
      j := j + nthreads;
    }
  }

  // ----- mm_filter_separable

  /** The separable kernels. The Lanczos formula is not modelled: any function that vanishes from 3 on will do. */
  datatype Kind = Bilinear | Bicubic | Lanczos | Spline

  function KernelOf(kind: Kind, lanczos: Kernel): Kernel {
    match kind
    case Bilinear => Tent
    case Lanczos => lanczos
    case Spline => Bspline
    case Bicubic => Cubic
  }

  function SupportOf(kind: Kind): real {
    match kind
    case Bilinear => 1.0
    case Lanczos => 3.0
    case _ => 2.0
  }

  lemma KernelVanishes(kind: Kind, lanczos: Kernel)
    requires Vanishes(lanczos, 3.0)
    ensures Vanishes(KernelOf(kind, lanczos), SupportOf(kind))
  {
    hide Tent, Cubic, Bspline, Vanishes;
    TentVanishes();
    CubicVanishes();
    BsplineVanishes();
  }

  /** Except for the spline the kernels copy at integer coordinates. */
  lemma OnlySplineBlurs(kind: Kind, lanczos: Kernel)
    requires !kind.Lanczos?
    ensures Interpolates(KernelOf(kind, lanczos)) <==> !kind.Spline?
  {
    hide Tent, Cubic, Bspline, Interpolates;
    TentInterpolates();
    CubicInterpolates();
    BsplineBlurs();
  }

  /** The support of a kernel is no larger than it must be. */
  lemma SupportTight(kind: Kind, lanczos: Kernel, smaller: real)
    requires !kind.Lanczos? && 0.0 < smaller < SupportOf(kind)
    ensures !Vanishes(KernelOf(kind, lanczos), smaller)
  {
    hide Cubic, Bspline;
    var d := if smaller > SupportOf(kind) - 0.5 then smaller else SupportOf(kind) - 0.5;
    if kind.Bilinear? {
      assert Tent(d) == 1.0 - d;
    } else {
      OuterNonzero(d);
    }
  }

  /** Where nothing is shrunk the weights of a sample add up to one, so dividing by the norm changes nothing. */
  lemma EnlargedNorm(kind: Kind, lanczos: Kernel, a: Axis, i: nat)
    requires !kind.Lanczos? && a.Valid() && a.stretch == 1.0 && a.support == SupportOf(kind)
    ensures a.Radius() >= 0.0
    ensures var sp := SpanOf(KernelOf(kind, lanczos), a, i); sp.skip || sp.norm == 1.0
  {
    hide Centre, Vanishes, Tent, Cubic, Bspline, Weighed, WeightSum, FirstTap, TapCount;
    TentVanishes();
    CubicVanishes();
    BsplineVanishes();
    var x := Centre(a, i) - Centre(a, i).Floor as real;
    FourTaps(KernelOf(kind, lanczos), a, i);
    TentReproduces(x);
    CubicReproduces(x);
    BsplineReproduces(x);
  }

  /** What decides whether a luma pixel is kept is the coordinate that its sample is taken at. */
  lemma KeepsBySample(origin: real, length: real, n: int, support: real, l: nat)
    requires n >= 1
    ensures CentreAt(origin, length, n, l) == Centre(AxisOf(origin, length, 1, n, support), l)
  {
    var a := AxisOf(origin, length, 1, n, support);
    AxisParts(origin, length, 1, n, support);
    var x, m := l as real + 0.5, n as real;
    ExactQuotient(x * length, m, x * a.scale);
  }

  lemma ModerateTaps(a: Axis)
    requires a.Valid() && a.stretch < MAX_STRETCH && a.support <= 3.0
    ensures 0.0 <= a.Radius() && MaxTaps(a.Radius()) == (2.0 * a.Radius()).Floor + 3 && MaxTaps(a.Radius()) >= 1
  {
    SmallRadius(a.support, a.stretch, a.Radius());
    FewTaps(a.Radius());
  }

  lemma FewTaps(rad: real)
    requires 0.0 <= rad < 12288.0
    ensures MaxTaps(rad) == (2.0 * rad).Floor + 3 >= 1
  {
    FloorCeil(2.0 * rad);
  }

  lemma SmallRadius(support: real, stretch: real, rad: real)
    requires 0.0 < support <= 3.0 && 1.0 <= stretch < MAX_STRETCH && rad == support * stretch
    ensures 0.0 <= rad < 12288.0
  {
    NonnegativeProduct(support, stretch);
    NonnegativeProduct(3.0 - support, stretch);
    assert (3.0 - support) * stretch == 3.0 * stretch - rad;
  }

  lemma NonnegativeProduct(a: real, b: real)
    requires a >= 0.0 && b >= 0.0
    ensures a * b >= 0.0
  {
  }

  /** The first pass: every row of the range is filtered. */
  method HorizAll(p: Plan, row0: int, row1: int, nthreads: nat) returns (tmp: array2<real>)
    requires p.Valid() && p.Width() >= 1 && row1 - row0 + 1 >= 0 && nthreads > 0 && p.ax.stretch < MAX_STRETCH
    requires p.ax.support <= 3.0
    ensures fresh(tmp) && tmp.Length1 == p.Width() && AllRowsDone(tmp, p, row0, row1)
  {
    hide Vanishes, PlaneSize, RowDone, Axis.Radius, MaxTaps, Owns, Built;
    ModerateTaps(p.ax);
    var dw := p.Width();
    var span := new Span[dw](_ => Span(0, 0, 0.0, true));
    var weights := new real[dw, MaxTaps(p.ax.Radius())]((_, _) => 0.0);
    var ok := BuildSpans(span, weights, dw, p.kernel, p.ax);
    tmp := new real[row1 - row0 + 1, dw]((_, _) => 0.0);
    HorizThreads(p, span, weights, tmp, row0, nthreads);
  }

  /** The threads of the first pass, one after the other. */
  method HorizThreads(p: Plan, span: array<Span>, weights: array2<real>, tmp: array2<real>, row0: int, nthreads: nat)
    requires p.Valid() && tmp.Length1 <= span.Length && tmp.Length1 <= weights.Length0 && tmp != weights && nthreads > 0
    requires Built(span[..], weights, tmp.Length1, p.kernel, p.ax)
    modifies tmp
    ensures forall m :: 0 <= m < tmp.Length0 ==> RowDone(tmp, p.kernel, p.ax, p.pic, row0, m)
  {
    hide HorizValue, Owns, Built, OwnedBelow, Axis.Radius, Window.Valid, Vanishes, Axis.Valid;
    var t := 0;
    NoneOwned(nthreads);
    while t < nthreads
      invariant 0 <= t <= nthreads && Built(span[..], weights, tmp.Length1, p.kernel, p.ax)
      invariant forall m, i :: 0 <= m < tmp.Length0 && 0 <= i < tmp.Length1 && OwnedBelow(t, nthreads, m) ==>
                  tmp[m, i] == HorizValue(p.kernel, p.ax, i, p.pic, row0 + m)
    {
      OwnedNext(t, nthreads);
      HorizThread(p.pic, p.kernel, p.ax, span, weights, tmp, row0, t, nthreads);
      t := t + 1;
    }
    OwnedByAll(nthreads);
  }

  /** Row m belongs to one of the first t threads. */
  predicate OwnedBelow(t: nat, n: nat, m: nat)
    requires n > 0
  {
    m % n < t
  }

  lemma OwnedNext(t: nat, n: nat)
    requires t < n
    ensures forall m: nat :: OwnedBelow(t + 1, n, m) <==> OwnedBelow(t, n, m) || Owns(t, n, m)
    ensures forall m: nat :: !(OwnedBelow(t, n, m) && Owns(t, n, m))
  {
  }

  lemma OwnedByAll(n: nat)
    requires n > 0
    ensures forall m: nat :: OwnedBelow(n, n, m)
  {
  }

  lemma NoneOwned(n: nat)
    requires n > 0
    ensures forall m: nat :: !OwnedBelow(0, n, m)
  {
  }

  /** The second pass over all threads. */
  method VertAll(p: Plan, tmp: array2<real>, dst: array2<int>, row0: int, row1: int, nthreads: nat)
    requires p.Valid() && dst.Length0 == p.Height() && dst.Length1 == p.Width() == tmp.Length1 && nthreads > 0
    requires AllRowsDone(tmp, p, row0, row1) && p.ay.stretch < MAX_STRETCH && p.ay.support <= 3.0
    modifies dst
    ensures forall j, i :: 0 <= j < dst.Length0 && 0 <= i < dst.Length1 ==>
              Stored(dst[j, i], old(dst[j, i]), p, row0, row1, i, j)
  {
    hide Vanishes, PlaneSize, AllRowsDone, Axis.Radius, MaxTaps, Owns, Built, Stored, OwnedBelow, CoversAll;
    ModerateTaps(p.ay);
    var dh := dst.Length0;
    var span := new Span[dh](_ => Span(0, 0, 0.0, true));
    var weights := new real[dh, MaxTaps(p.ay.Radius())]((_, _) => 0.0);
    var ok := BuildSpans(span, weights, dh, p.kernel, p.ay);
    var allInside := CoversAll(p.win);
    NoneOwned(nthreads);
    var t := 0;
    while t < nthreads
      invariant 0 <= t <= nthreads && Built(span[..], weights, dh, p.kernel, p.ay) && AllRowsDone(tmp, p, row0, row1)
      invariant forall j, i :: 0 <= j < dh && 0 <= i < dst.Length1 ==>
                  if OwnedBelow(t, nthreads, j) then Stored(dst[j, i], old(dst[j, i]), p, row0, row1, i, j)
                  else dst[j, i] == old(dst[j, i])
    {
      OwnedNext(t, nthreads);
      VertThread(p, allInside, span, weights, tmp, dst, row0, row1, t, nthreads);
      t := t + 1;
    }
    OwnedByAll(nthreads);
  }

  /**
   * mm_filter_separable. It refuses a window stretched 4096 times or more; otherwise it stores in every kept
   * sample the rounded direct two-dimensional weighted sum, and leaves every other sample alone. The thread
   * counts change nothing.
   */
  method FilterSeparable(dst: array2<int>, pic: Picture, win: Window, subX: int, subY: int, kind: Kind, lanczos: Kernel,
                         horizThreads: nat, vertThreads: nat) returns (ok: bool, ghost p: Plan)
    requires pic.Valid() && win.Valid() && subX >= 1 && subY >= 1 && Vanishes(lanczos, 3.0)
    requires pic.height == PlaneSize(win.srcH, subY) && pic.width == PlaneSize(win.srcW, subX)
    requires dst.Length0 == PlaneSize(win.dstH, subY) && dst.Length1 == PlaneSize(win.dstW, subX)
    requires horizThreads > 0 && vertThreads > 0
    modifies dst
    ensures p.Valid() && p.pic == pic && p.win == win && p.subX == subX && p.subY == subY
    ensures p.kernel == KernelOf(kind, lanczos)
    ensures dst.Length1 >= 1 && p.ax == AxisOf(win.x, win.w, subX, dst.Length1, SupportOf(kind))
    ensures dst.Length0 >= 1 && p.ay == AxisOf(win.y, win.h, subY, dst.Length0, SupportOf(kind))
    ensures p.FromWindow()
    ensures ok <==> p.ax.stretch < MAX_STRETCH && p.ay.stretch < MAX_STRETCH
    ensures ok && win.srcW <= MAX_SOURCE ==> forall i :: 0 <= i < dst.Length1 && KeepsX(win, subX, i) ==> !Far(p.ax, i)
    ensures ok && win.srcH <= MAX_SOURCE ==>
              forall j, i :: 0 <= j < dst.Length0 && 0 <= i < dst.Length1 ==>
                (p.Written(i, j) <==> KeepsX(win, subX, i) && KeepsY(win, subY, j))
    ensures forall j, i :: 0 <= j < dst.Length0 && 0 <= i < dst.Length1 ==>
              dst[j, i] == if ok && p.Written(i, j) then DirectValue(p.kernel, p.ax, p.ay, i, j, pic)
                           else old(dst[j, i])
  {
    hide Vanishes, PlaneSize, AllRowsDone, Axis.Radius, RowRange, Plan.Written, DirectValue, VertValue, AxisOf,
         KernelOf;
    PlaneNotEmpty(win.dstW, subX);
    PlaneNotEmpty(win.dstH, subY);
    KernelVanishes(kind, lanczos);
    var support := SupportOf(kind);
    AxisValid(win.x, win.w, subX, dst.Length1, support);
    AxisValid(win.y, win.h, subY, dst.Length0, support);
    var ax := AxisOf(win.x, win.w, subX, dst.Length1, support);
    var ay := AxisOf(win.y, win.h, subY, dst.Length0, support);
    AxisSupport(win.x, win.w, subX, dst.Length1, support);
    AxisSupport(win.y, win.h, subY, dst.Length0, support);
    var plan := Plan(pic, win, subX, subY, KernelOf(kind, lanczos), ax, ay);
    p := plan;
    if ax.stretch >= MAX_STRETCH || ay.stretch >= MAX_STRETCH {
      return false, p;
    }
    var (row0, row1) := RowRange(ay, dst.Length0, pic.height);
    RowCount(ay, dst.Length0, pic.height);
    var tmp := HorizAll(plan, row0, row1, horizThreads);
    VertAll(plan, tmp, dst, row0, row1, vertThreads);
    forall j, i | 0 <= j < dst.Length0 && 0 <= i < dst.Length1
      ensures VertValue(plan.kernel, ax, ay, i, j, pic, row0, row1) == DirectValue(plan.kernel, ax, ay, i, j, pic)
    {
      TwoPassIsDirect(plan.kernel, ax, ay, i, j, pic, dst.Length0);
    }
    if win.srcW <= MAX_SOURCE {
      forall i | 0 <= i < dst.Length1 && KeepsX(win, subX, i)
        ensures !Far(ax, i)
      {
        KeptColumnIsNear(win, subX, support, i);
      }
    }
    if win.srcH <= MAX_SOURCE {
      forall j, i | 0 <= j < dst.Length0 && 0 <= i < dst.Length1
        ensures plan.Written(i, j) <==> KeepsX(win, subX, i) && KeepsY(win, subY, j)
      {
        WrittenIsKept(plan, i, j);
      }
    }
    return true, p;
  }

  /** Up to a height of the source that no picture has, what is written is what is kept. */
  lemma WrittenIsKept(p: Plan, i: int, j: nat)
    requires p.Valid() && p.FromWindow() && p.ay.stretch < MAX_STRETCH && p.win.srcH <= MAX_SOURCE && j < p.Height()
    ensures p.Written(i, j) <==> KeepsX(p.win, p.subX, i) && KeepsY(p.win, p.subY, j)
  {
    hide Far, KeepsX, KeepsY, AxisOf, PlaneSize;
    if KeepsY(p.win, p.subY, j) {
      KeptIsNear(p.win, p.subY, p.ay.support, j);
    }
  }

  /**
   * So the value of each sample written is the rounded quotient of sums over any rectangle of taps that takes in
   * both spans: of the products of weights and samples, and of the weights in either direction.
   */
  lemma WrittenIsDirect(p: Plan, i: nat, j: nat, ky: int, ny: nat, kx: int, nx: nat)
    requires p.Valid() && p.FromWindow() && p.ax.stretch < MAX_STRETCH && p.ay.stretch < MAX_STRETCH
    requires p.win.srcW <= MAX_SOURCE && p.win.srcH <= MAX_SOURCE && i < p.Width() && j < p.Height() && p.Written(i, j)
    requires TakesIn(p.ax, i, kx, nx) && TakesIn(p.ay, j, ky, ny)
    ensures var across, down := WeightSum(p.kernel, p.ax, i, kx, nx), WeightSum(p.kernel, p.ay, j, ky, ny);
            DirectValue(p.kernel, p.ax, p.ay, i, j, p.pic)
            == if across == 0.0 || down == 0.0 then p.pic.black
               else RoundComp(Direct.Quotient(DirectSum(p.kernel, p.ax, p.ay, i, j, p.pic, ky, ny, kx, nx), across,
                                              down), p.pic.maxv)
  {
    hide KeepsX, KeepsY, AxisOf, PlaneSize, Far, DirectSum, WeightSum, RoundComp, Direct.Quotient, Vanishes,
         Axis.Radius, Picture.Valid, Window.Valid,
         TakesIn, Axis.Valid;
    KeptColumnIsNear(p.win, p.subX, p.ax.support, i);
    KeptIsNear(p.win, p.subY, p.ay.support, j);
    DirectOverAny(p.kernel, p.ax, p.ay, i, j, p.pic, ky, ny, kx, nx);
  }

  lemma PlaneNotEmpty(size: int, sub: int)
    requires size >= 1 && sub >= 1
    ensures PlaneSize(size, sub) >= 1
  {
    var x := size + sub - 1;
    var q := x / sub;
    assert x == sub * q + x % sub;
    assert q <= 0 ==> sub * q <= 0;
  }

  /** The range has no more than one row missing to be empty. */
  lemma RowCount(ay: Axis, dh: nat, sh: nat)
    requires ay.Valid() && ay.Radius() >= 0.0 && dh > 0
    ensures var (row0, row1) := RowRange(ay, dh, sh); row1 - row0 + 1 >= 0
  {
    hide Centre, Axis.Radius;
    Direct.CentresGrow(ay, 0, dh - 1);
    FloorCeil(sh as real - 1.0);
    FloorCeil(Centre(ay, 0) - ay.Radius());
    FloorCeil(Centre(ay, dh - 1) + ay.Radius());
  }

  // ----- The identity

  lemma UnstretchedAxis(sub: int, n: int, support: real, i: nat)
    requires sub >= 1 && n >= 1
    ensures var a := AxisOf(0.0, (n * sub) as real, sub, n, support);
            a.stretch == 1.0 && Centre(a, i) == i as real && a.Radius() == support
  {
    var m, s := n as real, sub as real;
    assert (n * sub) as real == m * s;
    ExactQuotient((n * sub) as real, s, m);
    ExactQuotient(m, m, 1.0);
    ExactQuotient(0.0, s, 0.0);
    var a := AxisOf(0.0, (n * sub) as real, sub, n, support);
    assert a == Axis(0.0, 1.0, 1.0, support);
    Scaling(support, i as real + 0.5);
  }

  lemma ExactQuotient(x: real, n: real, q: real)
    requires n > 0.0 && q * n == x
    ensures x / n == q
  {
  }

  lemma Scaling(support: real, c: real)
    ensures support * 1.0 == support && c * 1.0 == c
  {
  }

  /**
   * A window as large as the output, from the origin on, is copied unchanged by the interpolating kernels, in every
   * plane, with black where it goes beyond the picture.
   */
  lemma IdentityCopies(p: Plan, kind: Kind, lanczos: Kernel, i: nat, j: nat)
    requires p.Valid() && p.FromWindow() && (kind.Bilinear? || kind.Bicubic?) && p.kernel == KernelOf(kind, lanczos)
    requires p.win.x == 0.0 && p.win.w == (p.Width() * p.subX) as real && p.win.y == 0.0
    requires p.win.h == (p.Height() * p.subY) as real
    requires i < p.Width() && j < p.Height() && i as real <= FAR && j as real <= FAR
    requires i < p.pic.width && j < p.pic.height ==> 0 <= p.pic.samples[j][i] <= p.pic.maxv
    ensures DirectValue(p.kernel, p.ax, p.ay, i, j, p.pic)
         == if i < p.pic.width && j < p.pic.height then p.pic.samples[j][i] else p.pic.black
  {
    hide PlaneSize, AxisOf, Centre, Axis.Radius, DirectValue, Interpolates, Tent, Cubic;
    TentInterpolates();
    CubicInterpolates();
    UnstretchedAxis(p.subX, p.Width(), p.ax.support, i);
    UnstretchedAxis(p.subY, p.Height(), p.ay.support, j);
    IntegerCoordinatesCopy(p.kernel, p.ax, p.ay, i, j, p.pic, i, j);
  }
}
