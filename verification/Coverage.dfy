/** mm_keep_pixel and mm_covers_all of av/sample_window.go: which output samples are written at all. */
module Coverage {
  import opened Common

  /** A window of the source, in pixels, and the sizes of output and source. */
  datatype Window = Window(x: real, y: real, w: real, h: real, dstW: int, dstH: int, srcW: int, srcH: int) {
    /** What mm_resample_window demands of its arguments, and that the pictures are not empty. */
    predicate Valid() {
      w > 0.0 && h > 0.0 && dstW >= 1 && dstH >= 1 && srcW >= 1 && srcH >= 1
    }
  }

  /** The source coordinate of an output pixel centre along one direction. */
  function CentreAt(origin: real, length: real, size: int, l: int): real
    requires size >= 1
  {
    origin + (l as real + 0.5) * length / size as real - 0.5
  }

  /** A picture of n pixels covers [-1/2, n - 1/2). */
  predicate Inside(s: real, n: int) {
    -0.5 <= s && s < n as real - 0.5
  }

  /** Pixel l of the output has its centre inside the source, horizontally or vertically. */
  predicate InsideX(win: Window, l: int)
    requires win.dstW >= 1
  {
    Inside(CentreAt(win.x, win.w, win.dstW, l), win.srcW)
  }

  predicate InsideY(win: Window, l: int)
    requires win.dstH >= 1
  {
    Inside(CentreAt(win.y, win.h, win.dstH, l), win.srcH)
  }

  /** Some luma column under plane column i is inside. */
  ghost predicate KeepsX(win: Window, sub: int, i: int)
    requires win.dstW >= 1
  {
    exists l :: i * sub <= l < i * sub + sub && l < win.dstW && InsideX(win, l)
  }

  ghost predicate KeepsY(win: Window, sub: int, j: int)
    requires win.dstH >= 1
  {
    exists l :: j * sub <= l < j * sub + sub && l < win.dstH && InsideY(win, l)
  }

  /** mm_keep_pixel: some luma pixel under plane pixel (i, j) has its centre inside the source. */
  method KeepPixel(win: Window, subX: int, subY: int, i: int, j: int) returns (keep: bool)
    requires win.Valid() && subX >= 1 && subY >= 1
    ensures keep <==> KeepsX(win, subX, i) && KeepsY(win, subY, j)
  {
    hide Inside, CentreAt, InsideX, InsideY;
    var x0, y0 := i * subX, j * subY;
    if x0 >= win.dstW || y0 >= win.dstH {
      return false;
    }
    var x1, y1 := Min(x0 + subX, win.dstW), Min(y0 + subY, win.dstH);
    var ly := y0;
    while ly < y1
      invariant y0 <= ly <= y1
      invariant forall a, b :: y0 <= a < ly && x0 <= b < x1 ==> !(InsideY(win, a) && InsideX(win, b))
    {
      if InsideY(win, ly) {
        var lx := x0;
        while lx < x1
          invariant x0 <= lx <= x1
          invariant forall b :: x0 <= b < lx ==> !InsideX(win, b)
        {
          if InsideX(win, lx) {
            return true;
          }
          lx := lx + 1;
        }
      }
      ly := ly + 1;
    }
    return false;
  }

  /** mm_covers_all: the centres of the first and the last pixel are inside, in both directions. */
  predicate CoversAll(win: Window) {
    && win.Valid()
    && CentreAt(win.x, win.w, win.dstW, 0) >= -0.5
    && CentreAt(win.x, win.w, win.dstW, win.dstW - 1) < win.srcW as real - 0.5
    && CentreAt(win.y, win.h, win.dstH, 0) >= -0.5
    && CentreAt(win.y, win.h, win.dstH, win.dstH - 1) < win.srcH as real - 0.5
  }

  /** Centres move to the right. */
  lemma CentresGrow(origin: real, length: real, size: int, a: int, b: int)
    requires size >= 1 && length > 0.0 && a <= b
    ensures CentreAt(origin, length, size, a) <= CentreAt(origin, length, size, b)
  {
    var n := size as real;
    var x, y := a as real + 0.5, b as real + 0.5;
    Ordered(x, y, length);
    Quotients(x * length, y * length, n);
  }

  lemma Ordered(x: real, y: real, f: real)
    requires x <= y && f >= 0.0
    ensures x * f <= y * f
  {
  }

  lemma Quotients(x: real, y: real, n: real)
    requires x <= y && n > 0.0
    ensures x / n <= y / n
  {
    var p, q := x / n, y / n;
    assert p * n == x && q * n == y;
    assert p > q ==> (p - q) * n > 0.0;
  }

  /** When everything is covered, every column and every row is inside. */
  lemma CoveredIsInside(win: Window, l: int)
    requires CoversAll(win)
    ensures 0 <= l < win.dstW ==> InsideX(win, l)
    ensures 0 <= l < win.dstH ==> InsideY(win, l)
  {
    if 0 <= l < win.dstW {
      CentresGrow(win.x, win.w, win.dstW, 0, l);
      CentresGrow(win.x, win.w, win.dstW, l, win.dstW - 1);
    }
    if 0 <= l < win.dstH {
      CentresGrow(win.y, win.h, win.dstH, 0, l);
      CentresGrow(win.y, win.h, win.dstH, l, win.dstH - 1);
    }
  }

  /** The size of a plane subsampled by sub. */
  function PlaneSize(size: int, sub: int): int
    requires sub >= 1
  {
    (size + sub - 1) / sub
  }

  lemma PlaneIndex(size: int, sub: int, i: int)
    requires sub >= 1 && 0 <= i < PlaneSize(size, sub)
    ensures 0 <= i * sub < size
  {
    var x := size + sub - 1;
    var q := x / sub;
    assert x == sub * q + x % sub;
    assert i + 1 <= q;
    assert sub * (i + 1) <= sub * q;
    assert sub * (i + 1) == i * sub + sub;
  }

  /** When everything is covered, every sample of every plane is kept, chroma included. */
  lemma CoveredIsKept(win: Window, subX: int, subY: int, i: int, j: int)
    requires CoversAll(win) && subX >= 1 && subY >= 1
    requires 0 <= i < PlaneSize(win.dstW, subX) && 0 <= j < PlaneSize(win.dstH, subY)
    ensures KeepsX(win, subX, i) && KeepsY(win, subY, j)
  {
    hide InsideX, InsideY, PlaneSize;
    PlaneIndex(win.dstW, subX, i);
    PlaneIndex(win.dstH, subY, j);
    CoveredIsInside(win, i * subX);
    CoveredIsInside(win, j * subY);
  }

  /** For luma the converse holds too: mm_covers_all is exactly that every pixel is kept. */
  lemma CoversAllExactly(win: Window)
    requires win.Valid()
    ensures CoversAll(win) <==>
              (forall i :: 0 <= i < win.dstW ==> KeepsX(win, 1, i)) &&
              (forall j :: 0 <= j < win.dstH ==> KeepsY(win, 1, j))
  {
    hide CentreAt, KeepsX, KeepsY;
    if CoversAll(win) {
      forall i | 0 <= i < win.dstW
        ensures KeepsX(win, 1, i)
      {
        CoveredIsInside(win, i);
        OnePixel(win, i, 0);
      }
      forall j | 0 <= j < win.dstH
        ensures KeepsY(win, 1, j)
      {
        CoveredIsInside(win, j);
        OnePixel(win, 0, j);
      }
    } else {
      OnePixel(win, 0, 0);
      OnePixel(win, win.dstW - 1, win.dstH - 1);
    }
  }

  lemma OnePixel(win: Window, i: int, j: int)
    requires win.Valid() && 0 <= i < win.dstW && 0 <= j < win.dstH
    ensures KeepsX(win, 1, i) <==> InsideX(win, i)
    ensures KeepsY(win, 1, j) <==> InsideY(win, j)
  {
    hide InsideX, InsideY;
    assert i * 1 == i && j * 1 == j;
  }
}
