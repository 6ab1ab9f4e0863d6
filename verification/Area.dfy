/** The point and area kernels of mm_resample_window in av/sample_window.go. */
module Area {
  import opened Common
  import opened Coverage
  import opened Kernels
  import opened Spans
  import opened Direct

  // ----- One direction

  function MinR(a: real, b: real): real {
    if a < b then a else b
  }

  function MaxR(a: real, b: real): real {
    if a > b then a else b
  }

  /** mm_overlap: how much of the interval lies in pixel k. */
  function Overlap(left: real, right: real, k: int): real {
    var a, b := MaxR(left, k as real), MinR(right, k as real + 1.0);
    if b > a then b - a else 0.0
  }

  /** How much of the interval lies in the first n pixels. */
  function Clipped(left: real, right: real, n: int): real {
    var a, b := MaxR(left, 0.0), MinR(right, n as real);
    if b > a then b - a else 0.0
  }

  /** The sum of the overlaps with n pixels from k0 on. */
  ghost function OverlapSum(left: real, right: real, k0: int, n: nat): real {
    if n == 0 then 0.0 else OverlapSum(left, right, k0, n - 1) + Overlap(left, right, k0 + n - 1)
  }

  /** Adding up over the first n pixels gives what lies in them. */
  lemma {:induction false} OverlapsAddUp(left: real, right: real, n: nat)
    requires left <= right
    ensures OverlapSum(left, right, 0, n) == Clipped(left, right, n)
  {
    if n > 0 {
      OverlapsAddUp(left, right, n - 1);
    }
  }

  /** The first and one past the last pixel the loops visit. */
  function FirstPixel(left: real): int {
    Max(left.Floor, 0)
  }

  function EndPixel(right: real, n: int): int {
    if Ceil(right) - 1 >= n then n else Ceil(right)
  }

  function PixelCount(left: real, right: real, n: int): nat {
    Max(EndPixel(right, n) - FirstPixel(left), 0)
  }

  lemma NoOverlap(left: real, right: real, k: int)
    requires k < left.Floor || k >= Ceil(right)
    ensures Overlap(left, right, k) == 0.0
  {
    FloorCeil(left);
    FloorCeil(right);
  }

  lemma {:induction false} OverlapsSplit(left: real, right: real, k: int, m: nat, n: nat)
    ensures OverlapSum(left, right, k, m + n) == OverlapSum(left, right, k, m) + OverlapSum(left, right, k + m, n)
    decreases n
  {
    hide Overlap;
    if n > 0 {
      OverlapsSplit(left, right, k, m, n - 1);
      assert k + m + (n - 1) == k + (m + n) - 1;
    }
  }

  lemma {:induction false} OverlapsVanish(left: real, right: real, k: int, n: nat)
    requires forall t :: k <= t < k + n ==> Overlap(left, right, t) == 0.0
    ensures OverlapSum(left, right, k, n) == 0.0
  {
    hide Overlap;
    if n > 0 {
      OverlapsVanish(left, right, k, n - 1);
    }
  }

  /** The pixels visited add up to what lies in the whole picture. */
  lemma VisitedAddUp(left: real, right: real, n: nat)
    requires left <= right
    ensures OverlapSum(left, right, FirstPixel(left), PixelCount(left, right, n)) == Clipped(left, right, n)
  {
    hide Overlap, Clipped, OverlapSum;
    OverlapsAddUp(left, right, n);
    FloorCeil(left);
    FloorCeil(right);
    forall k | k < left.Floor || k >= Ceil(right)
      ensures Overlap(left, right, k) == 0.0
    {
      NoOverlap(left, right, k);
    }
    var a, c := FirstPixel(left), PixelCount(left, right, n);
    if a + c <= n {
      OverlapsSplit(left, right, 0, a, n - a);
      OverlapsSplit(left, right, a, c, n - a - c);
      OverlapsVanish(left, right, 0, a);
      OverlapsVanish(left, right, a + c, n - a - c);
    } else {
      OverlapsVanish(left, right, 0, n);
      OverlapsVanish(left, right, a, c);
    }
  }

  lemma OverlapNonnegative(left: real, right: real, k: int)
    ensures 0.0 <= Overlap(left, right, k)
  {
  }

  lemma ClippedBounds(left: real, right: real, n: nat)
    requires left < right
    ensures 0.0 <= Clipped(left, right, n) <= right - left
    ensures Clipped(left, right, n) == right - left <==> 0.0 <= left && right <= n as real
  {
  }

  // ----- A cell of the window

  datatype Cell = Cell(left: real, right: real, top: real, bottom: real) {
    ghost predicate Valid() {
      left < right && top < bottom
    }
  }

  function CellArea(c: Cell): real {
    (c.right - c.left) * (c.bottom - c.top)
  }

  /** The share of the cell that lies in pixel (x, y). */
  function Share(c: Cell, x: int, y: int): real
    requires CellArea(c) > 0.0
  {
    Overlap(c.left, c.right, x) * Overlap(c.top, c.bottom, y) / CellArea(c)
  }

  /** The shares of n pixels of row y. */
  ghost function RowShare(c: Cell, y: int, x0: int, n: nat): real
    requires CellArea(c) > 0.0
  {
    if n == 0 then 0.0 else RowShare(c, y, x0, n - 1) + Share(c, x0 + n - 1, y)
  }

  ghost function TotalShare(c: Cell, y0: int, m: nat, x0: int, n: nat): real
    requires CellArea(c) > 0.0
  {
    if m == 0 then 0.0 else TotalShare(c, y0, m - 1, x0, n) + RowShare(c, y0 + m - 1, x0, n)
  }

  /** The samples of n pixels of row y, each by its share. */
  ghost function RowMix(c: Cell, pic: Picture, y: int, x0: int, n: nat): real
    requires CellArea(c) > 0.0 && pic.Valid()
  {
    if n == 0 then 0.0
    else RowMix(c, pic, y, x0, n - 1) + Share(c, x0 + n - 1, y) * (Sample(pic, x0 + n - 1, y) as real)
  }

  ghost function TotalMix(c: Cell, pic: Picture, y0: int, m: nat, x0: int, n: nat): real
    requires CellArea(c) > 0.0 && pic.Valid()
  {
    if m == 0 then 0.0 else TotalMix(c, pic, y0, m - 1, x0, n) + RowMix(c, pic, y0 + m - 1, x0, n)
  }

  /** How much of the cell the loops add up, of all the pixels they visit. */
  ghost function Covered(c: Cell, pic: Picture): real
    requires CellArea(c) > 0.0
  {
    TotalShare(c, FirstPixel(c.top), PixelCount(c.top, c.bottom, pic.height), FirstPixel(c.left),
               PixelCount(c.left, c.right, pic.width))
  }

  ghost function Mixed(c: Cell, pic: Picture): real
    requires CellArea(c) > 0.0 && pic.Valid()
  {
    TotalMix(c, pic, FirstPixel(c.top), PixelCount(c.top, c.bottom, pic.height), FirstPixel(c.left),
             PixelCount(c.left, c.right, pic.width))
  }

  /** The area kernel: the pixels by their shares, and black for the rest of the cell. */
  ghost function AreaValue(c: Cell, pic: Picture): real
    requires CellArea(c) > 0.0 && pic.Valid()
  {
    Mixed(c, pic) + (1.0 - Covered(c, pic)) * (pic.black as real)
  }

  // ----- The loops

  method MixRow(pic: Picture, c: Cell, y: int, x0: int, n: nat, ycov: real, acc0: real, covered0: real)
    returns (acc: real, covered: real)
    requires pic.Valid() && CellArea(c) > 0.0 && ycov == Overlap(c.top, c.bottom, y)
    requires 0 <= y < pic.height && 0 <= x0 && x0 + n <= Max(pic.width, x0)
    ensures acc == acc0 + RowMix(c, pic, y, x0, n) && covered == covered0 + RowShare(c, y, x0, n)
  {
    hide Overlap, CellArea;
    acc, covered := acc0, covered0;
    var span := CellArea(c);
    var t := 0;
    while t < n
      invariant 0 <= t <= n && acc == acc0 + RowMix(c, pic, y, x0, t) && covered == covered0 + RowShare(c, y, x0, t)
    {
      var xx := x0 + t;
      var xcov := Overlap(c.left, c.right, xx);
      if xcov != 0.0 {
        var weight := xcov * ycov / span;
        covered := covered + weight;
        acc := acc + weight * (pic.samples[y][xx] as real);
      } else {
        NoShare(c, xx, y);
      }
      t := t + 1;
    }
  }

  lemma NoShare(c: Cell, x: int, y: int)
    requires CellArea(c) > 0.0 && (Overlap(c.left, c.right, x) == 0.0 || Overlap(c.top, c.bottom, y) == 0.0)
    ensures Share(c, x, y) == 0.0
  {
    hide Overlap, CellArea;
  }

  lemma {:induction false} NoRow(c: Cell, pic: Picture, y: int, x0: int, n: nat)
    requires CellArea(c) > 0.0 && pic.Valid() && Overlap(c.top, c.bottom, y) == 0.0
    ensures RowShare(c, y, x0, n) == 0.0 && RowMix(c, pic, y, x0, n) == 0.0
  {
    hide Share, CellArea, Overlap;
    if n > 0 {
      NoRow(c, pic, y, x0, n - 1);
      NoShare(c, x0 + n - 1, y);
    }
  }

  /** The loops of the area kernel for one output sample. */
  method AreaSample(pic: Picture, c: Cell) returns (acc: real)
    requires pic.Valid()
    ensures acc == if CellArea(c) > 0.0 then AreaValue(c, pic) else pic.black as real
  {
    hide Overlap, CellArea, RowMix, RowShare, Picture.Valid;
    var span := CellArea(c);
    if !(span > 0.0) {
      return pic.black as real;
    }
    acc := 0.0;
    var covered := 0.0;
    var x0, y0 := FirstPixel(c.left), FirstPixel(c.top);
    var n, m := PixelCount(c.left, c.right, pic.width), PixelCount(c.top, c.bottom, pic.height);
    var t := 0;
    while t < m
      invariant 0 <= t <= m && acc == TotalMix(c, pic, y0, t, x0, n) && covered == TotalShare(c, y0, t, x0, n)
    {
      var yy := y0 + t;
      var ycov := Overlap(c.top, c.bottom, yy);
      if ycov != 0.0 {
        acc, covered := MixRow(pic, c, yy, x0, n, ycov, acc, covered);
      } else {
        NoRow(c, pic, yy, x0, n);
      }
      t := t + 1;
    }
    acc := acc + (1.0 - covered) * (pic.black as real);
  }

  // ----- What the shares add up to

  lemma ShareOver(a: real, b: real, c: real, area: real)
    requires area > 0.0
    ensures a * c / area + b * c / area == (a + b) * c / area
  {
    assert a * c + b * c == (a + b) * c;
  }

  lemma {:induction false} RowShareIs(c: Cell, y: int, x0: int, n: nat)
    requires CellArea(c) > 0.0
    ensures RowShare(c, y, x0, n)
         == Portion(OverlapSum(c.left, c.right, x0, n), Overlap(c.top, c.bottom, y), CellArea(c))
  {
    hide Overlap, CellArea;
    if n > 0 {
      RowShareIs(c, y, x0, n - 1);
      ShareOver(OverlapSum(c.left, c.right, x0, n - 1), Overlap(c.left, c.right, x0 + n - 1),
                Overlap(c.top, c.bottom, y), CellArea(c));
    }
  }

  /** a times b, as a part of an area. */
  function Portion(a: real, b: real, area: real): real
    requires area > 0.0
  {
    a * b / area
  }

  lemma PortionAdds(a: real, b: real, c: real, area: real)
    requires area > 0.0
    ensures Portion(a, b, area) + Portion(a, c, area) == Portion(a, b + c, area)
    ensures Portion(a, 0.0, area) == 0.0
  {
    assert a * b + a * c == a * (b + c);
  }

  lemma {:induction false} TotalShareIs(c: Cell, y0: int, m: nat, x0: int, n: nat)
    requires CellArea(c) > 0.0
    ensures TotalShare(c, y0, m, x0, n)
         == Portion(OverlapSum(c.left, c.right, x0, n), OverlapSum(c.top, c.bottom, y0, m), CellArea(c))
  {
    hide Overlap, CellArea, RowShare, Portion;
    var across := OverlapSum(c.left, c.right, x0, n);
    PortionAdds(across, 0.0, 0.0, CellArea(c));
    if m > 0 {
      TotalShareIs(c, y0, m - 1, x0, n);
      RowShareIs(c, y0 + m - 1, x0, n);
      PortionAdds(across, OverlapSum(c.top, c.bottom, y0, m - 1), Overlap(c.top, c.bottom, y0 + m - 1), CellArea(c));
    }
  }

  /** The covered weight is the area of the part of the cell inside the picture, over the area of the cell. */
  lemma CoveredIs(c: Cell, pic: Picture)
    requires c.Valid() && CellArea(c) > 0.0
    ensures Covered(c, pic)
         == Portion(Clipped(c.left, c.right, pic.width), Clipped(c.top, c.bottom, pic.height), CellArea(c))
  {
    hide CellArea, Portion, Clipped, OverlapSum, FirstPixel, PixelCount, TotalShare;
    TotalShareIs(c, FirstPixel(c.top), PixelCount(c.top, c.bottom, pic.height), FirstPixel(c.left),
                 PixelCount(c.left, c.right, pic.width));
    VisitedAddUp(c.left, c.right, pic.width);
    VisitedAddUp(c.top, c.bottom, pic.height);
  }

  lemma PortionBounds(a: real, b: real, w: real, h: real, area: real)
    requires 0.0 <= a <= w && 0.0 <= b <= h && w > 0.0 && h > 0.0 && area == w * h > 0.0
    ensures 0.0 <= Portion(a, b, area) <= 1.0
    ensures Portion(a, b, area) == 1.0 <==> a == w && b == h
  {
    var part, across, down := a * b, (w - a) * b, w * (h - b);
    NonnegativeProduct(a, b, part);
    NonnegativeProduct(w - a, b, across);
    NonnegativeProduct(w, h - b, down);
    Strips(a, b, w, h);
    if part == area {
      WholeSides(w - a, b, w, h - b, h);
    }
    DivideUnder(part, area);
  }

  lemma NonnegativeProduct(a: real, b: real, p: real)
    requires a >= 0.0 && b >= 0.0 && p == a * b
    ensures p >= 0.0
  {
  }

  lemma Strips(a: real, b: real, w: real, h: real)
    ensures w * h - a * b == (w - a) * b + w * (h - b)
  {
  }

  /** Two strips that add up to nothing are empty. */
  lemma WholeSides(x: real, b: real, w: real, y: real, h: real)
    requires x >= 0.0 && y >= 0.0 && w > 0.0 && h > 0.0 && b == h - y && x * b + w * y == 0.0 && b >= 0.0
    ensures x == 0.0 && y == 0.0
  {
    NonnegativeProduct(x, b, x * b);
    if y > 0.0 {
      PositiveProduct(w, y, w * y);
    } else if x > 0.0 {
      PositiveProduct(x, b, x * b);
    }
  }

  lemma DivideUnder(x: real, y: real)
    requires 0.0 <= x <= y && y > 0.0
    ensures 0.0 <= x / y <= 1.0
    ensures x / y == 1.0 <==> x == y
  {
    var q := x / y;
    assert q * y == x;
    assert q < 0.0 ==> q * y < 0.0;
    assert q > 1.0 ==> (q - 1.0) * y > 0.0;
  }

  /** So at most the whole cell is covered, and the whole cell exactly when it lies inside the picture. */
  lemma CoveredBounds(c: Cell, pic: Picture)
    requires c.Valid()
    ensures CellArea(c) > 0.0 && 0.0 <= Covered(c, pic) <= 1.0
    ensures Covered(c, pic) == 1.0
       <==> 0.0 <= c.left && c.right <= pic.width as real && 0.0 <= c.top && c.bottom <= pic.height as real
  {
    hide Portion, Clipped, Covered;
    AreaPositive(c, c.right - c.left, c.bottom - c.top);
    CoveredIs(c, pic);
    ClippedBounds(c.left, c.right, pic.width);
    ClippedBounds(c.top, c.bottom, pic.height);
    PortionBounds(Clipped(c.left, c.right, pic.width), Clipped(c.top, c.bottom, pic.height), c.right - c.left,
                  c.bottom - c.top,
                  CellArea(c));
  }

  lemma AreaPositive(c: Cell, w: real, h: real)
    requires c.Valid() && w == c.right - c.left && h == c.bottom - c.top
    ensures CellArea(c) == w * h > 0.0
  {
    PositiveProduct(w, h, w * h);
  }

  // ----- The result lies between the samples touched and black

  /** Every sample the cell touches lies from lo to hi, and so does black. */
  ghost predicate Between(c: Cell, pic: Picture, lo: real, hi: real)
    requires pic.Valid()
  {
    && lo <= pic.black as real <= hi
    && forall x, y :: Touches(c, x, y) ==> lo <= Sample(pic, x, y) as real <= hi
  }

  ghost predicate Touches(c: Cell, x: int, y: int) {
    Overlap(c.left, c.right, x) > 0.0 && Overlap(c.top, c.bottom, y) > 0.0
  }

  lemma ShareBounds(c: Cell, x: int, y: int)
    requires CellArea(c) > 0.0
    ensures 0.0 <= Share(c, x, y) && (Touches(c, x, y) <==> Share(c, x, y) > 0.0)
  {
    hide Overlap, CellArea;
    OverlapNonnegative(c.left, c.right, x);
    OverlapNonnegative(c.top, c.bottom, y);
    var a, b := Overlap(c.left, c.right, x), Overlap(c.top, c.bottom, y);
    assert a * b >= 0.0;
    NonnegativeQuotient(a * b, CellArea(c));
    if a > 0.0 && b > 0.0 {
      PositiveProduct(a, b, a * b);
      PositiveQuotient(a * b, CellArea(c));
    }
  }

  lemma NonnegativeQuotient(x: real, y: real)
    requires x >= 0.0 && y > 0.0
    ensures x / y >= 0.0 && (x == 0.0 ==> x / y == 0.0)
  {
    var q := x / y;
    assert q * y == x;
    assert q < 0.0 ==> q * y < 0.0;
  }

  lemma Weighted(w: real, lo: real, v: real, hi: real)
    requires w >= 0.0 && (w > 0.0 ==> lo <= v <= hi)
    ensures w * lo <= w * v <= w * hi
  {
    assert w > 0.0 ==> w * (v - lo) >= 0.0 && w * (hi - v) >= 0.0;
  }

  lemma {:induction false} RowMixBetween(c: Cell, pic: Picture, y: int, x0: int, n: nat, lo: real, hi: real)
    requires pic.Valid() && CellArea(c) > 0.0 && Between(c, pic, lo, hi)
    ensures RowShare(c, y, x0, n) >= 0.0
    ensures RowShare(c, y, x0, n) * lo <= RowMix(c, pic, y, x0, n) <= RowShare(c, y, x0, n) * hi
  {
    hide Share, CellArea, Sample, Overlap, Picture.Valid;
    if n > 0 {
      var x := x0 + n - 1;
      RowMixBetween(c, pic, y, x0, n - 1, lo, hi);
      ShareBounds(c, x, y);
      MoreBetween(RowShare(c, y, x0, n - 1), RowMix(c, pic, y, x0, n - 1), Share(c, x, y), Sample(pic, x, y) as real,
                  lo, hi);
    }
  }

  /** One more sample, of weight w and value v. */
  lemma MoreBetween(share: real, mix: real, w: real, v: real, lo: real, hi: real)
    requires share >= 0.0 && share * lo <= mix <= share * hi && w >= 0.0 && (w > 0.0 ==> lo <= v <= hi)
    ensures (share + w) * lo <= mix + w * v <= (share + w) * hi
  {
    Weighted(w, lo, v, hi);
    AddBounds(share, w, lo);
    AddBounds(share, w, hi);
  }

  lemma AddBounds(a: real, b: real, f: real)
    ensures (a + b) * f == a * f + b * f
  {
  }

  lemma {:induction false} TotalMixBetween(c: Cell, pic: Picture, y0: int, m: nat, x0: int, n: nat, lo: real, hi: real)
    requires pic.Valid() && CellArea(c) > 0.0 && Between(c, pic, lo, hi)
    ensures TotalShare(c, y0, m, x0, n) * lo <= TotalMix(c, pic, y0, m, x0, n) <= TotalShare(c, y0, m, x0, n) * hi
  {
    hide RowMix, RowShare, Between, CellArea, Picture.Valid;
    if m > 0 {
      TotalMixBetween(c, pic, y0, m - 1, x0, n, lo, hi);
      RowMixBetween(c, pic, y0 + m - 1, x0, n, lo, hi);
      AddBounds(TotalShare(c, y0, m - 1, x0, n), RowShare(c, y0 + m - 1, x0, n), lo);
      AddBounds(TotalShare(c, y0, m - 1, x0, n), RowShare(c, y0 + m - 1, x0, n), hi);
    }
  }

  /** The result of the area kernel lies between the smallest and the largest of the samples it touches and black. */
  lemma AreaBetween(c: Cell, pic: Picture, lo: real, hi: real)
    requires c.Valid() && pic.Valid() && Between(c, pic, lo, hi)
    ensures CellArea(c) > 0.0 && lo <= AreaValue(c, pic) <= hi
  {
    hide CellArea, TotalShare, TotalMix, FirstPixel, PixelCount;
    CoveredBounds(c, pic);
    var s := Covered(c, pic);
    TotalMixBetween(c, pic, FirstPixel(c.top), PixelCount(c.top, c.bottom, pic.height), FirstPixel(c.left),
                    PixelCount(c.left, c.right, pic.width), lo, hi);
    MixBetween(s, Mixed(c, pic), pic.black as real, lo, hi);
  }

  /** A mix of parts that add up to one. */
  lemma MixBetween(s: real, mixed: real, black: real, lo: real, hi: real)
    requires 0.0 <= s <= 1.0 && s * lo <= mixed <= s * hi && lo <= black <= hi
    ensures lo <= mixed + (1.0 - s) * black <= hi
  {
    Weighted(1.0 - s, lo, black, hi);
    AddBounds(s, 1.0 - s, lo);
    AddBounds(s, 1.0 - s, hi);
  }

  /** And so does what is stored. */
  lemma StoredBetween(c: Cell, pic: Picture, lo: int, hi: int)
    requires c.Valid() && pic.Valid() && Between(c, pic, lo as real, hi as real) && 0 <= lo && hi <= pic.maxv
    ensures CellArea(c) > 0.0 && lo <= RoundComp(AreaValue(c, pic), pic.maxv) <= hi
  {
    hide AreaValue, Between, CellArea;
    AreaBetween(c, pic, lo as real, hi as real);
    RoundBetween(AreaValue(c, pic), pic.maxv, lo, hi);
  }

  lemma RoundBetween(v: real, maxv: int, lo: int, hi: int)
    requires 0 <= lo && hi <= maxv && lo as real <= v <= hi as real
    ensures lo <= RoundComp(v, maxv) <= hi
  {
  }

  // ----- A plane

  datatype Simple = Point | AreaKernel

  function CellOf(ax: Axis, ay: Axis, i: nat, j: nat): Cell {
    Cell(ax.origin + i as real * ax.scale, ax.origin + (i as real + 1.0) * ax.scale,
         ay.origin + j as real * ay.scale, ay.origin + (j as real + 1.0) * ay.scale)
  }

  lemma CellValid(ax: Axis, ay: Axis, i: nat, j: nat)
    requires ax.scale > 0.0 && ay.scale > 0.0
    ensures CellOf(ax, ay, i, j).Valid() && CellArea(CellOf(ax, ay, i, j)) > 0.0
  {
    assert (i as real + 1.0) * ax.scale == i as real * ax.scale + ax.scale;
    assert (j as real + 1.0) * ay.scale == j as real * ay.scale + ay.scale;
    var c := CellOf(ax, ay, i, j);
    AreaPositive(c, c.right - c.left, c.bottom - c.top);
  }

  /** Where cell i along an axis starts. */
  function Edge(a: Axis, i: nat): real {
    a.origin + i as real * a.scale
  }

  lemma EdgesGrow(a: Axis, i: nat)
    requires a.scale > 0.0
    ensures a.origin == Edge(a, 0) <= Edge(a, i) <= Edge(a, i + 1) == Edge(a, i) + a.scale
  {
    assert (i + 1) as real * a.scale == i as real * a.scale + a.scale;
    assert i as real * a.scale >= 0.0;
  }

  /** The cells lie side by side, from the first edge of the window to its last, each about its centre. */
  lemma CellsTile(origin: real, length: real, sub: int, n: int, support: real, ay: Axis, i: nat, j: nat)
    requires sub >= 1 && i < n
    ensures var ax := AxisOf(origin, length, sub, n, support);
            && CellOf(ax, ay, i, j) == Cell(Edge(ax, i), Edge(ax, i + 1), Edge(ay, j), Edge(ay, j + 1))
            && Edge(ax, 0) * sub as real == origin && Edge(ax, n) * sub as real == origin + length
            && (Edge(ax, i) + Edge(ax, i + 1)) / 2.0 == Centre(ax, i) + 0.5
  {
    AxisParts(origin, length, sub, n, support);
    var ax := AxisOf(origin, length, sub, n, support);
    assert (i as real + 1.0) * ax.scale == i as real * ax.scale + ax.scale;
    assert Edge(ax, n) * sub as real == ax.origin * sub as real + ax.scale * n as real * sub as real;
  }

  lemma OverlapAdds(a: real, b: real, c: real, k: int)
    requires a <= b <= c
    ensures Overlap(a, b, k) + Overlap(b, c, k) == Overlap(a, c, k)
  {
  }

  /** How much of source pixel k the first n cells along an axis take. */
  ghost function Taken(a: Axis, k: int, n: nat): real {
    if n == 0 then 0.0 else Taken(a, k, n - 1) + Overlap(Edge(a, n - 1), Edge(a, n), k)
  }

  /** Source pixels are shared out: of each the cells together take what lies in the window, and nothing twice. */
  lemma {:induction false} SharedOut(a: Axis, k: int, n: nat)
    requires a.scale > 0.0
    ensures Taken(a, k, n) == Overlap(Edge(a, 0), Edge(a, n), k)
  {
    hide Edge;
    if n > 0 {
      SharedOut(a, k, n - 1);
      EdgesGrow(a, n - 1);
      OverlapAdds(Edge(a, 0), Edge(a, n - 1), Edge(a, n), k);
    }
  }

  /** The nearest sample along one direction, clamped to the picture. */
  function Nearest(s: real, n: int): int {
    var k := (s + 0.5).Floor;
    if k < 0 then (if 0 >= n then n - 1 else 0) else if k >= n then n - 1 else k
  }

  /** A centre is inside the picture exactly when no more than half a pixel separates it from the sample taken. */
  lemma NearestIs(s: real, n: int)
    requires n >= 1
    ensures 0 <= Nearest(s, n) < n
    ensures Inside(s, n) <==> Nearest(s, n) as real - 0.5 <= s < Nearest(s, n) as real + 0.5
  {
    FloorCeil(s + 0.5);
  }

  ghost function SimpleValue(kind: Simple, ax: Axis, ay: Axis, i: nat, j: nat, pic: Picture): int
    requires pic.Valid() && ax.scale > 0.0 && ay.scale > 0.0
  {
    match kind
    case Point => RoundComp(Sample(pic, Nearest(Centre(ax, i), pic.width), Nearest(Centre(ay, j), pic.height)) as real,
                            pic.maxv)
    case AreaKernel =>
      CellValid(ax, ay, i, j);
      RoundComp(AreaValue(CellOf(ax, ay, i, j), pic), pic.maxv)
  }

  method SimpleSample(kind: Simple, ax: Axis, ay: Axis, i: nat, j: nat, pic: Picture) returns (v: int)
    requires pic.Valid() && pic.width >= 1 && pic.height >= 1 && ax.scale > 0.0 && ay.scale > 0.0
    ensures v == SimpleValue(kind, ax, ay, i, j, pic)
  {
    hide CellArea, Centre, RoundComp, CellOf, AreaValue;
    match kind {
      case Point =>
        NearestIs(Centre(ax, i), pic.width);
        NearestIs(Centre(ay, j), pic.height);
        var ix, iy := Nearest(Centre(ax, i), pic.width), Nearest(Centre(ay, j), pic.height);
        return RoundComp(pic.samples[iy][ix] as real, pic.maxv);
      case AreaKernel =>
        CellValid(ax, ay, i, j);
        var acc := AreaSample(pic, CellOf(ax, ay, i, j));
        return RoundComp(acc, pic.maxv);
    }
  }

  /** The loops of mm_resample_window for one plane and the point or area kernel. */
  method ResamplePlane(dst: array2<int>, pic: Picture, win: Window, subX: int, subY: int, kind: Simple)
    returns (ghost ax: Axis, ghost ay: Axis)
    requires pic.Valid() && win.Valid() && subX >= 1 && subY >= 1 && pic.width >= 1 && pic.height >= 1
    requires dst.Length0 == PlaneSize(win.dstH, subY) >= 1 && dst.Length1 == PlaneSize(win.dstW, subX) >= 1
    modifies dst
    ensures ax == AxisOf(win.x, win.w, subX, dst.Length1, 1.0) && ay == AxisOf(win.y, win.h, subY, dst.Length0, 1.0)
    ensures ax.scale > 0.0 && ay.scale > 0.0
    ensures forall j, i :: 0 <= j < dst.Length0 && 0 <= i < dst.Length1 ==>
              dst[j, i] == if KeepsX(win, subX, i) && KeepsY(win, subY, j) then SimpleValue(kind, ax, ay, i, j, pic)
                           else old(dst[j, i])
  {
    hide PlaneSize, KeepsX, KeepsY, SimpleValue, CoversAll, AxisOf, Picture.Valid;
    var xs, ys := AxisOf(win.x, win.w, subX, dst.Length1, 1.0), AxisOf(win.y, win.h, subY, dst.Length0, 1.0);
    ax, ay := xs, ys;
    WindowScales(win, subX, subY, dst.Length1, dst.Length0);
    var allInside := CoversAll(win);
    var j := 0;
    while j < dst.Length0
      invariant 0 <= j <= dst.Length0
      invariant forall v, u :: 0 <= v < dst.Length0 && 0 <= u < dst.Length1 ==>
                  dst[v, u] == if v < j && KeepsX(win, subX, u) &&
                  KeepsY(win, subY, v) then SimpleValue(kind, xs, ys, u, v, pic)
                               else old(dst[v, u])
    {
      var i := 0;
      while i < dst.Length1
        invariant 0 <= i <= dst.Length1
        invariant forall v, u :: 0 <= v < dst.Length0 && 0 <= u < dst.Length1 ==>
                    dst[v, u] == if (v < j || (v == j && u < i)) && KeepsX(win, subX, u) && KeepsY(win, subY, v)
                                 then SimpleValue(kind, xs, ys, u, v, pic) else old(dst[v, u])
      {
        var keep := true;
        if !allInside {
          keep := KeepPixel(win, subX, subY, i, j);
        } else {
          CoveredIsKept(win, subX, subY, i, j);
        }
        if keep {
          var value := SimpleSample(kind, xs, ys, i, j, pic);
          dst[j, i] := value;
        }
        i := i + 1;
      }
      j := j + 1;
    }
  }

  lemma WindowScales(win: Window, subX: int, subY: int, n: int, m: int)
    requires win.Valid() && subX >= 1 && subY >= 1 && n >= 1 && m >= 1
    ensures AxisOf(win.x, win.w, subX, n, 1.0).scale > 0.0 && AxisOf(win.y, win.h, subY, m, 1.0).scale > 0.0
  {
    hide AxisOf;
    AxisValid(win.x, win.w, subX, n, 1.0);
    AxisValid(win.y, win.h, subY, m, 1.0);
  }
}
