/**
 * What the separable filter of av/sample_window.go computes: the two passes, and the direct two-dimensional
 * weighted sum they are equal to.
 */
module Direct {
  import opened Common
  import opened Kernels
  import opened Spans

  /** One component plane of the source. */
  datatype Picture = Picture(width: nat, height: nat, samples: seq<seq<int>>, black: int, maxv: int) {
    ghost predicate Valid() {
      && |samples| == height && (forall y :: 0 <= y < height ==> |samples[y]| == width)
      && 0 <= black <= maxv
    }
  }

  /** A sample, and digital black outside the picture. */
  function Sample(pic: Picture, x: int, y: int): int
    requires pic.Valid()
  {
    if x < 0 || y < 0 || x >= pic.width || y >= pic.height then pic.black else pic.samples[y][x]
  }

  const HALF_UP := 0.5000000001

  /** mm_round_comp. */
  function RoundComp(v: real, maxv: int): int {
    var c := if v < 0.0 then 0.0 else if v > maxv as real then maxv as real else v;
    (c + HALF_UP).Floor
  }

  /** Rounding stays in range and is off by no more than a half (and the bias). */
  lemma RoundCompNear(v: real, maxv: int)
    requires maxv >= 0
    ensures 0 <= RoundComp(v, maxv) <= maxv
    ensures 0.0 <= v <= maxv as real ==> v - 0.5 < RoundComp(v, maxv) as real <= v + HALF_UP
  {
  }

  /** Values out of range become the nearer bound, and rounding keeps the order. */
  lemma RoundCompClamps(v: real, w: real, maxv: int)
    requires maxv >= 0
    ensures v <= 0.0 ==> RoundComp(v, maxv) == 0
    ensures v >= maxv as real ==> RoundComp(v, maxv) == maxv
    ensures v <= w ==> RoundComp(v, maxv) <= RoundComp(w, maxv)
  {
  }

  lemma RoundCompExact(k: int, maxv: int)
    requires 0 <= k <= maxv
    ensures RoundComp(k as real, maxv) == k
  {
  }

  // ----- The direct sum

  /** Row ky of the two-dimensional sum: n products of both weights and a sample. */
  ghost function RowOfSum(kernel: Kernel, ax: Axis, ay: Axis, i: nat, j: nat, pic: Picture, ky: int, kx: int, n: nat)
    : real
    requires pic.Valid()
  {
    if n == 0 then 0.0
    else RowOfSum(kernel, ax, ay, i, j, pic, ky, kx, n - 1)
         + Weight(kernel, ay, j, ky) * Weight(kernel, ax, i, kx + n - 1) * (Sample(pic, kx + n - 1, ky) as real)
  }

  /** The sum over nx columns from kx on and ny rows from ky on. */
  ghost function DirectSum(kernel: Kernel, ax: Axis, ay: Axis, i: nat, j: nat, pic: Picture, ky: int, ny: nat, kx: int,
                           nx: nat): real
    requires pic.Valid()
  {
    if ny == 0 then 0.0
    else DirectSum(kernel, ax, ay, i, j, pic, ky, ny - 1, kx, nx)
         + RowOfSum(kernel, ax, ay, i, j, pic, ky + ny - 1, kx, nx)
  }

  // ----- The two passes

  /** n taps of one source row. */
  ghost function RowSum(kernel: Kernel, a: Axis, i: nat, pic: Picture, y: int, k0: int, n: nat): real
    requires pic.Valid()
  {
    if n == 0 then 0.0
    else RowSum(kernel, a, i, pic, y, k0, n - 1)
         + Weight(kernel, a, i, k0 + n - 1) * (Sample(pic, k0 + n - 1, y) as real)
  }

  /** The first pass: column i of row y. */
  ghost function HorizValue(kernel: Kernel, ax: Axis, i: nat, pic: Picture, y: int): real
    requires pic.Valid() && ax.Radius() >= 0.0
  {
    var sp := SpanOf(kernel, ax, i);
    if sp.skip || sp.norm == 0.0 then pic.black as real
    else RowSum(kernel, ax, i, pic, y, sp.k0, sp.n) / sp.norm
  }

  /** What the second pass finds for row k: the rows row0..row1 were filtered, the others count as black. */
  ghost function Buffered(kernel: Kernel, ax: Axis, i: nat, pic: Picture, row0: int, row1: int, k: int): real
    requires pic.Valid() && ax.Radius() >= 0.0
  {
    if row0 <= k <= row1 then HorizValue(kernel, ax, i, pic, k) else pic.black as real
  }

  ghost function ColumnSum(kernel: Kernel, ax: Axis, ay: Axis, i: nat, j: nat, pic: Picture, row0: int, row1: int,
                           k0: int, n: nat): real
    requires pic.Valid() && ax.Radius() >= 0.0
  {
    if n == 0 then 0.0
    else ColumnSum(kernel, ax, ay, i, j, pic, row0, row1, k0, n - 1)
         + Weight(kernel, ay, j, k0 + n - 1) * Buffered(kernel, ax, i, pic, row0, row1, k0 + n - 1)
  }

  /** The second pass: output sample (i, j). */
  ghost function VertValue(kernel: Kernel, ax: Axis, ay: Axis, i: nat, j: nat, pic: Picture, row0: int, row1: int): int
    requires pic.Valid() && ax.Radius() >= 0.0 && ay.Radius() >= 0.0
  {
    var sp := SpanOf(kernel, ay, j);
    if sp.norm == 0.0 then pic.black
    else RoundComp(ColumnSum(kernel, ax, ay, i, j, pic, row0, row1, sp.k0, sp.n) / sp.norm, pic.maxv)
  }

  // ----- Which rows are filtered

  /** The rows of the source that some output row can reach; none is row 0 to row -1. */
  function RowRange(ay: Axis, dh: nat, sh: nat): (int, int)
    requires dh > 0
  {
    var rad, sy0, sy1 := ay.Radius(), Centre(ay, 0), Centre(ay, dh - 1);
    if sy1 + rad >= 0.0 && sy0 - rad < sh as real then
      var lo := if sy0 - rad < 0.0 then 0.0 else sy0 - rad;
      var hi := if sy1 + rad > sh as real - 1.0 then sh as real - 1.0 else sy1 + rad;
      (Max(lo.Floor, 0), if Ceil(hi) >= sh then sh - 1 else Ceil(hi))
    else (0, -1)
  }

  lemma CentresGrow(a: Axis, i: nat, j: nat)
    requires a.scale > 0.0 && i <= j
    ensures Centre(a, i) <= Centre(a, j)
  {
    var x, y := i as real + 0.5, j as real + 0.5;
    assert (y - x) * a.scale >= 0.0;
  }

  /** A source row outside the range is a whole radius or more away from every output row. */
  lemma RowOutOfReach(ay: Axis, dh: nat, sh: nat, j: nat, k: int)
    requires ay.Valid() && j < dh && 0 <= k < sh
    requires var (row0, row1) := RowRange(ay, dh, sh); k < row0 || k > row1
    ensures Abs(Centre(ay, j) - k as real) >= ay.Radius()
  {
    hide Centre, Axis.Radius;
    CentresGrow(ay, 0, j);
    CentresGrow(ay, j, dh - 1);
    var rad, sy0, sy1 := ay.Radius(), Centre(ay, 0), Centre(ay, dh - 1);
    FloorCeil(sy0 - rad);
    FloorCeil(sy1 + rad);
    FloorCeil(sh as real - 1.0);
  }

  /** So it has no weight there: leaving it out loses nothing. */
  lemma RowWithoutWeight(kernel: Kernel, ay: Axis, dh: nat, sh: nat, j: nat, k: int)
    requires ay.Valid() && Vanishes(kernel, ay.support) && j < dh && 0 <= k < sh
    requires var (row0, row1) := RowRange(ay, dh, sh); k < row0 || k > row1
    ensures Weight(kernel, ay, j, k) == 0.0
  {
    hide Centre, RowRange;
    RowOutOfReach(ay, dh, sh, j, k);
    ScaledVanishes(kernel, ay.support, ay.stretch, Centre(ay, j) - k as real);
  }

  /** The range lies inside the picture. */
  lemma RowRangeInside(ay: Axis, dh: nat, sh: nat)
    requires ay.Valid() && dh > 0
    ensures var (row0, row1) := RowRange(ay, dh, sh); 0 <= row0 && row1 < sh
  {
    hide Centre;
    FloorCeil(sh as real - 1.0);
  }

  // ----- The two passes are the direct sum

  lemma {:induction false} RowFactors(kernel: Kernel, ax: Axis, ay: Axis, i: nat, j: nat, pic: Picture, ky: int,
                                      kx: int, n: nat)
    requires pic.Valid()
    ensures RowOfSum(kernel, ax, ay, i, j, pic, ky, kx, n)
         == Weight(kernel, ay, j, ky) * RowSum(kernel, ax, i, pic, ky, kx, n)
  {
    hide Weight, Sample, Picture.Valid;
    if n > 0 {
      RowFactors(kernel, ax, ay, i, j, pic, ky, kx, n - 1);
      Distribute(Weight(kernel, ay, j, ky), RowSum(kernel, ax, i, pic, ky, kx, n - 1),
                 Weight(kernel, ax, i, kx + n - 1),
                 Sample(pic, kx + n - 1, ky) as real);
    }
  }

  lemma Distribute(w: real, r: real, v: real, s: real)
    ensures w * r + w * v * s == w * (r + v * s)
  {
  }

  /** A row outside the picture is black throughout. */
  lemma {:induction false} BlackRow(kernel: Kernel, a: Axis, i: nat, pic: Picture, y: int, k0: int, n: nat)
    requires pic.Valid() && (y < 0 || y >= pic.height)
    ensures RowSum(kernel, a, i, pic, y, k0, n) == (pic.black as real) * WeightSum(kernel, a, i, k0, n)
  {
    hide Weight;
    if n > 0 {
      BlackRow(kernel, a, i, pic, y, k0, n - 1);
      Distribute(pic.black as real, WeightSum(kernel, a, i, k0, n - 1), Weight(kernel, a, i, k0 + n - 1), 1.0);
    }
  }

  lemma DivideTerm(w: real, r: real, norm: real)
    requires norm != 0.0
    ensures w * (r / norm) == w * r / norm
  {
    var q := r / norm;
    assert q * norm == r;
    assert w * r == (w * q) * norm;
  }

  lemma DivideBack(c: real, b: real, norm: real)
    requires norm != 0.0 && c == b * norm
    ensures c / norm == b
  {
  }

  lemma DivideSum(a: real, b: real, norm: real)
    requires norm != 0.0
    ensures (a + b) / norm == a / norm + b / norm
  {
  }

  /** A filtered row, weighted, is the row of the direct sum over the norm of the first pass. */
  lemma FilteredTerm(kernel: Kernel, ax: Axis, ay: Axis, i: nat, j: nat, pic: Picture, k: int)
    requires pic.Valid() && ax.Radius() >= 0.0
    requires var sp := SpanOf(kernel, ax, i); !sp.skip && sp.norm != 0.0
    ensures var sp := SpanOf(kernel, ax, i);
            Weight(kernel, ay, j, k) * HorizValue(kernel, ax, i, pic, k)
            == RowOfSum(kernel, ax, ay, i, j, pic, k, sp.k0, sp.n) / sp.norm
  {
    hide Weight, RowSum, RowOfSum, Axis.Radius, Sample, Picture.Valid, SpanOf;
    var sp := SpanOf(kernel, ax, i);
    RowFactors(kernel, ax, ay, i, j, pic, k, sp.k0, sp.n);
    DivideTerm(Weight(kernel, ay, j, k), RowSum(kernel, ax, i, pic, k, sp.k0, sp.n), sp.norm);
  }

  /** A row outside the picture counts as black, which is what filtering it would give. */
  lemma BlackTerm(kernel: Kernel, ax: Axis, i: nat, pic: Picture, k: int)
    requires pic.Valid() && ax.Radius() >= 0.0 && (k < 0 || k >= pic.height)
    requires var sp := SpanOf(kernel, ax, i); !sp.skip && sp.norm != 0.0
    ensures HorizValue(kernel, ax, i, pic, k) == pic.black as real
  {
    hide Weight, RowSum, WeightSum, Axis.Radius, Sample, Picture.Valid;
    var sp := SpanOf(kernel, ax, i);
    BlackRow(kernel, ax, i, pic, k, sp.k0, sp.n);
    SpanNorm(kernel, ax, i);
    DivideBack(RowSum(kernel, ax, i, pic, k, sp.k0, sp.n), pic.black as real, sp.norm);
  }

  /** A row of the second pass, weighted, is the row of the direct sum over the norm of the first. */
  lemma TermIsRow(kernel: Kernel, ax: Axis, ay: Axis, i: nat, j: nat, pic: Picture, dh: nat, k: int)
    requires pic.Valid() && ax.Valid() && ay.Valid() && ax.Radius() >= 0.0 && Vanishes(kernel, ay.support) && j < dh
    requires var sp := SpanOf(kernel, ax, i); !sp.skip && sp.norm != 0.0
    ensures var sp := SpanOf(kernel, ax, i);
            var (row0, row1) := RowRange(ay, dh, pic.height);
            Weight(kernel, ay, j, k) * Buffered(kernel, ax, i, pic, row0, row1, k)
            == RowOfSum(kernel, ax, ay, i, j, pic, k, sp.k0, sp.n) / sp.norm
  {
    hide Weight, RowRange, Axis.Valid, Axis.Radius, Sample, Picture.Valid, Vanishes, SpanOf, HorizValue, RowOfSum;
    var (row0, row1) := RowRange(ay, dh, pic.height);
    FilteredTerm(kernel, ax, ay, i, j, pic, k);
    if k < row0 || k > row1 {
      if 0 <= k < pic.height {
        RowWithoutWeight(kernel, ay, dh, pic.height, j, k);
      } else {
        BlackTerm(kernel, ax, i, pic, k);
      }
    }
  }

  lemma SpanNorm(kernel: Kernel, a: Axis, i: nat)
    requires a.Radius() >= 0.0
    ensures var sp := SpanOf(kernel, a, i); sp.norm == WeightSum(kernel, a, i, sp.k0, sp.n)
  {
  }

  lemma {:induction false} ColumnIsDirect(kernel: Kernel, ax: Axis, ay: Axis, i: nat, j: nat, pic: Picture, dh: nat,
                                          k0: int, n: nat)
    requires pic.Valid() && ax.Valid() && ay.Valid() && ax.Radius() >= 0.0 && Vanishes(kernel, ay.support) && j < dh
    requires var sp := SpanOf(kernel, ax, i); !sp.skip && sp.norm != 0.0
    ensures var sp := SpanOf(kernel, ax, i);
            var (row0, row1) := RowRange(ay, dh, pic.height);
            ColumnSum(kernel, ax, ay, i, j, pic, row0, row1, k0, n)
            == DirectSum(kernel, ax, ay, i, j, pic, k0, n, sp.k0, sp.n) / sp.norm
  {
    hide Weight, RowRange, Axis.Valid, Axis.Radius, Sample, Picture.Valid, Vanishes, SpanOf, Buffered, RowOfSum;
    var sp := SpanOf(kernel, ax, i);
    if n > 0 {
      ColumnIsDirect(kernel, ax, ay, i, j, pic, dh, k0, n - 1);
      TermIsRow(kernel, ax, ay, i, j, pic, dh, k0 + n - 1);
      DivideSum(DirectSum(kernel, ax, ay, i, j, pic, k0, n - 1, sp.k0, sp.n),
                RowOfSum(kernel, ax, ay, i, j, pic, k0 + n - 1, sp.k0, sp.n), sp.norm);
    }
  }

  /** Without a usable span across, every row counts as black. */
  lemma {:induction false} BlackColumn(kernel: Kernel, ax: Axis, ay: Axis, i: nat, j: nat, pic: Picture, row0: int,
                                       row1: int, k0: int, n: nat)
    requires pic.Valid() && ax.Radius() >= 0.0
    requires var sp := SpanOf(kernel, ax, i); sp.skip || sp.norm == 0.0
    ensures ColumnSum(kernel, ax, ay, i, j, pic, row0, row1, k0, n)
         == (pic.black as real) * WeightSum(kernel, ay, j, k0, n)
  {
    hide Weight, Axis.Radius, Sample, Picture.Valid, SpanOf;
    if n > 0 {
      BlackColumn(kernel, ax, ay, i, j, pic, row0, row1, k0, n - 1);
      Distribute(pic.black as real, WeightSum(kernel, ay, j, k0, n - 1), Weight(kernel, ay, j, k0 + n - 1), 1.0);
    }
  }

  /** The direct definition of output sample (i, j): the rounded, normalised two-dimensional sum. */
  ghost function DirectValue(kernel: Kernel, ax: Axis, ay: Axis, i: nat, j: nat, pic: Picture): int
    requires pic.Valid() && ax.Radius() >= 0.0 && ay.Radius() >= 0.0
  {
    var across, down := SpanOf(kernel, ax, i), SpanOf(kernel, ay, j);
    if across.norm == 0.0 || down.norm == 0.0 then pic.black
    else RoundComp(Quotient(DirectSum(kernel, ax, ay, i, j, pic, down.k0, down.n, across.k0, across.n), across.norm,
                            down.norm), pic.maxv)
  }

  /** A sum over the product of the two norms. */
  function Quotient(d: real, a: real, b: real): real
    requires a != 0.0 && b != 0.0
  {
    NonzeroProduct(a, b);
    d / (a * b)
  }

  lemma NonzeroProduct(a: real, b: real)
    requires a != 0.0 && b != 0.0
    ensures a * b != 0.0
  {
  }

  lemma DivideTwice(d: real, a: real, b: real)
    requires a != 0.0 && b != 0.0
    ensures d / a / b == Quotient(d, a, b)
  {
    var q := d / a / b;
    assert q * b == d / a;
    assert d / a * a == d;
    assert q * (a * b) == (q * b) * a;
    assert a * b != 0.0;
  }

  /**
   * The separable filter stores the rounded direct sum, whatever the kernel, if only it vanishes beyond its support.
   */
  lemma TwoPassIsDirect(kernel: Kernel, ax: Axis, ay: Axis, i: nat, j: nat, pic: Picture, dh: nat)
    requires pic.Valid() && ax.Valid() && ay.Valid() && ax.Radius() >= 0.0 && ay.Radius() >= 0.0
    requires Vanishes(kernel, ay.support) && j < dh
    ensures var (row0, row1) := RowRange(ay, dh, pic.height);
            VertValue(kernel, ax, ay, i, j, pic, row0, row1) == DirectValue(kernel, ax, ay, i, j, pic)
  {
    hide Weight, RowRange, Axis.Valid, Axis.Radius, Sample, Vanishes, SpanOf, RoundComp, ColumnSum, DirectSum, Quotient;
    var (row0, row1) := RowRange(ay, dh, pic.height);
    var across, down := SpanOf(kernel, ax, i), SpanOf(kernel, ay, j);
    SkipNorm(kernel, ax, i);
    if down.norm != 0.0 {
      if across.norm == 0.0 {
        BlackColumn(kernel, ax, ay, i, j, pic, row0, row1, down.k0, down.n);
        SpanNorm(kernel, ay, j);
        DivideBack(ColumnSum(kernel, ax, ay, i, j, pic, row0, row1, down.k0, down.n), pic.black as real, down.norm);
        RoundCompExact(pic.black, pic.maxv);
      } else {
        ColumnIsDirect(kernel, ax, ay, i, j, pic, dh, down.k0, down.n);
        var d := DirectSum(kernel, ax, ay, i, j, pic, down.k0, down.n, across.k0, across.n);
        DivideTwice(d, across.norm, down.norm);
      }
    }
  }

  lemma SkipNorm(kernel: Kernel, a: Axis, i: nat)
    requires a.Radius() >= 0.0
    ensures var sp := SpanOf(kernel, a, i); sp.skip ==> sp.norm == 0.0
  {
  }

  // ----- The sum does not depend on the rectangle it is taken over

  lemma {:induction false} WeightsSplit(kernel: Kernel, a: Axis, i: nat, k: int, m: nat, n: nat)
    ensures WeightSum(kernel, a, i, k, m + n) == WeightSum(kernel, a, i, k, m) + WeightSum(kernel, a, i, k + m, n)
    decreases n
  {
    hide Weight;
    if n > 0 {
      WeightsSplit(kernel, a, i, k, m, n - 1);
      assert k + m + (n - 1) == k + (m + n) - 1;
    }
  }

  lemma {:induction false} RowSplits(kernel: Kernel, ax: Axis, ay: Axis, i: nat, j: nat, pic: Picture, ky: int, k: int,
                                     m: nat, n: nat)
    requires pic.Valid()
    ensures RowOfSum(kernel, ax, ay, i, j, pic, ky, k, m + n)
         == RowOfSum(kernel, ax, ay, i, j, pic, ky, k, m) + RowOfSum(kernel, ax, ay, i, j, pic, ky, k + m, n)
    decreases n
  {
    hide Weight, Sample;
    if n > 0 {
      RowSplits(kernel, ax, ay, i, j, pic, ky, k, m, n - 1);
      assert k + m + (n - 1) == k + (m + n) - 1;
    }
  }

  lemma {:induction false} DirectSplits(kernel: Kernel, ax: Axis, ay: Axis, i: nat, j: nat, pic: Picture, k: int,
                                        m: nat, n: nat, kx: int, nx: nat)
    requires pic.Valid()
    ensures DirectSum(kernel, ax, ay, i, j, pic, k, m + n, kx, nx)
         == DirectSum(kernel, ax, ay, i, j, pic, k, m, kx, nx) + DirectSum(kernel, ax, ay, i, j, pic, k + m, n, kx, nx)
    decreases n
  {
    hide RowOfSum;
    if n > 0 {
      DirectSplits(kernel, ax, ay, i, j, pic, k, m, n - 1, kx, nx);
      assert k + m + (n - 1) == k + (m + n) - 1;
    }
  }

  /** No tap in n from k on has weight. */
  ghost predicate Weightless(kernel: Kernel, a: Axis, i: nat, k: int, n: nat) {
    forall t :: k <= t < k + n ==> Weight(kernel, a, i, t) == 0.0
  }

  lemma {:induction false} NoWeight(kernel: Kernel, a: Axis, i: nat, k: int, n: nat)
    requires Weightless(kernel, a, i, k, n)
    ensures WeightSum(kernel, a, i, k, n) == 0.0
  {
    hide Weight;
    if n > 0 {
      NoWeight(kernel, a, i, k, n - 1);
    }
  }

  lemma {:induction false} NoWeightAcross(kernel: Kernel, ax: Axis, ay: Axis, i: nat, j: nat, pic: Picture, ky: int,
                                          k: int, n: nat)
    requires pic.Valid() && (Weightless(kernel, ax, i, k, n) || Weight(kernel, ay, j, ky) == 0.0)
    ensures RowOfSum(kernel, ax, ay, i, j, pic, ky, k, n) == 0.0
  {
    hide Weight, Sample;
    if n > 0 {
      NoWeightAcross(kernel, ax, ay, i, j, pic, ky, k, n - 1);
      ZeroProduct(Weight(kernel, ay, j, ky), Weight(kernel, ax, i, k + n - 1), Sample(pic, k + n - 1, ky) as real);
    }
  }

  lemma ZeroProduct(a: real, b: real, c: real)
    requires a == 0.0 || b == 0.0
    ensures a * b * c == 0.0
  {
  }

  lemma {:induction false} NoWeightDown(kernel: Kernel, ax: Axis, ay: Axis, i: nat, j: nat, pic: Picture, k: int,
                                        n: nat, kx: int, nx: nat)
    requires pic.Valid() && Weightless(kernel, ay, j, k, n)
    ensures DirectSum(kernel, ax, ay, i, j, pic, k, n, kx, nx) == 0.0
  {
    hide Weight, RowOfSum;
    if n > 0 {
      NoWeightDown(kernel, ax, ay, i, j, pic, k, n - 1, kx, nx);
      NoWeightAcross(kernel, ax, ay, i, j, pic, k + n - 1, kx, nx);
    }
  }

  /** n taps from k on take in the whole span of output sample i. */
  ghost predicate TakesIn(a: Axis, i: nat, k: int, n: nat) {
    k <= FirstTap(a, i) && FirstTap(a, i) + TapCount(a, i) <= k + n && TapCount(a, i) >= 0
  }

  lemma AroundSpan(kernel: Kernel, a: Axis, i: nat, k: int, n: nat)
    requires a.Valid() && Vanishes(kernel, a.support) && TakesIn(a, i, k, n)
    ensures var k0, taps := FirstTap(a, i), TapCount(a, i);
            && Weightless(kernel, a, i, k, k0 - k)
            && Weightless(kernel, a, i, k0 + taps, k + n - k0 - taps)
  {
    hide Weight, Centre, Axis.Valid, Vanishes, FirstTap, TapCount;
    forall t | t < FirstTap(a, i) || t >= FirstTap(a, i) + TapCount(a, i)
      ensures Weight(kernel, a, i, t) == 0.0
    {
      OutsideSpan(kernel, a, i, t);
    }
  }

  lemma NormOverAny(kernel: Kernel, a: Axis, i: nat, k: int, n: nat)
    requires a.Valid() && Vanishes(kernel, a.support) && TakesIn(a, i, k, n)
    ensures WeightSum(kernel, a, i, k, n) == WeightSum(kernel, a, i, FirstTap(a, i), TapCount(a, i))
  {
    hide WeightSum, Weightless, Vanishes, Axis.Valid, FirstTap, TapCount;
    var k0, taps := FirstTap(a, i), TapCount(a, i);
    AroundSpan(kernel, a, i, k, n);
    WeightsSplit(kernel, a, i, k, k0 - k, n - (k0 - k));
    WeightsSplit(kernel, a, i, k0, taps, k + n - k0 - taps);
    NoWeight(kernel, a, i, k, k0 - k);
    NoWeight(kernel, a, i, k0 + taps, k + n - k0 - taps);
  }

  lemma RowOverAny(kernel: Kernel, ax: Axis, ay: Axis, i: nat, j: nat, pic: Picture, ky: int, k: int, n: nat)
    requires pic.Valid() && ax.Valid() && Vanishes(kernel, ax.support) && TakesIn(ax, i, k, n)
    ensures RowOfSum(kernel, ax, ay, i, j, pic, ky, k, n)
         == RowOfSum(kernel, ax, ay, i, j, pic, ky, FirstTap(ax, i), TapCount(ax, i))
  {
    hide RowOfSum, Weightless, Vanishes, Axis.Valid, FirstTap, TapCount, Picture.Valid;
    var k0, taps := FirstTap(ax, i), TapCount(ax, i);
    AroundSpan(kernel, ax, i, k, n);
    RowSplits(kernel, ax, ay, i, j, pic, ky, k, k0 - k, n - (k0 - k));
    RowSplits(kernel, ax, ay, i, j, pic, ky, k0, taps, k + n - k0 - taps);
    NoWeightAcross(kernel, ax, ay, i, j, pic, ky, k, k0 - k);
    NoWeightAcross(kernel, ax, ay, i, j, pic, ky, k0 + taps, k + n - k0 - taps);
  }

  lemma {:induction false} ColumnsOverAny(kernel: Kernel, ax: Axis, ay: Axis, i: nat, j: nat, pic: Picture, ky: int,
                                          ny: nat, k: int, n: nat)
    requires pic.Valid() && ax.Valid() && Vanishes(kernel, ax.support) && TakesIn(ax, i, k, n)
    ensures DirectSum(kernel, ax, ay, i, j, pic, ky, ny, k, n)
         == DirectSum(kernel, ax, ay, i, j, pic, ky, ny, FirstTap(ax, i), TapCount(ax, i))
  {
    hide RowOfSum, Vanishes, Axis.Valid, FirstTap, TapCount, Picture.Valid;
    if ny > 0 {
      ColumnsOverAny(kernel, ax, ay, i, j, pic, ky, ny - 1, k, n);
      RowOverAny(kernel, ax, ay, i, j, pic, ky + ny - 1, k, n);
    }
  }

  /** Any rectangle of taps that takes in both spans gives the same sum and the same norms. */
  lemma DirectOverAny(kernel: Kernel, ax: Axis, ay: Axis, i: nat, j: nat, pic: Picture, ky: int, ny: nat, kx: int,
                      nx: nat)
    requires pic.Valid() && ax.Valid() && ay.Valid() && ax.Radius() >= 0.0 && ay.Radius() >= 0.0
    requires Vanishes(kernel, ax.support) && Vanishes(kernel, ay.support)
    requires TakesIn(ax, i, kx, nx) && TakesIn(ay, j, ky, ny) && !Far(ax, i) && !Far(ay, j)
    ensures var across, down := SpanOf(kernel, ax, i), SpanOf(kernel, ay, j);
            && DirectSum(kernel, ax, ay, i, j, pic, ky, ny, kx, nx)
               == DirectSum(kernel, ax, ay, i, j, pic, down.k0, down.n, across.k0, across.n)
            && WeightSum(kernel, ax, i, kx, nx) == across.norm && WeightSum(kernel, ay, j, ky, ny) == down.norm
  {
    hide DirectSum, WeightSum, Weightless, Vanishes, Axis.Valid, FirstTap, TapCount, Picture.Valid, Axis.Radius, Far;
    var k0, taps := FirstTap(ay, j), TapCount(ay, j);
    NormOverAny(kernel, ax, i, kx, nx);
    NormOverAny(kernel, ay, j, ky, ny);
    ColumnsOverAny(kernel, ax, ay, i, j, pic, ky, ny, kx, nx);
    AroundSpan(kernel, ay, j, ky, ny);
    var x0, xn := FirstTap(ax, i), TapCount(ax, i);
    DirectSplits(kernel, ax, ay, i, j, pic, ky, k0 - ky, ny - (k0 - ky), x0, xn);
    DirectSplits(kernel, ax, ay, i, j, pic, k0, taps, ky + ny - k0 - taps, x0, xn);
    NoWeightDown(kernel, ax, ay, i, j, pic, ky, k0 - ky, x0, xn);
    NoWeightDown(kernel, ax, ay, i, j, pic, k0 + taps, ky + ny - k0 - taps, x0, xn);
  }

  // ----- The norm where nothing is shrunk

  lemma SixTaps(a: Axis, i: nat)
    requires a.Valid() && a.stretch == 1.0 && a.support <= 2.0
    ensures TakesIn(a, i, Centre(a, i).Floor - 2, 6)
  {
    hide Centre;
    var c := Centre(a, i);
    assert a.Radius() == a.support;
    FloorCeil(c - a.support);
    FloorCeil(c + a.support);
  }

  lemma SixWeights(kernel: Kernel, a: Axis, i: nat, f: int)
    ensures WeightSum(kernel, a, i, f - 2, 6)
         == Weight(kernel, a, i, f - 2) + Weight(kernel, a, i, f - 1) + Weight(kernel, a, i, f)
            + Weight(kernel, a, i, f + 1) + Weight(kernel, a, i, f + 2) + Weight(kernel, a, i, f + 3)
  {
    hide Weight;
    var k := f - 2;
    assert WeightSum(kernel, a, i, k, 1) == Weight(kernel, a, i, k);
    assert WeightSum(kernel, a, i, k, 2) == WeightSum(kernel, a, i, k, 1) + Weight(kernel, a, i, k + 1);
    assert WeightSum(kernel, a, i, k, 3) == WeightSum(kernel, a, i, k, 2) + Weight(kernel, a, i, k + 2);
    assert WeightSum(kernel, a, i, k, 4) == WeightSum(kernel, a, i, k, 3) + Weight(kernel, a, i, k + 3);
    assert WeightSum(kernel, a, i, k, 5) == WeightSum(kernel, a, i, k, 4) + Weight(kernel, a, i, k + 4);
  }

  lemma SixKernels(kernel: Kernel, a: Axis, i: nat, f: int, x: real)
    requires a.stretch == 1.0 && Vanishes(kernel, a.support) && a.support <= 2.0
    requires Centre(a, i) - f as real == x && 0.0 <= x < 1.0
    ensures Weight(kernel, a, i, f - 2) == 0.0 == Weight(kernel, a, i, f + 3)
    ensures Weight(kernel, a, i, f - 1) == kernel(x + 1.0) && Weight(kernel, a, i, f) == kernel(x)
    ensures Weight(kernel, a, i, f + 1) == kernel(x - 1.0) && Weight(kernel, a, i, f + 2) == kernel(x - 2.0)
  {
    hide Centre;
    var c := Centre(a, i);
    assert c - (f - 1) as real == x + 1.0 && c - (f + 1) as real == x - 1.0 && c - (f + 2) as real == x - 2.0;
  }

  /** An unstretched kernel that reaches two samples at most weighs the four around its centre. */
  lemma FourTaps(kernel: Kernel, a: Axis, i: nat)
    requires a.Valid() && Vanishes(kernel, a.support) && a.stretch == 1.0 && a.support <= 2.0
    ensures WeightSum(kernel, a, i, FirstTap(a, i), TapCount(a, i))
         == Weighed(kernel, Centre(a, i) - Centre(a, i).Floor as real, (1.0, 1.0, 1.0, 1.0))
  {
    hide Centre, Vanishes, WeightSum, Weight, FirstTap, TapCount;
    var f := Centre(a, i).Floor;
    var x := Centre(a, i) - f as real;
    SixTaps(a, i);
    NormOverAny(kernel, a, i, f - 2, 6);
    SixWeights(kernel, a, i, f);
    SixKernels(kernel, a, i, f, x);
  }

  // ----- An integer window at scale one

  /** Without stretching, a sample centred on source sample c gives it all the weight. */
  lemma OnlyTap(kernel: Kernel, a: Axis, i: nat, c: int)
    requires Interpolates(kernel) && a.stretch == 1.0 && Centre(a, i) == c as real
    ensures Weight(kernel, a, i, c) == 1.0 && forall k: int :: k != c ==> Weight(kernel, a, i, k) == 0.0
  {
    hide Centre;
    assert c as real - c as real == 0.0;
    forall k: int | k != c
      ensures Weight(kernel, a, i, k) == 0.0
    {
      assert kernel(Pixels(c - k)) == 0.0;
      assert c as real - k as real == (c - k) as real;
    }
  }

  lemma {:induction false} TapWeight(kernel: Kernel, a: Axis, i: nat, c: int, k: int, n: nat)
    requires Interpolates(kernel) && a.stretch == 1.0 && Centre(a, i) == c as real
    ensures WeightSum(kernel, a, i, k, n) == if k <= c < k + n then 1.0 else 0.0
  {
    hide Weight, Centre, Interpolates;
    if n > 0 {
      TapWeight(kernel, a, i, c, k, n - 1);
      OnlyTap(kernel, a, i, c);
    }
  }

  lemma {:induction false} TapRow(kernel: Kernel, ax: Axis, i: nat, pic: Picture, y: int, c: int, k: int, n: nat)
    requires pic.Valid() && Interpolates(kernel) && ax.stretch == 1.0 && Centre(ax, i) == c as real
    ensures RowSum(kernel, ax, i, pic, y, k, n) == if k <= c < k + n then Sample(pic, c, y) as real else 0.0
  {
    hide Weight, Centre, Interpolates, Sample;
    if n > 0 {
      TapRow(kernel, ax, i, pic, y, c, k, n - 1);
      OnlyTap(kernel, ax, i, c);
    }
  }

  lemma {:induction false} TapSum(kernel: Kernel, ax: Axis, ay: Axis, i: nat, j: nat, pic: Picture, cx: int, cy: int,
                                  ky: int, ny: nat, kx: int, nx: nat)
    requires pic.Valid() && Interpolates(kernel) && ax.stretch == 1.0 && ay.stretch == 1.0
    requires Centre(ax, i) == cx as real && Centre(ay, j) == cy as real && kx <= cx < kx + nx
    ensures DirectSum(kernel, ax, ay, i, j, pic, ky, ny, kx, nx)
         == if ky <= cy < ky + ny then Sample(pic, cx, cy) as real else 0.0
  {
    hide Weight, Centre, Interpolates, Sample, RowOfSum, RowSum;
    if ny > 0 {
      TapSum(kernel, ax, ay, i, j, pic, cx, cy, ky, ny - 1, kx, nx);
      RowFactors(kernel, ax, ay, i, j, pic, ky + ny - 1, kx, nx);
      TapRow(kernel, ax, i, pic, ky + ny - 1, cx, kx, nx);
      OnlyTap(kernel, ay, j, cy);
    }
  }

  lemma CentreInSpan(a: Axis, i: nat, c: int)
    requires a.Radius() >= 0.0 && Centre(a, i) == c as real
    ensures FirstTap(a, i) <= c < FirstTap(a, i) + TapCount(a, i)
  {
    var rad := a.Radius();
    FloorCeil(c as real - rad);
    FloorCeil(c as real + rad);
  }

  /**
   * An interpolating kernel copies: where both coordinates fall on a source sample and nothing is stretched,
   * the output is that sample, or black outside the picture.
   */
  lemma IntegerCoordinatesCopy(kernel: Kernel, ax: Axis, ay: Axis, i: nat, j: nat, pic: Picture, cx: int, cy: int)
    requires pic.Valid() && Interpolates(kernel) && ax.stretch == 1.0 && ay.stretch == 1.0
    requires ax.Radius() >= 0.0 && ay.Radius() >= 0.0 && !Far(ax, i) && !Far(ay, j)
    requires Centre(ax, i) == cx as real && Centre(ay, j) == cy as real && 0 <= Sample(pic, cx, cy) <= pic.maxv
    ensures DirectValue(kernel, ax, ay, i, j, pic) == Sample(pic, cx, cy)
  {
    hide Weight, Centre, Interpolates, Sample, WeightSum, DirectSum, FirstTap, TapCount, Axis.Radius, RoundComp;
    CentreInSpan(ax, i, cx);
    CentreInSpan(ay, j, cy);
    var across, down := SpanOf(kernel, ax, i), SpanOf(kernel, ay, j);
    TapWeight(kernel, ax, i, cx, across.k0, across.n);
    TapWeight(kernel, ay, j, cy, down.k0, down.n);
    TapSum(kernel, ax, ay, i, j, pic, cx, cy, down.k0, down.n, across.k0, across.n);
    RoundCompExact(Sample(pic, cx, cy), pic.maxv);
  }
}
