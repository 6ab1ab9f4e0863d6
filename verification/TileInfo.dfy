/** tileInfo of cbs/av1_syntax.go: the tile columns and rows of a frame (section 5.9.15 of AV1). */
module TileInfo {
  import opened Common
  import opened Powers
  import opened Bits
  import opened BitReading
  import opened Av1Codes
  import opened Fields

  const MAX_TILES := 64
  const MAX_TILE_WIDTH := 4096
  const MAX_TILE_AREA := 4096 * 2304
  const MAX_FRAME_SIZE := 65536

  // ----- Geometry

  /** A frame in superblocks, and the widest and largest tile allowed. */
  datatype Grid = Grid(sbCols: nat, sbRows: nat, maxWidth: nat, maxArea: nat)

  function SuperblocksOf(size: nat, use128: bool): nat {
    var mi := 2 * ((size + 7) / 8);
    if use128 then (mi + 31) / 32 else (mi + 15) / 16
  }

  function GridOf(frameWidth: nat, frameHeight: nat, use128: bool): Grid {
    Grid(SuperblocksOf(frameWidth, use128), SuperblocksOf(frameHeight, use128),
         if use128 then MAX_TILE_WIDTH / 128 else MAX_TILE_WIDTH / 64,
         if use128 then MAX_TILE_AREA / (128 * 128) else MAX_TILE_AREA / (64 * 64))
  }

  /** What the arithmetic below needs to know about a grid. */
  ghost predicate Fits(g: Grid) {
    && 1 <= g.sbCols <= 16 * g.maxWidth && 1 <= g.sbRows <= 1024
    && 32 <= g.maxWidth <= 64 && g.maxArea >= 18 * g.maxWidth
  }

  lemma GridFits(frameWidth: nat, frameHeight: nat, use128: bool)
    requires 1 <= frameWidth <= MAX_FRAME_SIZE && 1 <= frameHeight <= MAX_FRAME_SIZE
    ensures Fits(GridOf(frameWidth, frameHeight, use128))
  {
  }

  lemma SuperblocksAre(size: nat, use128: bool)
    requires size > 0
    ensures var count, n := SuperblocksOf(size, use128), if use128 then 128 else 64;
            (count - 1) * n < size <= count * n
  {
    var q := (size + 7) / 8;
    assert 8 * (q - 1) < size <= 8 * q;
    var n := if use128 then 16 else 8;
    var count := SuperblocksOf(size, use128);
    assert n * (count - 1) < q <= n * count by {
      Superblocks(q, use128);
    }
  }

  lemma Superblocks(q: nat, use128: bool)
    ensures use128 ==> 16 * ((2 * q + 31) / 32 - 1) < q <= 16 * ((2 * q + 31) / 32)
    ensures !use128 ==> 8 * ((2 * q + 15) / 16 - 1) < q <= 8 * ((2 * q + 15) / 16)
  {
  }

  /** Superblocks of 64 or 128 pixels, the last of them cut off if need be; tile limits of 4096 by 2304 pixels. */
  lemma GridIs(frameWidth: nat, frameHeight: nat, use128: bool)
    requires frameWidth > 0 && frameHeight > 0
    ensures var g, n := GridOf(frameWidth, frameHeight, use128), if use128 then 128 else 64;
            && (g.sbCols - 1) * n < frameWidth <= g.sbCols * n
            && (g.sbRows - 1) * n < frameHeight <= g.sbRows * n
            && g.maxWidth * n == 4096 && g.maxArea * (n * n) == 4096 * 2304
  {
    hide SuperblocksOf;
    SuperblocksAre(frameWidth, use128);
    SuperblocksAre(frameHeight, use128);
  }

  /** av1TileLog2: the least k for which blksize << k reaches target. */
  function TileLog2From(blksize: nat, target: int, k: nat): (r: nat)
    requires blksize > 0
    ensures r >= k && Shl(blksize, r) >= target
    ensures r > k ==> Shl(blksize, r - 1) < target
    decreases target - Shl(blksize, k)
  {
    if Shl(blksize, k) < target then TileLog2From(blksize, target, k + 1) else k
  }

  function TileLog2(blksize: nat, target: int): (r: nat)
    requires blksize > 0
    ensures Shl(blksize, r) >= target
    ensures r > 0 ==> Shl(blksize, r - 1) < target
  {
    TileLog2From(blksize, target, 0)
  }

  lemma {:induction false} ShlGrows(v: nat, a: nat, b: nat)
    requires a <= b
    ensures Shl(v, a) <= Shl(v, b)
    decreases b
  {
    if a < b {
      ShlGrows(v, a, b - 1);
    }
  }

  lemma TileLog2AtMost(blksize: nat, target: int, k: nat)
    requires blksize > 0 && Shl(blksize, k) >= target
    ensures TileLog2(blksize, target) <= k
  {
    hide Shl;
    var r := TileLog2(blksize, target);
    if r > k {
      ShlGrows(blksize, k, r - 1);
    }
  }

  lemma TileLog2Is(n: nat, k: nat)
    requires n <= Pow2(k) && (k > 0 ==> Pow2(k - 1) < n)
    ensures TileLog2(1, n) == k
  {
    hide Shl;
    TileLog2AtMost(1, n, k);
    var r := TileLog2(1, n);
    if r < k {
      Pow2Monotone(r, k - 1);
    }
  }

  lemma SixtyFour(k: nat)
    requires k <= 6
    ensures Pow2(k) <= 64
    ensures Pow2(6) == 64
  {
    ShlFour(1);
    assert Pow2(6) == 64 by {
      assert Pow2(5) == Pow2(4) + Pow2(4);
    }
    Pow2Monotone(k, 6);
  }

  // ----- The bounds of the two increments

  function MinLog2Cols(g: Grid): nat
    requires Fits(g)
  {
    TileLog2(g.maxWidth, g.sbCols)
  }

  function MaxLog2(size: nat): nat {
    TileLog2(1, Min(size, MAX_TILES))
  }

  function MinLog2Tiles(g: Grid): nat
    requires Fits(g)
  {
    Max(MinLog2Cols(g), TileLog2(g.maxArea, g.sbRows * g.sbCols))
  }

  function MinLog2Rows(g: Grid, colsLog2: nat): nat
    requires Fits(g)
  {
    Max(MinLog2Tiles(g) - colsLog2, 0)
  }

  lemma TileLog2Exactly(blksize: nat, target: int, k: nat)
    requires blksize > 0
    ensures TileLog2(blksize, target) <= k <==> blksize * Pow2(k) >= target
  {
    hide Shl, TileLog2;
    var r := TileLog2(blksize, target);
    ShlIsProduct(blksize, k);
    if r <= k {
      ShlGrows(blksize, r, k);
    } else {
      ShlGrows(blksize, k, r - 1);
    }
  }

  /**
   * The bounds of the logarithms are the least that are large enough: for columns no wider and tiles no larger than
   * allowed, and for as many columns or rows as there are superblocks, up to 64.
   */
  lemma BoundsExactly(g: Grid, colsLog2: nat, k: nat)
    requires Fits(g)
    ensures MinLog2Cols(g) <= k <==> g.maxWidth * Pow2(k) >= g.sbCols
    ensures MinLog2Tiles(g) <= k <==> g.maxWidth * Pow2(k) >= g.sbCols && g.maxArea * Pow2(k) >= g.sbRows * g.sbCols
    ensures MinLog2Rows(g, colsLog2) <= k <==> MinLog2Tiles(g) <= colsLog2 + k
    ensures forall size: nat :: MaxLog2(size) <= k <==> Pow2(k) >= Min(size, 64)
  {
    hide TileLog2, Pow2;
    TileLog2Exactly(g.maxWidth, g.sbCols, k);
    TileLog2Exactly(g.maxArea, g.sbRows * g.sbCols, k);
    forall size: nat
      ensures MaxLog2(size) <= k <==> Pow2(k) >= Min(size, 64)
    {
      TileLog2Exactly(1, Min(size, MAX_TILES), k);
    }
  }

  lemma MaxLog2Small(size: nat)
    ensures MaxLog2(size) <= 6
    ensures Pow2(MaxLog2(size)) >= Min(size, 64)
  {
    SixtyFour(6);
    TileLog2AtMost(1, Min(size, MAX_TILES), 6);
  }

  /** Columns: the least number of tiles allowed never exceeds the largest. */
  lemma ColumnBounds(g: Grid)
    requires Fits(g)
    ensures MinLog2Cols(g) <= MaxLog2(g.sbCols) <= 6
  {
    hide Shl, TileLog2, MaxLog2;
    var k := MaxLog2(g.sbCols);
    MaxLog2Small(g.sbCols);
    ShlIsProduct(g.maxWidth, k);
    EnoughColumns(g, Pow2(k));
    TileLog2AtMost(g.maxWidth, g.sbCols, k);
    CallsTileLog2(g);
  }

  lemma CallsTileLog2(g: Grid)
    requires Fits(g)
    ensures MinLog2Cols(g) == TileLog2(g.maxWidth, g.sbCols)
  {
  }

  lemma EnoughColumns(g: Grid, n: nat)
    requires Fits(g) && n >= Min(g.sbCols, 64)
    ensures n * g.maxWidth >= g.sbCols
  {
    if n >= 64 {
      MulLe(64, n, g.maxWidth);
    } else {
      MulLe(1, g.maxWidth, n);
    }
  }

  /** Rows: whatever number of columns was chosen, the least number of rows does not exceed the largest. */
  lemma RowBounds(g: Grid, colsLog2: nat)
    requires Fits(g) && colsLog2 >= MinLog2Cols(g)
    ensures MinLog2Rows(g, colsLog2) <= MaxLog2(g.sbRows) <= 6
  {
    hide Shl, TileLog2, MaxLog2;
    var c, k := MinLog2Cols(g), MaxLog2(g.sbRows);
    MaxLog2Small(g.sbRows);
    EnoughArea(g, c, k);
    TileLog2AtMost(g.maxArea, g.sbRows * g.sbCols, c + k);
  }

  lemma EnoughArea(g: Grid, c: nat, k: nat)
    requires Fits(g) && c == MinLog2Cols(g) && Pow2(k) >= Min(g.sbRows, 64)
    ensures Shl(g.maxArea, c + k) >= g.sbRows * g.sbCols
  {
    hide Pow2, Fits;
    var p, q := Pow2(c), Pow2(k);
    assert p * g.maxWidth >= g.sbCols by {
      ShlIsProduct(g.maxWidth, c);
    }
    ShlIsProduct(g.maxArea, c + k);
    ShlShl(1, c, k);
    ShlIsProduct(p, k);
    PowerOfSum(c, k);
    AreaProduct(g, p, q);
  }

  lemma PowerOfSum(a: nat, b: nat)
    ensures Pow2(a + b) == Pow2(a) * Pow2(b)
  {
    hide Shl;
    ShlShl(1, a, b);
    ShlIsProduct(Shl(1, a), b);
  }

  lemma AreaProduct(g: Grid, p: nat, q: nat)
    requires Fits(g) && p * g.maxWidth >= g.sbCols && q >= Min(g.sbRows, 64)
    ensures (p * q) * g.maxArea >= g.sbRows * g.sbCols
  {
    var w, a := g.maxWidth, g.maxArea;
    MulAssoc(p, q, a);
    MulAssoc(p, 18, w);
    MulLe(18 * w, a, p);
    MulLe(18 * g.sbCols, p * a, q);
    MulAssoc(q, 18, g.sbCols);
    MulLe(g.sbRows, 18 * q, g.sbCols);
  }

  // ----- Rounding up

  /** n divided by 2^c, rounded up: (n + (1 << c) - 1) >> c. */
  function CeilShift(n: nat, c: nat): nat {
    Shr(n + Pow2(c) - 1, c)
  }

  lemma {:induction false} ShrBounds(v: nat, n: nat)
    ensures Shl(Shr(v, n), n) <= v < Shl(Shr(v, n) + 1, n)
    decreases n
  {
    if n > 0 {
      var h := v / 2;
      ShrBounds(h, n - 1);
      ShlMonotone(0, 1, n - 1);
    }
  }

  lemma CeilShiftIs(n: nat, c: nat)
    requires n > 0
    ensures 0 < CeilShift(n, c) <= n
    ensures (CeilShift(n, c) - 1) * Pow2(c) < n <= CeilShift(n, c) * Pow2(c)
  {
    hide Shl, Shr;
    var p, t := Pow2(c), CeilShift(n, c);
    ShrBounds(n + p - 1, c);
    ShlIsProduct(t, c);
    ShlIsProduct(t + 1, c);
    CeilProducts(t, p, n);
    CeilSmall(t, p, n);
  }

  lemma CeilProducts(t: nat, p: nat, n: nat)
    requires 0 < n && p * t <= n + p - 1 < p * (t + 1)
    ensures t > 0 && (t - 1) * p < n <= t * p
  {
    assert p * (t + 1) == p * t + p;
    assert (t - 1) * p == p * t - p;
    MulCancel(0, t, p);
  }

  lemma CeilSmall(t: nat, p: nat, n: nat)
    requires t > 0 && p > 0 && (t - 1) * p < n
    ensures t <= n
  {
    MulLe(1, p, t - 1);
  }

  /** (total + size - 1) / size. */
  function TileCount(total: nat, size: nat): nat
    requires size > 0
  {
    (total + size - 1) / size
  }

  lemma TileCountIs(total: nat, size: nat, limit: nat)
    requires total > 0 && size > 0 && total <= limit * size
    ensures var n := TileCount(total, size);
            1 <= n <= limit && (n - 1) * size < total <= n * size
  {
    var x := total + size - 1;
    var n: int := x / size;
    assert x == size * n + x % size;
    assert (n - 1) * size == size * n - size;
    MulCancel(n - 1, limit, size);
    MulCancel(0, n, size);
  }

  // ----- Tile lists

  /** What n stored sizes add up to; each is stored less one. */
  function Extent(sizes: seq<uint8>, n: nat): (e: nat)
    requires n <= |sizes|
    ensures e >= n
  {
    if n == 0 then 0 else Extent(sizes, n - 1) + sizes[n - 1] + 1
  }

  /** n tiles in a row that add up to total, each with its start stored modulo 256. */
  ghost predicate Tiles(starts: seq<uint8>, sizes: seq<uint8>, n: nat, total: nat) {
    && n <= |starts| && n <= |sizes|
    && Extent(sizes, n) == total
    && forall j :: 0 <= j < n ==> starts[j] == Wrap8(Extent(sizes, j))
  }

  /** The j-th stored size of equal tiles. */
  function UniformSize(size: nat, n: nat, total: nat, j: nat): uint8
    requires size > 0
  {
    if j < n - 1 then Wrap8(size - 1) else Wrap8(total - (n - 1) * size - 1)
  }

  /** n tiles of the same size, the last of them smaller if need be, as uniform spacing stores them. */
  ghost predicate UniformTiles(starts: seq<uint8>, sizes: seq<uint8>, n: nat, size: nat, total: nat) {
    && 0 < n <= |starts| && n <= |sizes| && 0 < size <= total
    && (n - 1) * size < total <= n * size
    && forall j :: 0 <= j < n ==> starts[j] == Wrap8(j * size) && sizes[j] == UniformSize(size, n, total, j)
  }

  lemma {:induction false} ExactExtent(starts: seq<uint8>, sizes: seq<uint8>, n: nat, size: nat, total: nat, k: nat)
    requires UniformTiles(starts, sizes, n, size, total) && size <= 256 && k < n
    ensures Extent(sizes, k) == k * size
  {
    if k > 0 {
      ExactExtent(starts, sizes, n, size, total, k - 1);
      assert k * size == (k - 1) * size + size;
    }
  }

  lemma {:induction false} ShortExtent(starts: seq<uint8>, sizes: seq<uint8>, n: nat, size: nat, total: nat, k: nat)
    requires UniformTiles(starts, sizes, n, size, total) && size > 256 && k < n
    ensures Extent(sizes, k) <= k * size && (k > 0 ==> Extent(sizes, k) < k * size)
  {
    if k > 0 {
      ShortExtent(starts, sizes, n, size, total, k - 1);
      assert k * size == (k - 1) * size + size;
    }
  }

  lemma LastTile(n: nat, size: nat, total: nat)
    requires n > 0 && size > 0 && (n - 1) * size < total <= n * size
    ensures 0 <= total - (n - 1) * size - 1 < size
  {
    assert n * size == (n - 1) * size + size;
  }

  lemma ShortLast(size: nat, n: nat, total: nat)
    requires n > 0 && 256 < size <= total && (n - 1) * size < total <= n * size
    ensures var last := total - (n - 1) * size;
            UniformSize(size, n, total, n - 1) + 1 <= last && (n == 1 ==> UniformSize(size, n, total, n - 1) + 1 < last)
  {
    LastTile(n, size, total);
    assert n == 1 ==> (n - 1) * size == 0;
  }

  /** The last size, when tiles are small enough to be stored. */
  lemma LastExact(size: nat, n: nat, total: nat)
    requires n > 0 && 0 < size <= 256 && (n - 1) * size < total <= n * size
    ensures UniformSize(size, n, total, n - 1) == total - (n - 1) * size - 1
  {
    LastTile(n, size, total);
  }

  lemma LastAdds(sizes: seq<uint8>, n: nat)
    requires 0 < n <= |sizes|
    ensures Extent(sizes, n) == Extent(sizes, n - 1) + sizes[n - 1] + 1
  {
  }

  lemma SmallTiles(starts: seq<uint8>, sizes: seq<uint8>, n: nat, size: nat, total: nat)
    requires UniformTiles(starts, sizes, n, size, total) && size <= 256
    ensures Tiles(starts, sizes, n, total)
  {
    hide Extent, UniformSize;
    LastExact(size, n, total);
    LastAdds(sizes, n);
    assert sizes[n - 1] == UniformSize(size, n, total, n - 1);
    ExactExtent(starts, sizes, n, size, total, n - 1);
    forall j | 0 <= j < n
      ensures starts[j] == Wrap8(Extent(sizes, j))
    {
      ExactExtent(starts, sizes, n, size, total, j);
    }
  }

  lemma LargeTiles(starts: seq<uint8>, sizes: seq<uint8>, n: nat, size: nat, total: nat)
    requires UniformTiles(starts, sizes, n, size, total) && size > 256
    ensures Extent(sizes, n) < total
  {
    hide Extent, UniformSize;
    ShortLast(size, n, total);
    LastAdds(sizes, n);
    assert sizes[n - 1] == UniformSize(size, n, total, n - 1);
    ShortExtent(starts, sizes, n, size, total, n - 1);
  }

  /**
   * Uniformly spaced tiles are recovered from what is stored, starts modulo 256 and sizes truncated to eight
   * bits, if and only if no tile is larger than 256 superblocks.
   */
  lemma UniformExactly(starts: seq<uint8>, sizes: seq<uint8>, n: nat, size: nat, total: nat)
    requires UniformTiles(starts, sizes, n, size, total)
    ensures Tiles(starts, sizes, n, total) <==> size <= 256
  {
    hide UniformTiles;
    if size <= 256 {
      SmallTiles(starts, sizes, n, size, total);
    } else {
      LargeTiles(starts, sizes, n, size, total);
    }
  }

  const TALL_GRID := Grid(1, 1024, 64, 2304)

  /** A frame of 64x65536 pixels in one tile is legal: its row has 1024 superblocks. */
  lemma TallRowIsLegal()
    ensures GridOf(64, 65536, false) == TALL_GRID && Fits(TALL_GRID)
    ensures MinLog2Rows(TALL_GRID, 0) == 0 && CeilShift(1024, 0) == 1024
  {
    hide TileLog2;
    TileLog2AtMost(64, 1, 0);
    TileLog2AtMost(2304, 1024, 0);
  }

  /** And its height is stored as 256, so the tiles read back from the header do not reach the end of the frame. */
  lemma TallRowExample()
    ensures UniformTiles([0], [255], 1, 1024, 1024)
    ensures !Tiles([0], [255], 1, 1024) && Extent([255], 1) == 256
  {
    assert Extent([255], 0) == 0;
  }

  // ----- The source's loops

  /** The starts of equal tiles: uint8 of every multiple of size below total. */
  method FillStarts(starts: array<uint8>, total: nat, size: nat, n: nat)
    requires starts.Length == MAX_TILES && size > 0
    requires 0 < n <= MAX_TILES && (n - 1) * size < total <= n * size
    modifies starts
    ensures forall j :: 0 <= j < n ==> starts[j] == Wrap8(j * size)
  {
    var off, j: nat := 0, 0;
    while off < total
      invariant off == j * size && j <= n
      invariant forall k :: 0 <= k < j ==> starts[k] == Wrap8(k * size)
      decreases total - off
    {
      NextStart(j, n, size, total);
      starts[j] := Wrap8(off);
      off := off + size;
      j := j + 1;
    }
    MulCancel(n - 1, j, size);
  }

  lemma NextStart(j: nat, n: nat, size: nat, total: nat)
    requires total <= n * size && j * size < total
    ensures j < n && (j + 1) * size == j * size + size
  {
    MulCancel(j, n, size);
  }

  /** The sizes of equal tiles, less one. */
  method FillSizes(sizes: array<uint8>, total: nat, size: nat, n: nat)
    requires sizes.Length == MAX_TILES && size > 0
    requires 0 < n <= MAX_TILES && (n - 1) * size < total <= n * size
    modifies sizes
    ensures forall j :: 0 <= j < n ==> sizes[j] == UniformSize(size, n, total, j)
  {
    var i := 0;
    while i < n - 1
      invariant 0 <= i <= n - 1
      invariant forall k :: 0 <= k < i ==> sizes[k] == UniformSize(size, n, total, k)
    {
      sizes[i] := Wrap8(size - 1);
      i := i + 1;
    }
    sizes[i] := Wrap8(total - (n - 1) * size - 1);
  }

  /** Sizes read one at a time, each at most limit, until total is reached or there is no room for more. */
  ghost predicate ReadTiles(starts: seq<uint8>, sizes: seq<uint8>, n: nat, total: nat, limit: nat) {
    && 0 < n <= |sizes|
    && (forall j :: 0 <= j < n ==> sizes[j] < limit)
    && Extent(sizes, n) <= total
    && (Extent(sizes, n) < total ==> n == MAX_TILES)
    && Tiles(starts, sizes, n, Extent(sizes, n))
  }

  lemma {:induction false} ExtentAgrees(a: seq<uint8>, b: seq<uint8>, n: nat)
    requires n <= |a| && n <= |b| && forall k :: 0 <= k < n ==> a[k] == b[k]
    ensures Extent(a, n) == Extent(b, n)
  {
    if n > 0 {
      ExtentAgrees(a, b, n - 1);
    }
  }

  /** Storing one more start and size. */
  lemma TilesGrow(starts: seq<uint8>, sizes: seq<uint8>, n: nat, total: nat, starts': seq<uint8>, sizes': seq<uint8>,
                  minus1: uint8)
    requires Tiles(starts, sizes, n, total) && n < |starts| && n < |sizes|
    requires starts' == starts[n := Wrap8(total)] && sizes' == sizes[n := minus1]
    ensures Tiles(starts', sizes', n + 1, total + minus1 + 1)
  {
    hide Wrap8;
    ExtentAgrees(sizes, sizes', n);
    LastAdds(sizes', n + 1);
    forall j | 0 <= j < n
      ensures starts'[j] == Wrap8(Extent(sizes', j))
    {
      ExtentAgrees(sizes, sizes', j);
    }
  }

  /** One explicitly coded column or row. The stored, truncated size is what the next start is taken from. */
  method ReadOneTile(r: BitReader, starts: array<uint8>, sizes: array<uint8>, i: nat, start: nat, total: nat,
                     limit: nat)
    returns (size: Result<nat>)
    requires starts.Length == sizes.Length == MAX_TILES && starts != sizes && i < MAX_TILES
    requires start < total < TWO_TO_THE_32 && limit > 0 && Tiles(starts[..], sizes[..], i, start)
    requires forall j :: 0 <= j < i ==> sizes[j] < limit
    modifies starts, sizes, r`pos
    ensures size.Ok? ==> Tiles(starts[..], sizes[..], i + 1, start + size.value)
    ensures size.Ok? <==> old(r.pos) + Log2(Min(total - start, limit)) + 1 <= r.end
    ensures size.Ok? ==> old(r.pos) <= r.pos <= r.end
    ensures size.Ok? ==> var (minus1, q) := ParseNs(r.data, old(r.pos), Min(total - start, limit));
                         sizes[i] == Wrap8(minus1) && r.pos == q
    ensures size.Ok? ==> size.value > 0 && start + size.value <= total
    ensures forall j :: 0 <= j < i ==> sizes[j] == old(sizes[j])
    ensures size.Ok? ==> size.value - 1 == sizes[i] && forall j :: 0 <= j <= i ==> sizes[j] < limit
  {
    hide Tiles, Log2, NsShows, NsCode, ParseNs;
    ghost var starts0, sizes0 := starts[..], sizes[..];
    starts[i] := Wrap8(start);
    var max: uint32 := if total - start <= limit then total - start else limit;
    var value := ReadNs(r, max);
    if value.Err? {
      return Err;
    }
    NsValue(r.data, old(r.pos), max, value.value);
    sizes[i] := Wrap8(value.value);
    TilesGrow(starts0, sizes0, i, start, starts[..], sizes[..], sizes[i]);
    var stored: nat := sizes[i];
    return Ok(stored + 1);
  }

  lemma NsValue(data: seq<byte>, p: nat, n: nat, x: int)
    requires n > 0 && NsShows(data, p, n, x)
    ensures 0 <= x < n && Wrap8(x) <= x
  {
  }

  /** The largest of these sizes, each stored less one. */
  function Widest(sizes: seq<uint8>): (w: nat)
    ensures sizes != [] ==> w > 0
  {
    if sizes == [] then 0 else var last: int := sizes[|sizes| - 1]; Max(last + 1, Widest(sizes[..|sizes| - 1]))
  }

  /** widest is the largest of n sizes. */
  ghost predicate IsWidest(sizes: seq<uint8>, n: nat, widest: nat) {
    && 0 < n <= |sizes| && widest > 0
    && (forall j :: 0 <= j < n ==> sizes[j] < widest)
    && exists j :: 0 <= j < n && sizes[j] == widest - 1
  }

  /** The largest of a list of sizes is the widest. */
  lemma {:induction false} WidestIs(list: seq<uint8>, sizes: seq<uint8>)
    requires 0 < |list| <= |sizes| && forall j :: 0 <= j < |list| ==> list[j] == sizes[j]
    ensures IsWidest(sizes, |list|, Widest(list))
  {
    var n := |list| - 1;
    var last: int := list[n];
    if n > 0 {
      WidestIs(list[..n], sizes);
      assert Widest(list) == Max(last + 1, Widest(list[..n]));
      if last + 1 <= Widest(list[..n]) {
        var j :| 0 <= j < n && sizes[j] == Widest(list[..n]) - 1;
      } else {
        assert sizes[n] == Widest(list) - 1;
      }
    } else {
      assert Widest(list[..0]) == 0 && Widest(list) == last + 1;
      assert sizes[0] == Widest(list) - 1;
    }
  }

  lemma WidestGrows(list: seq<uint8>, size: uint8)
    ensures var s: int := size; Widest(list + [size]) == Max(s + 1, Widest(list))
  {
    assert (list + [size])[..|list|] == list;
  }

  lemma NoWidth()
    ensures Widest([]) == 0
  {
  }

  lemma WidestWithin(sizes: seq<uint8>, n: nat, limit: nat)
    requires 0 < n <= |sizes| && forall j :: 0 <= j < n ==> sizes[j] < limit
    ensures 0 < Widest(sizes[..n]) <= limit && IsWidest(sizes, n, Widest(sizes[..n]))
  {
    hide Widest;
    WidestIs(sizes[..n], sizes);
  }

  /** Explicitly coded columns or rows. */
  method ReadTileList(r: BitReader, starts: array<uint8>, sizes: array<uint8>, total: nat, limit: nat)
    returns (ok: bool, n: nat, widest: nat)
    requires starts.Length == sizes.Length == MAX_TILES && starts != sizes
    requires 0 < total < TWO_TO_THE_32 && limit > 0
    modifies starts, sizes, r`pos
    ensures ok ==> ReadTiles(starts[..], sizes[..], n, total, limit) && old(r.pos) <= r.pos <= r.end
    ensures ok ==> widest <= limit && IsWidest(sizes[..], n, widest)
    ensures ok <==> SizesAt(r.data, old(r.pos), r.end, total, limit, []).Some?
    ensures ok ==> SizesAt(r.data, old(r.pos), r.end, total, limit, []) == Some((sizes[..n], r.pos))
    ensures ok ==> widest == Widest(sizes[..n])
  {
    hide Tiles, Log2, ParseNs, IsWidest, ReadTiles, SizesAt, Extent, Widest;
    NoWidth();
    n, widest := 0, 0;
    var start := 0;
    NoTiles(starts[..], sizes[..]);
    while start < total && n < MAX_TILES
      invariant n <= MAX_TILES && start <= total && (start > 0 <==> n > 0)
      invariant old(r.pos) <= r.pos && (n > 0 ==> r.pos <= r.end)
      invariant Tiles(starts[..], sizes[..], n, start)
      invariant forall j :: 0 <= j < n ==> sizes[j] < limit
      invariant SizesAt(r.data, old(r.pos), r.end, total, limit, [])
           == SizesAt(r.data, r.pos, r.end, total - start, limit, sizes[..n])
      invariant widest == Widest(sizes[..n])
      decreases total - start
    {
      ghost var sizes0, p := sizes[..], r.pos;
      SizesEnd(r.data, p, r.end, total - start, limit, sizes[..n]);
      var size := ReadOneTile(r, starts, sizes, n, start, total, limit);
      if size.Err? {
        return false, n, widest;
      }
      WidestGrows(sizes0[..n], sizes[n]);
      assert sizes[..n + 1] == sizes0[..n] + [sizes[n]];
      SizesStep(r.data, p, r.end, total - start, limit, sizes0[..n], r.pos, sizes[n]);
      widest := Max(size.value, widest);
      start := start + size.value;
      n := n + 1;
    }
    TilesTotal(starts[..], sizes[..], n, start);
    WidestWithin(sizes[..], n, limit);
    TilesReach(starts[..], sizes[..], n, start, total, limit);
    SizesEnd(r.data, r.pos, r.end, total - start, limit, sizes[..n]);
    return true, n, widest;
  }

  lemma TilesReach(starts: seq<uint8>, sizes: seq<uint8>, n: nat, start: nat, total: nat, limit: nat)
    requires 0 < n && Tiles(starts, sizes, n, start) && start <= total && (start < total ==> n == MAX_TILES)
    requires |sizes| >= n && forall j :: 0 <= j < n ==> sizes[j] < limit
    ensures ReadTiles(starts, sizes, n, total, limit)
  {
  }

  lemma NoTiles(starts: seq<uint8>, sizes: seq<uint8>)
    ensures Tiles(starts, sizes, 0, 0)
  {
  }

  lemma TilesTotal(starts: seq<uint8>, sizes: seq<uint8>, n: nat, total: nat)
    requires Tiles(starts, sizes, n, total)
    ensures n <= |sizes| && Extent(sizes, n) == total
  {
  }

  // ----- What the bits of tile_info() say

  /**
   * Sizes coded one by one from p on, behind those in acc, for as long as left superblocks last: all sizes, and where
   * they end.
   */
  ghost function SizesAt(data: seq<byte>, p: nat, end: int, left: nat, limit: nat, acc: seq<uint8>)
    : (r: Option<(seq<uint8>, nat)>)
    requires limit > 0
    ensures r.Some? ==> acc <= r.value.0 && (0 < left && |acc| < MAX_TILES ==> r.value.0 != [])
    decreases MAX_TILES - |acc|
  {
    if left == 0 || |acc| >= MAX_TILES then Some((acc, p))
    else if p + Log2(Min(left, limit)) + 1 > end then None
    else
      var (minus1, q) := ParseNs(data, p, Min(left, limit));
      SizesAt(data, q, end, Max(left - Wrap8(minus1) - 1, 0), limit, acc + [Wrap8(minus1)])
  }

  /** One more size: the whole list is what follows it, with it. */
  lemma SizesStep(data: seq<byte>, p: nat, end: int, left: nat, limit: nat, acc: seq<uint8>, q: nat, stored: uint8)
    requires 0 < left && 0 < limit && |acc| < MAX_TILES && p + Log2(Min(left, limit)) + 1 <= end && stored < left
    requires var (minus1, next) := ParseNs(data, p, Min(left, limit)); stored == Wrap8(minus1) && q == next
    ensures SizesAt(data, p, end, left, limit, acc) == SizesAt(data, q, end, left - stored - 1, limit, acc + [stored])
  {
    hide ParseNs, Log2;
  }

  lemma SizesEnd(data: seq<byte>, p: nat, end: int, left: nat, limit: nat, acc: seq<uint8>)
    requires limit > 0
    ensures left == 0 || |acc| >= MAX_TILES ==> SizesAt(data, p, end, left, limit, acc) == Some((acc, p))
    ensures left > 0 && |acc| < MAX_TILES && p + Log2(Min(left, limit)) + 1 > end ==>
              SizesAt(data, p, end, left, limit, acc).None?
  {
    hide ParseNs, Log2;
  }

  /** A logarithm from lo to hi coded at p, and where it ends. */
  ghost function LogAt(data: seq<byte>, p: nat, end: int, lo: nat, hi: nat): Option<(nat, nat)> {
    var limit := Max(hi - lo, 0);
    var k := CountOnes(data, p, limit);
    var q := p + UnaryLength(k, limit);
    if q > end && q > p then None else Some((lo + k, q))
  }

  /** The stored sizes of the tiles that split total evenly by 2^log2. */
  function UniformSizes(total: nat, log2: nat): seq<uint8>
    requires total > 0
  {
    CeilShiftIs(total, log2);
    var size := CeilShift(total, log2);
    var n := TileCount(total, size);
    seq(n, j requires 0 <= j < n => UniformSize(size, n, total, j))
  }

  /** The tiles of a frame, and where their code ends. */
  datatype Tiling = Tiling(colsLog2: nat, rowsLog2: nat, widths: seq<uint8>, heights: seq<uint8>, next: nat)

  ghost function UniformAt(data: seq<byte>, p: nat, end: int, g: Grid): Option<Tiling>
    requires Fits(g)
  {
    match LogAt(data, p, end, MinLog2Cols(g), MaxLog2(g.sbCols))
    case None => None
    case Some((colsLog2, q)) =>
      match LogAt(data, q, end, MinLog2Rows(g, colsLog2), MaxLog2(g.sbRows))
      case None => None
      case Some((rowsLog2, next)) =>
        Some(Tiling(colsLog2, rowsLog2, UniformSizes(g.sbCols, colsLog2), UniformSizes(g.sbRows, rowsLog2), next))
  }

  ghost function ExplicitAt(data: seq<byte>, p: nat, end: int, g: Grid): Option<Tiling>
    requires Fits(g)
  {
    match SizesAt(data, p, end, g.sbCols, g.maxWidth, [])
    case None => None
    case Some((widths, q)) =>
      match SizesAt(data, q, end, g.sbRows, MaxTileHeight(g, Widest(widths)), [])
      case None => None
      case Some((heights, next)) =>
        Some(Tiling(TileLog2(1, |widths|), TileLog2(1, |heights|), widths, heights, next))
  }

  ghost function TilingAt(data: seq<byte>, p: nat, end: int, g: Grid, uniform: bool): Option<Tiling>
    requires Fits(g)
  {
    if uniform then UniformAt(data, p, end, g) else ExplicitAt(data, p, end, g)
  }

  /** The fields of tile_info(); the last two are coded only when there may be several tiles. */
  datatype TileFields = TileFields(uniform: bool, tiling: Tiling, contextUpdateTileID: nat,
                                   sizeBytesMinus1: Option<nat>, next: nat)

  /** What tile_info() at p says, unless the bits end first. */
  ghost function TileInfoAt(data: seq<byte>, p: nat, end: int, g: Grid): Option<TileFields>
    requires Fits(g)
  {
    if p + 1 > end then None
    else
      match TilingAt(data, p + 1, end, g, BitAt(data, p))
      case None => None
      case Some(t) =>
        var n := t.colsLog2 + t.rowsLog2;
        if n == 0 then Some(TileFields(BitAt(data, p), t, 0, None, t.next))
        else if t.next + n + 2 > end then None
        else Some(TileFields(BitAt(data, p), t, Field(data, t.next, n), Some(Field(data, t.next + n, 2)),
                             t.next + n + 2))
  }

  // ----- tileInfo

  /** The tile fields of a frame header. */
  class TileLayout {
    const startCol: array<uint8>
    const startRow: array<uint8>
    const widthMinus1: array<uint8>
    const heightMinus1: array<uint8>
    var uniform: bool
    var colsLog2: nat
    var rowsLog2: nat
    var cols: uint16
    var rows: uint16
    var contextUpdateTileID: uint32
    var sizeBytesMinus1: uint32

    ghost predicate Valid()
      reads this
    {
      && startCol.Length == startRow.Length == widthMinus1.Length == heightMinus1.Length == MAX_TILES
      && startCol != startRow && startCol != widthMinus1 && startCol != heightMinus1
      && startRow != widthMinus1 && startRow != heightMinus1 && widthMinus1 != heightMinus1
    }

    constructor ()
      ensures Valid() && fresh(startCol) && fresh(startRow) && fresh(widthMinus1) && fresh(heightMinus1)
    {
      startCol := new uint8[MAX_TILES](_ => 0);
      startRow := new uint8[MAX_TILES](_ => 0);
      widthMinus1 := new uint8[MAX_TILES](_ => 0);
      heightMinus1 := new uint8[MAX_TILES](_ => 0);
      uniform, colsLog2, rowsLog2, cols, rows, contextUpdateTileID, sizeBytesMinus1 := false, 0, 0, 0, 0, 0, 0;
    }

    /** The columns have these sizes, each less one. */
    ghost predicate HoldsWidths(widths: seq<uint8>)
      reads `cols, widthMinus1
    {
      cols <= widthMinus1.Length && widthMinus1[..cols] == widths
    }

    ghost predicate HoldsHeights(heights: seq<uint8>)
      reads `rows, heightMinus1
    {
      rows <= heightMinus1.Length && heightMinus1[..rows] == heights
    }

    /** The header holds this tiling. */
    ghost predicate Holds(t: Tiling)
      reads `colsLog2, `rowsLog2, `cols, `rows, widthMinus1, heightMinus1
    {
      colsLog2 == t.colsLog2 && rowsLog2 == t.rowsLog2 && HoldsWidths(t.widths) && HoldsHeights(t.heights)
    }

    /** The header holds these fields of tile_info(). */
    ghost predicate HoldsAll(f: TileFields)
      reads this, widthMinus1, heightMinus1
    {
      && uniform == f.uniform && Holds(f.tiling) && contextUpdateTileID == f.contextUpdateTileID
      && (f.sizeBytesMinus1.Some? ==> sizeBytesMinus1 == f.sizeBytesMinus1.value)
    }

    /** Uniform columns: no more than 2^colsLog2 of them, and they tile the frame exactly. */
    ghost predicate UniformColumns(g: Grid)
      requires Fits(g)
      reads `colsLog2, `cols, startCol, widthMinus1
    {
      && MinLog2Cols(g) <= colsLog2 <= MaxLog2(g.sbCols)
      && cols <= Pow2(colsLog2)
      && UniformTiles(startCol[..], widthMinus1[..], cols, CeilShift(g.sbCols, colsLog2), g.sbCols)
      && Tiles(startCol[..], widthMinus1[..], cols, g.sbCols)
    }

    /** Uniform rows: no more than 2^rowsLog2 of them; exact if and only if none is higher than 256 superblocks. */
    ghost predicate UniformRows(g: Grid)
      requires Fits(g)
      reads `colsLog2, `rowsLog2, `rows, startRow, heightMinus1
    {
      && MinLog2Rows(g, colsLog2) <= rowsLog2 <= MaxLog2(g.sbRows)
      && rows <= Pow2(rowsLog2)
      && UniformTiles(startRow[..], heightMinus1[..], rows, CeilShift(g.sbRows, rowsLog2), g.sbRows)
      && (Tiles(startRow[..], heightMinus1[..], rows, g.sbRows) <==> CeilShift(g.sbRows, rowsLog2) <= 256)
    }

    /** The uniform half of tileInfo, columns. */
    method ReadUniformColumns(r: BitReader, g: Grid) returns (ok: bool)
      requires Valid() && Fits(g)
      modifies this`colsLog2, this`cols, startCol, widthMinus1, r`pos
      ensures ok ==> old(r.pos) <= r.pos && (r.pos <= r.end || r.pos == old(r.pos))
      ensures ok ==> UniformColumns(g) && 1 <= cols <= MAX_TILES && colsLog2 <= 6
      ensures var log := LogAt(r.data, old(r.pos), r.end, MinLog2Cols(g), MaxLog2(g.sbCols));
              if ok then log == Some((colsLog2, r.pos)) && HoldsWidths(UniformSizes(g.sbCols, colsLog2)) else log.None?
    {
      hide MinLog2Cols, MaxLog2, TileCount, Tiles, UniformTiles, Pow2, CeilShift, CountOnes;
      ColumnBounds(g);
      var log2 := ReadIncrement(r, MinLog2Cols(g), MaxLog2(g.sbCols));
      if log2.Err? {
        return false;
      }
      colsLog2 := log2.value;
      CountsTiles(g.sbCols, colsLog2);
      var tileWidthSb := CeilShift(g.sbCols, colsLog2);
      var n := TileCount(g.sbCols, tileWidthSb);
      cols := n;
      FillStarts(startCol, g.sbCols, tileWidthSb, n);
      FillSizes(widthMinus1, g.sbCols, tileWidthSb, n);
      IsUniform(startCol[..], widthMinus1[..], n, tileWidthSb, g.sbCols);
      NarrowColumns(g, colsLog2);
      UniformExactly(startCol[..], widthMinus1[..], n, tileWidthSb, g.sbCols);
      return true;
    }

    /** The uniform half of tileInfo, rows. */
    method ReadUniformRows(r: BitReader, g: Grid) returns (ok: bool)
      requires Valid() && Fits(g) && colsLog2 >= MinLog2Cols(g)
      modifies this`rowsLog2, this`rows, startRow, heightMinus1, r`pos
      ensures ok ==> old(r.pos) <= r.pos && (r.pos <= r.end || r.pos == old(r.pos))
      ensures ok ==> UniformRows(g) && 1 <= rows <= MAX_TILES && rowsLog2 <= 6
      ensures var log := LogAt(r.data, old(r.pos), r.end, MinLog2Rows(g, colsLog2), MaxLog2(g.sbRows));
              if ok then log == Some((rowsLog2, r.pos)) && HoldsHeights(UniformSizes(g.sbRows, rowsLog2)) else log.None?
    {
      hide MinLog2Rows, MaxLog2, TileCount, Tiles, UniformTiles, Pow2, CeilShift, CountOnes;
      RowBounds(g, colsLog2);
      var log2 := ReadIncrement(r, MinLog2Rows(g, colsLog2), MaxLog2(g.sbRows));
      if log2.Err? {
        return false;
      }
      rowsLog2 := log2.value;
      CountsTiles(g.sbRows, rowsLog2);
      var tileHeightSb := CeilShift(g.sbRows, rowsLog2);
      var n := TileCount(g.sbRows, tileHeightSb);
      rows := n;
      FillStarts(startRow, g.sbRows, tileHeightSb, n);
      FillSizes(heightMinus1, g.sbRows, tileHeightSb, n);
      IsUniform(startRow[..], heightMinus1[..], n, tileHeightSb, g.sbRows);
      UniformExactly(startRow[..], heightMinus1[..], n, tileHeightSb, g.sbRows);
      return true;
    }

    /**
     * Explicit columns: none wider than allowed, they never pass the frame, and they reach its end unless
     * there are 64 of them. The logarithm is the least that counts them.
     */
    ghost predicate ExplicitColumns(g: Grid)
      reads `colsLog2, `cols, startCol, widthMinus1
    {
      && ReadTiles(startCol[..], widthMinus1[..], cols, g.sbCols, g.maxWidth)
      && colsLog2 == TileLog2(1, cols) <= 6
    }

    ghost predicate ExplicitRows(g: Grid, maxHeight: nat)
      reads `rowsLog2, `rows, startRow, heightMinus1
    {
      && ReadTiles(startRow[..], heightMinus1[..], rows, g.sbRows, maxHeight)
      && rowsLog2 == TileLog2(1, rows) <= 6
    }

    method ReadExplicitColumns(r: BitReader, g: Grid) returns (ok: bool, widest: nat)
      requires Valid() && Fits(g)
      modifies this`colsLog2, this`cols, startCol, widthMinus1, r`pos
      ensures ok ==> old(r.pos) <= r.pos <= r.end
      ensures ok ==> ExplicitColumns(g) && 1 <= cols <= MAX_TILES && colsLog2 <= 6
      ensures ok ==> 0 < widest <= g.maxWidth && IsWidest(widthMinus1[..], cols, widest)
      ensures var coded := SizesAt(r.data, old(r.pos), r.end, g.sbCols, g.maxWidth, []);
              if ok then coded.Some? && HoldsWidths(coded.value.0) && r.pos == coded.value.1 && widest
                == Widest(coded.value.0)
                         && colsLog2 == TileLog2(1, |coded.value.0|)
              else coded.None?
    {
      hide ReadTiles, TileLog2, SizesAt, Widest;
      var n;
      ok, n, widest := ReadTileList(r, startCol, widthMinus1, g.sbCols, g.maxWidth);
      if !ok {
        return;
      }
      TilesRead(startCol[..], widthMinus1[..], n, g.sbCols, g.maxWidth);
      colsLog2 := TileLog2(1, n);
      cols := n;
    }

    method ReadExplicitRows(r: BitReader, g: Grid, maxHeight: nat) returns (ok: bool)
      requires Valid() && Fits(g) && maxHeight > 0
      modifies this`rowsLog2, this`rows, startRow, heightMinus1, r`pos
      ensures ok ==> old(r.pos) <= r.pos <= r.end
      ensures ok ==> ExplicitRows(g, maxHeight) && 1 <= rows <= MAX_TILES && rowsLog2 <= 6
      ensures var coded := SizesAt(r.data, old(r.pos), r.end, g.sbRows, maxHeight, []);
              if ok then coded.Some? && HoldsHeights(coded.value.0) && r.pos == coded.value.1 && rowsLog2
                == TileLog2(1, |coded.value.0|)
              else coded.None?
    {
      hide ReadTiles, TileLog2, SizesAt, Widest;
      var n, highest;
      ok, n, highest := ReadTileList(r, startRow, heightMinus1, g.sbRows, maxHeight);
      if !ok {
        return;
      }
      TilesRead(startRow[..], heightMinus1[..], n, g.sbRows, maxHeight);
      rowsLog2 := TileLog2(1, n);
      rows := n;
    }

    /** What a successful tileInfo leaves in the header. */
    ghost predicate Describes(g: Grid)
      requires Fits(g)
      reads `uniform, `colsLog2, `rowsLog2, `cols, `rows, startCol, startRow, widthMinus1, heightMinus1
    {
      && 1 <= cols <= MAX_TILES && 1 <= rows <= MAX_TILES && colsLog2 <= 6 && rowsLog2 <= 6
      && if uniform then UniformColumns(g) && UniformRows(g)
         else ExplicitColumns(g) && exists widest :: IsWidest(widthMinus1[..], cols, widest)
                                                     && ExplicitRows(g, MaxTileHeight(g, widest))
    }

    /** There are no more tiles than superblocks. */
    lemma DescribesFew(g: Grid)
      requires Fits(g) && Describes(g)
      ensures 1 <= cols <= Min(g.sbCols, MAX_TILES) && 1 <= rows <= Min(g.sbRows, MAX_TILES)
    {
      hide Fits, MaxTileHeight, MinLog2Cols, MinLog2Rows, MaxLog2, TileLog2, IsWidest, Tiles, Pow2, CeilShift;
      if uniform {
        FewUniform(startCol[..], widthMinus1[..], cols, CeilShift(g.sbCols, colsLog2), g.sbCols);
        FewUniform(startRow[..], heightMinus1[..], rows, CeilShift(g.sbRows, rowsLog2), g.sbRows);
      }
    }

    /** tileInfo. On failure the fields read so far stay as they are. */
    method ReadTileInfo(r: BitReader, g: Grid) returns (ok: bool)
      requires Valid() && Fits(g)
      modifies this, startCol, startRow, widthMinus1, heightMinus1, r`pos
      ensures Valid()
      ensures ok ==> Describes(g) && 1 <= cols <= MAX_TILES && 1 <= rows <= MAX_TILES
      ensures ok ==> old(r.pos) < r.pos <= r.end
      ensures var says := TileInfoAt(r.data, old(r.pos), r.end, g);
              if ok then says.Some? && HoldsAll(says.value) && r.pos == says.value.next else says.None?
    {
      hide Fits, Describes, BitAt, Field, TilingAt, HoldsWidths, HoldsHeights;
      var flag := ReadFlag(r);
      if flag.Err? {
        return false;
      }
      uniform := flag.value;
      ok := ReadTiling(r, g);
      if !ok {
        return;
      }
      ok := ReadTileOptions(r);
    }

    /** context_update_tile_id and tile_size_bytes_minus1, which are coded only when there may be several tiles. */
    method ReadTileOptions(r: BitReader) returns (ok: bool)
      requires colsLog2 <= 6 && rowsLog2 <= 6
      modifies this`contextUpdateTileID, this`sizeBytesMinus1, r`pos
      ensures var n, p := colsLog2 + rowsLog2, old(r.pos);
              if n == 0 then ok && r.pos == p && contextUpdateTileID == 0
              else if p + n + 2 > r.end then !ok
              else && ok && r.pos == p + n + 2 && contextUpdateTileID == Field(r.data, p, n)
                   && sizeBytesMinus1 == Field(r.data, p + n, 2)
    {
      hide Field;
      if colsLog2 > 0 || rowsLog2 > 0 {
        NarrowField(r.data, r.pos, colsLog2 + rowsLog2);
        var id := ReadBits(r, colsLog2 + rowsLog2);
        if id.Err? {
          return false;
        }
        contextUpdateTileID := Wrap16(id.value);
        var bytes := ReadBits(r, 2);
        if bytes.Err? {
          return false;
        }
        sizeBytesMinus1 := bytes.value;
      } else {
        contextUpdateTileID := 0;
      }
      return true;
    }

    lemma NarrowField(data: seq<byte>, p: nat, n: nat)
      requires n <= 12
      ensures Field(data, p, n) < 0x1_0000
    {
      FieldBound(data, p, n);
      Pow2Monotone(n, 12);
      PowerOfSum(6, 6);
      SixtyFour(6);
    }

    method ReadTiling(r: BitReader, g: Grid) returns (ok: bool)
      requires Valid() && Fits(g)
      modifies this`colsLog2, this`rowsLog2, this`cols, this`rows, startCol, startRow, widthMinus1, heightMinus1, r`pos
      ensures ok ==> Describes(g) && colsLog2 <= 6 && rowsLog2 <= 6 && 1 <= cols <= MAX_TILES && 1 <= rows <= MAX_TILES
      ensures ok ==> old(r.pos) <= r.pos && (r.pos <= r.end || r.pos == old(r.pos))
      ensures var tiling := TilingAt(r.data, old(r.pos), r.end, g, uniform);
              if ok then tiling.Some? && Holds(tiling.value) && r.pos == tiling.value.next else tiling.None?
    {
      hide SizesAt, Widest, LogAt, UniformSizes;
      hide Fits, UniformColumns, UniformRows, ExplicitColumns, ExplicitRows, IsWidest, MaxTileHeight, MinLog2Cols;
      if uniform {
        ok := ReadUniformColumns(r, g);
        if !ok {
          return;
        }
        EnoughColumnBits(g);
        ok := ReadUniformRows(r, g);
      } else {
        var widest;
        ok, widest := ReadExplicitColumns(r, g);
        if !ok {
          return;
        }
        ok := ReadExplicitRows(r, g, MaxTileHeight(g, widest));
      }
    }

    lemma EnoughColumnBits(g: Grid)
      requires Fits(g) && UniformColumns(g)
      ensures colsLog2 >= MinLog2Cols(g)
    {
    }
  }

  lemma TilesRead(starts: seq<uint8>, sizes: seq<uint8>, n: nat, total: nat, limit: nat)
    requires ReadTiles(starts, sizes, n, total, limit) && |sizes| == MAX_TILES
    ensures 0 < n <= MAX_TILES && TileLog2(1, n) <= 6
  {
    SixtyFour(6);
    TileLog2AtMost(1, n, 6);
  }

  lemma FewUniform(starts: seq<uint8>, sizes: seq<uint8>, n: nat, size: nat, total: nat)
    requires UniformTiles(starts, sizes, n, size, total)
    ensures n <= total
  {
    MulLe(1, size, n - 1);
  }

  /** The highest tile allowed once the widest one is known: the area limit divided by its width. */
  function MaxTileHeight(g: Grid, widest: nat): (h: nat)
    requires Fits(g) && widest > 0
    ensures h > 0
  {
    var area := if MinLog2Tiles(g) > 0 then Shr(g.sbRows * g.sbCols, MinLog2Tiles(g) + 1) else g.sbRows * g.sbCols;
    Max(area / widest, 1)
  }

  /**
   * It is the largest height at which tiles as wide as the widest fit 2^(m+1) times into the frame, m being the least
   * logarithm of the number of tiles; or once, when m is zero. A height of one is always allowed.
   */
  lemma MaxTileHeightIs(g: Grid, widest: nat)
    requires Fits(g) && widest > 0
    ensures var h, m, area := MaxTileHeight(g, widest), MinLog2Tiles(g), g.sbRows * g.sbCols;
            var parts := if m == 0 then 1 else Pow2(m + 1);
            (h == 1 || h * widest * parts <= area) && area < (h + 1) * widest * parts
  {
    hide Shr, Shl, Fits, MinLog2Tiles;
    var h, m, area := MaxTileHeight(g, widest), MinLog2Tiles(g), g.sbRows * g.sbCols;
    ShrBounds(area, m + 1);
    var part := if m > 0 then Shr(area, m + 1) else area;
    var parts := if m == 0 then 1 else Pow2(m + 1);
    ShlIsProduct(part, m + 1);
    ShlIsProduct(part + 1, m + 1);
    assert parts * part <= area < parts * (part + 1);
    HighestPart(h, widest, part, parts, area);
  }

  lemma HighestPart(h: nat, w: nat, part: nat, parts: nat, area: nat)
    requires w > 0 && h == Max(part / w, 1) && parts * part <= area < parts * (part + 1)
    ensures (h == 1 || h * w * parts <= area) && area < (h + 1) * w * parts
  {
    var q := part / w;
    assert part == w * q + part % w;
    assert w * (q + 1) == w * q + w;
    MulLe(part + 1, w * (q + 1), parts);
    assert w * (q + 1) == (q + 1) * w && w * q == q * w;
    MulLe(q + 1, h + 1, w);
    MulLe((q + 1) * w, (h + 1) * w, parts);
    MulLe(q * w, part, parts);
    assert parts * (part + 1) == (part + 1) * parts && parts * part == part * parts;
  }

  lemma CountsTiles(total: nat, log2: nat)
    requires total > 0 && log2 <= 6
    ensures var size := CeilShift(total, log2);
            && 0 < size <= total
            && var n := TileCount(total, size);
               1 <= n <= Pow2(log2) <= 64 && (n - 1) * size < total <= n * size
  {
    hide CeilShift, TileCount, Shl;
    CeilShiftIs(total, log2);
    SixtyFour(log2);
    var size := CeilShift(total, log2);
    assert size * Pow2(log2) == Pow2(log2) * size;
    TileCountIs(total, size, Pow2(log2));
  }

  lemma IsUniform(starts: seq<uint8>, sizes: seq<uint8>, n: nat, size: nat, total: nat)
    requires 0 < n <= |starts| && n <= |sizes| && 0 < size <= total && (n - 1) * size < total <= n * size
    requires forall j :: 0 <= j < n ==> starts[j] == Wrap8(j * size)
    requires forall j :: 0 <= j < n ==> sizes[j] == UniformSize(size, n, total, j)
    ensures UniformTiles(starts, sizes, n, size, total)
  {
  }

  /** A legal number of columns makes no column wider than the widest tile, so its size fits a byte. */
  lemma NarrowColumns(g: Grid, log2: nat)
    requires Fits(g) && log2 >= MinLog2Cols(g)
    ensures CeilShift(g.sbCols, log2) <= g.maxWidth <= 64
  {
    hide CeilShift, Shl, TileLog2;
    var w, t := g.maxWidth, CeilShift(g.sbCols, log2);
    ShlGrows(w, MinLog2Cols(g), log2);
    ShlIsProduct(w, log2);
    CeilShiftIs(g.sbCols, log2);
    assert Pow2(log2) * w == w * Pow2(log2);
    MulCancel(t - 1, w, Pow2(log2));
  }
}
