/** A writer for tile_info() (section 5.9.15 of AV1), and its round trip through the reader. */
module TileWrite {
  import opened Common
  import opened Powers
  import opened Bits
  import opened Fields
  import opened Av1Codes
  import opened TileInfo

  // ----- Sizes coded one by one

  /** Sizes, each stored less one, that fill left superblocks or use up the room for tiles. */
  predicate Codable(sizes: seq<uint8>, left: nat, limit: nat, room: nat) {
    if left == 0 || room == 0 then sizes == []
    else sizes != [] && sizes[0] < Min(left, limit) && Codable(sizes[1..], left - sizes[0] - 1, limit, room - 1)
  }

  /** Each size in ns of the largest it can be. */
  function SizesCode(sizes: seq<uint8>, left: nat, limit: nat, room: nat): bits
    requires Codable(sizes, left, limit, room)
  {
    if sizes == [] then []
    else NsCode(sizes[0], Min(left, limit)) + SizesCode(sizes[1..], left - sizes[0] - 1, limit, room - 1)
  }

  lemma NsReads(data: seq<byte>, p: nat, n: nat, x: nat)
    requires x < n && BitsOf(data, p, |NsCode(x, n)|) == NsCode(x, n)
    ensures ParseNs(data, p, n) == (x, p + |NsCode(x, n)|) && |NsCode(x, n)| >= Log2(n)
  {
    NsInverts(data, p, n, Log2(n), NsShort(n), x);
  }

  /** The sizes written are read back, if the bits go on for one bit more: readNs may ask for it. */
  lemma {:induction false} SizesRead(data: seq<byte>, p: nat, end: int, left: nat, limit: nat, sizes: seq<uint8>,
                                     acc: seq<uint8>)
    requires limit > 0 && |acc| <= MAX_TILES && Codable(sizes, left, limit, MAX_TILES - |acc|)
    requires var code := SizesCode(sizes, left, limit, MAX_TILES - |acc|);
             BitsOf(data, p, |code|) == code && p + |code| + 1 <= end
    ensures SizesAt(data, p, end, left, limit, acc)
         == Some((acc + sizes, p + |SizesCode(sizes, left, limit, MAX_TILES - |acc|)|))
    decreases |sizes|
  {
    hide BitsOf, NsCode, SizesAt, ParseNs, Log2;
    SizesEnd(data, p, end, left, limit, acc);
    if sizes != [] {
      var size := sizes[0];
      var first, rest := NsCode(size, Min(left, limit)),
           SizesCode(sizes[1..], left - size - 1, limit, MAX_TILES - |acc| - 1);
      ShownPieces(data, p, first, rest);
      NsReads(data, p, Min(left, limit), size);
      SizesStep(data, p, end, left, limit, acc, p + |first|, size);
      SizesRead(data, p + |first|, end, left - size - 1, limit, sizes[1..], acc + [size]);
      assert acc + [size] + sizes[1..] == acc + sizes;
    } else {
      assert acc + sizes == acc;
    }
  }

  // ----- Tilings

  /** A logarithm from lo to hi. */
  function LogCode(log2: nat, lo: nat, hi: nat): bits
    requires lo <= log2 <= hi
  {
    IncrementCode(log2 - lo, hi - lo)
  }

  lemma LogReads(data: seq<byte>, p: nat, end: int, log2: nat, lo: nat, hi: nat)
    requires lo <= log2 <= hi && BitsOf(data, p, |LogCode(log2, lo, hi)|) == LogCode(log2, lo, hi)
    requires p + |LogCode(log2, lo, hi)| <= end
    ensures LogAt(data, p, end, lo, hi) == Some((log2, p + |LogCode(log2, lo, hi)|))
  {
    IncrementExact(data, p, log2 - lo, hi - lo);
  }

  /** A tiling that tile_info() can code for this frame. */
  predicate Writable(g: Grid, t: Tiling, uniform: bool)
    requires Fits(g)
  {
    if uniform then
      && MinLog2Cols(g) <= t.colsLog2 <= MaxLog2(g.sbCols)
      && MinLog2Rows(g, t.colsLog2) <= t.rowsLog2 <= MaxLog2(g.sbRows)
      && t.widths == UniformSizes(g.sbCols, t.colsLog2) && t.heights == UniformSizes(g.sbRows, t.rowsLog2)
    else
      && Codable(t.widths, g.sbCols, g.maxWidth, MAX_TILES) && t.widths != []
      && Codable(t.heights, g.sbRows, MaxTileHeight(g, Widest(t.widths)), MAX_TILES)
      && t.colsLog2 == TileLog2(1, |t.widths|) && t.rowsLog2 == TileLog2(1, |t.heights|)
  }

  function ColumnsCode(g: Grid, t: Tiling, uniform: bool): bits
    requires Fits(g) && Writable(g, t, uniform)
  {
    if uniform then LogCode(t.colsLog2, MinLog2Cols(g), MaxLog2(g.sbCols))
    else SizesCode(t.widths, g.sbCols, g.maxWidth, MAX_TILES)
  }

  function RowsCode(g: Grid, t: Tiling, uniform: bool): bits
    requires Fits(g) && Writable(g, t, uniform)
  {
    if uniform then LogCode(t.rowsLog2, MinLog2Rows(g, t.colsLog2), MaxLog2(g.sbRows))
    else SizesCode(t.heights, g.sbRows, MaxTileHeight(g, Widest(t.widths)), MAX_TILES)
  }

  lemma TilingReads(data: seq<byte>, p: nat, end: int, g: Grid, t: Tiling, uniform: bool)
    requires Fits(g) && Writable(g, t, uniform)
    requires var code := ColumnsCode(g, t, uniform) + RowsCode(g, t, uniform);
             BitsOf(data, p, |code|) == code && p + |code| + 1 <= end && t.next == p + |code|
    ensures TilingAt(data, p, end, g, uniform) == Some(t)
  {
    hide BitsOf, LogCode, SizesCode, LogAt, SizesAt, Codable, UniformSizes, MaxTileHeight, MinLog2Cols, MinLog2Rows,
         MaxLog2, TileLog2, Widest,
         Fits;
    var cols, rows := ColumnsCode(g, t, uniform), RowsCode(g, t, uniform);
    ShownPieces(data, p, cols, rows);
    if uniform {
      LogReads(data, p, end, t.colsLog2, MinLog2Cols(g), MaxLog2(g.sbCols));
      LogReads(data, p + |cols|, end, t.rowsLog2, MinLog2Rows(g, t.colsLog2), MaxLog2(g.sbRows));
    } else {
      GridLimits(g);
      SizesRead(data, p, end, g.sbCols, g.maxWidth, t.widths, []);
      SizesRead(data, p + |cols|, end, g.sbRows, MaxTileHeight(g, Widest(t.widths)), t.heights, []);
      assert [] + t.widths == t.widths && [] + t.heights == t.heights;
    }
  }

  lemma GridLimits(g: Grid)
    requires Fits(g)
    ensures g.maxWidth > 0
  {
  }

  // ----- The whole of tile_info()

  /** Fields that tile_info() can code: the last two only when there may be several tiles. */
  predicate WritableFields(g: Grid, f: TileFields)
    requires Fits(g)
  {
    var n := f.tiling.colsLog2 + f.tiling.rowsLog2;
    && Writable(g, f.tiling, f.uniform)
    && if n == 0 then f.contextUpdateTileID == 0 && f.sizeBytesMinus1.None?
       else f.contextUpdateTileID < Pow2(n) && f.sizeBytesMinus1.Some? && f.sizeBytesMinus1.value < 4
  }

  function OptionsCode(f: TileFields): bits {
    var n := f.tiling.colsLog2 + f.tiling.rowsLog2;
    if n == 0 || f.sizeBytesMinus1.None? then []
    else ToBits(f.contextUpdateTileID, n) + ToBits(f.sizeBytesMinus1.value, 2)
  }

  function TileInfoCode(g: Grid, f: TileFields): bits
    requires Fits(g) && WritableFields(g, f)
  {
    [f.uniform] + (ColumnsCode(g, f.tiling, f.uniform) + RowsCode(g, f.tiling, f.uniform) + OptionsCode(f))
  }

  lemma OptionsRead(data: seq<byte>, p: nat, f: TileFields, g: Grid)
    requires Fits(g) && WritableFields(g, f) && BitsOf(data, p, |OptionsCode(f)|) == OptionsCode(f)
    ensures var n := f.tiling.colsLog2 + f.tiling.rowsLog2;
            if n == 0 then |OptionsCode(f)| == 0
            else && |OptionsCode(f)| == n + 2 && Field(data, p, n) == f.contextUpdateTileID
                 && Field(data, p + n, 2) == f.sizeBytesMinus1.value
  {
    hide Writable, BitsOf, Fits;
    var n := f.tiling.colsLog2 + f.tiling.rowsLog2;
    if n > 0 {
      ShownPieces(data, p, ToBits(f.contextUpdateTileID, n), ToBits(f.sizeBytesMinus1.value, 2));
      ValueToBits(f.contextUpdateTileID, n);
      assert Pow2(2) == 4;
      ValueToBits(f.sizeBytesMinus1.value, 2);
    }
  }

  /**
   * tile_info() reads back whatever was written: for every frame, in both modes, every tiling that can be coded and
   * every value of the fields behind it. The bits must go on for one bit more, as they do in a frame header.
   */
  lemma TileInfoRoundTrip(data: seq<byte>, p: nat, end: int, g: Grid, f: TileFields)
    requires Fits(g) && WritableFields(g, f)
    requires var code := TileInfoCode(g, f);
             BitsOf(data, p, |code|) == code && p + |code| + 1 <= end && f.next == p + |code|
    requires f.tiling.next == p + |TileInfoCode(g, f)| - |OptionsCode(f)|
    ensures TileInfoAt(data, p, end, g) == Some(f)
  {
    hide BitsOf, ColumnsCode, RowsCode, OptionsCode, TilingAt, Fits, Writable;
    var tiles, options := ColumnsCode(g, f.tiling, f.uniform) + RowsCode(g, f.tiling, f.uniform), OptionsCode(f);
    ShownHead(data, p, f.uniform, tiles + options);
    ShownPieces(data, p + 1, tiles, options);
    TilingReads(data, p + 1, end, g, f.tiling, f.uniform);
    OptionsRead(data, p + 1 + |tiles|, f, g);
  }
}
