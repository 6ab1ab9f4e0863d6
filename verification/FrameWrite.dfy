/**
 * A writer for tile groups and whole frame OBUs, and their round trips: the tile group header, and a frame OBU from its
 * first byte to its tile data.
 */
module FrameWrite {
  import opened Common
  import opened Powers
  import opened Bits
  import opened Fields
  import opened FrameRefs
  import opened TileInfo
  import opened TileWrite
  import opened ObuSplit
  import opened ObuWrite
  import opened Av1State
  import opened Av1Header
  import opened Av1Context
  import opened Av1Units
  import opened HeaderWrite

  // ----- The fields of a header

  /** A header object that holds the header read has, field by field, what was written. */
  lemma FieldsAsWritten(current: FrameHeader, h: Header, w: Written, sq: Sequence, refs: seq<RefState>)
    requires RefsOk(refs) && HeaderWritable(w, sq, refs) && Says(h, w, sq, refs) && current.Holds(h)
    ensures current.frameType == w.frameType && current.showFrame == w.showFrame && !current.showExistingFrame
    ensures current.errorResilientMode == w.resilient && current.currentFrameID == w.id
    ensures current.frameSizeOverrideFlag == w.override && current.orderHint == w.orderHint
    ensures current.refreshFrameFlags == w.flags
    ensures w.Inter() ==> current.refFrameIdx == IdxOf(w, sq, refs)
    ensures w.Inter() ==> current.frameRefsShortSignaling == w.names.Signalled?
    ensures w.Inter() && w.names.Signalled? ==>
              current.lastFrameIdx == w.names.last && current.goldenFrameIdx == w.names.golden
    ensures w.sizing.Plain? ==>
              && current.frameWidthMinus1 == w.sizing.width - 1 && current.frameHeightMinus1 == w.sizing.height - 1
              && var size := w.sizing;
                 var (x, y) := if size.render.Some? then size.render.value else (size.width, size.height);
                 current.renderWidthMinus1 == x - 1 && current.renderHeightMinus1 == y - 1
    ensures current.tiles.uniform == w.tiles.uniform
    ensures current.tiles.cols == |w.tiles.tiling.widths| <= current.tiles.widthMinus1.Length
    ensures current.tiles.rows == |w.tiles.tiling.heights| <= current.tiles.heightMinus1.Length
    ensures current.tiles.widthMinus1[..current.tiles.cols] == w.tiles.tiling.widths
    ensures current.tiles.heightMinus1[..current.tiles.rows] == w.tiles.tiling.heights
    ensures current.tiles.colsLog2 == w.tiles.tiling.colsLog2 && current.tiles.rowsLog2 == w.tiles.tiling.rowsLog2
    ensures current.tiles.contextUpdateTileID == w.tiles.contextUpdateTileID
    ensures w.tiles.sizeBytesMinus1.Some? ==> current.tiles.sizeBytesMinus1 == w.tiles.sizeBytesMinus1.value
    ensures current.referenceSelect == w.select && current.skipModePresent == w.skip
  {
    hide WritableFields, SkipFits, MaySkip, FrameGrid, StartFits, IdsFit, ChoiceFits, SizingFits, SlotAfter,
         DerivedRefs, RefsOk, SlotsOf, SuperresWidth, IdxOf;
  }

  // ----- Tile groups

  /** The least number of bits that can name count columns or rows. */
  ghost predicate NamesAll(count: nat, n: nat) {
    count <= Pow2(n) && (n > 0 ==> Pow2(n - 1) < count)
  }

  /** The bounds of a tile group, if they are given; n bits each. A frame of one tile has none. */
  function GroupCode(tiles: nat, bounds: Option<(nat, nat)>, n: nat): bits {
    if tiles <= 1 then []
    else
      match bounds
      case None => [false]
      case Some((start, last)) => [true] + (ToBits(start, n) + ToBits(last, n))
  }

  /** Bounds that can be written: they go on behind the tiles counted. Without bounds the group is the whole frame. */
  predicate BoundsFit(tiles: nat, counted: nat, bounds: Option<(nat, nat)>) {
    bounds.Some? ==> tiles > 1 && counted <= bounds.value.0 <= bounds.value.1 < tiles
  }

  function LastOf(tiles: nat, bounds: Option<(nat, nat)>): nat
    requires tiles > 0
  {
    if bounds.Some? then bounds.value.1 else tiles - 1
  }

  lemma AlignedIs(q: nat, pad: nat)
    requires pad < 8 && (q + pad) % 8 == 0
    ensures Aligned(q) == q + pad
  {
  }

  lemma PaddedAligns(data: seq<byte>, q: nat, pad: nat, end: int)
    requires pad < 8 && (q + pad) % 8 == 0 && Shows(data, q, ZeroBits(pad)) && q + pad <= end
    ensures AlignsAt(data, q, end)
  {
    hide BitAt;
    AlignedIs(q, pad);
    forall k | q <= k < q + pad
      ensures !BitAt(data, k)
    {
      BitsOfAt(data, q, pad, k - q);
    }
  }

  lemma NumberFits(v: nat, cols: nat, rows: nat, a: nat, b: nat)
    requires NamesAll(cols, a) && NamesAll(rows, b) && v < cols * rows
    ensures v < Pow2(a + b)
  {
    hide Pow2;
    PowerOfSum(a, b);
    MulLe(cols, Pow2(a), rows);
    assert Pow2(a) * rows == rows * Pow2(a);
    MulLe(rows, Pow2(b), Pow2(a));
    assert Pow2(b) * Pow2(a) == Pow2(a) * Pow2(b);
  }

  lemma BoundsRead(data: seq<byte>, p: nat, end: int, s: State, bounds: Option<(nat, nat)>, a: nat, b: nat)
    requires NamesAll(s.tileCols, a) && NamesAll(s.tileRows, b) && 0 < s.NumTiles() <= TWO_TO_THE_16
    requires BoundsFit(s.NumTiles(), s.tileNum, bounds)
    requires Shows(data, p, GroupCode(s.NumTiles(), bounds, a + b))
    requires p + |GroupCode(s.NumTiles(), bounds, a + b)| <= end
    ensures BoundsAt(data, p, end, s)
         == Some(Bounds(bounds.Some?, if bounds.Some? then bounds.value.0 else 0, LastOf(s.NumTiles(), bounds),
                        p + |GroupCode(s.NumTiles(), bounds, a + b)|))
  {
    hide Shows, BitAt, Field, ToBits, Pow2, TileIndexBits, NamesAll, State.NumTiles;
    IndexBits(s, a, b);
    if s.NumTiles() > 1 {
      if bounds.None? {
        NothingBehind([false]);
        ShowsFlag(data, p, false, []);
      } else {
        var (start, last) := bounds.value;
        TilesProduct(s);
        NumberFits(start, s.tileCols, s.tileRows, a, b);
        NumberFits(last, s.tileCols, s.tileRows, a, b);
        ShowsFlag(data, p, true, ToBits(start, a + b) + ToBits(last, a + b));
        ShowsNumber(data, p + 1, start, a + b, ToBits(last, a + b));
        NothingBehind(ToBits(last, a + b));
        ShowsNumber(data, p + 1 + (a + b), last, a + b, []);
      }
    }
  }

  lemma IndexBits(s: State, a: nat, b: nat)
    requires NamesAll(s.tileCols, a) && NamesAll(s.tileRows, b)
    ensures TileIndexBits(s) == a + b
  {
    TileIndexBitsAre(s, a, b);
  }

  lemma TilesProduct(s: State)
    ensures s.NumTiles() == s.tileCols * s.tileRows
  {
  }

  /**
   * A tile group header reads back: with bounds, each in the fewest bits that name every column and every row, or
   * without, and zero bits up to the next byte.
   */
  lemma GroupRoundTrip(data: seq<byte>, p: nat, end: int, s: State, bounds: Option<(nat, nat)>, a: nat, b: nat,
                       pad: nat)
    requires NamesAll(s.tileCols, a) && NamesAll(s.tileRows, b) && 0 < s.NumTiles() <= TWO_TO_THE_16
    requires BoundsFit(s.NumTiles(), s.tileNum, bounds)
    requires var code := GroupCode(s.NumTiles(), bounds, a + b);
             Shows(data, p, code + ZeroBits(pad)) && p + |code| + pad <= end && pad < 8 && (p + |code| + pad) % 8 == 0
    ensures var next := p + |GroupCode(s.NumTiles(), bounds, a + b)| + pad;
            && TileEvent(data, p, end, s) == Tiles(bounds.Some?, if bounds.Some? then bounds.value.0 else 0,
                                                   LastOf(s.NumTiles(), bounds), true)
            && TileEnd(data, p, end, s) == Some(next)
  {
    hide Shows, GroupCode, BoundsAt, AlignsAt, Aligned, NamesAll, State.NumTiles;
    var code := GroupCode(s.NumTiles(), bounds, a + b);
    ShowsParts(data, p, code, ZeroBits(pad));
    BoundsRead(data, p, end, s, bounds, a, b);
    PaddedAligns(data, p + |code|, pad, end);
    AlignedIs(p + |code|, pad);
  }

  // ----- Whole frame OBUs

  /** The header event of a header that is there. */
  lemma OpenedEvent(data: seq<byte>, p: nat, gap: Gap, s: State, h: Header, code: bits)
    requires Invariant(s) && !s.seen && p + |code| <= 8 * |data| && Shows(data, p, code)
    requires OpeningAt(data, p, 8 * |data|, gap, s) == Some(Full(h)) && h.back.next == p + |code|
    ensures HeaderEvent(data, p, 8 * |data|, gap, s, false) == Event.Opened(code, h.front.start.flags)
  {
    hide OpeningAt, Invariant;
  }

  /** The frame that the header wrote is open, and no tile of it has been counted. */
  ghost predicate FrameOpen(s: State, t: State, w: Written)
    requires RefsOk(s.refs) && s.sequence.Some? && HeaderWritable(w, s.sequence.value, s.refs) && w.flags < 256
  {
    && t == s.(seen := true, stored := t.stored, storedBits := t.storedBits,
               size := FrameOf(w, s.sequence.value, s.refs), orderHint := w.orderHint,
               tileCols := |w.tiles.tiling.widths|, tileRows := |w.tiles.tiling.heights|, tileNum := 0, refs := t.refs)
    && |t.refs| == NUM_REF_FRAMES
    && forall i :: 0 <= i < NUM_REF_FRAMES ==> t.refs[i] == SlotThen(w, s.sequence.value, s.refs, i)
  }

  lemma OpensFrame(data: seq<byte>, p: nat, gap: Gap, s: State, t: State, h: Header, w: Written)
    requires Invariant(s) && !s.seen && OpeningAt(data, p, 8 * |data|, gap, s) == Some(Full(h))
    requires Opens(data, p, gap, s, t) && s.sequence.Some? && HeaderWritable(w, s.sequence.value, s.refs)
    requires Says(h, w, s.sequence.value, s.refs)
    ensures w.flags < 256 && FrameOpen(s, t, w)
  {
    hide OpeningAt, HeaderWritable, Says, WithHeader, FrameOf, SlotThen, RefsOk;
    SaysFlags(h, w, s.sequence.value, s.refs);
    HeaderLeads(s, h, w);
  }

  lemma SaysFlags(h: Header, w: Written, sq: Sequence, refs: seq<RefState>)
    requires RefsOk(refs) && HeaderWritable(w, sq, refs) && Says(h, w, sq, refs)
    ensures w.flags < 256 && h.front.start.flags == w.flags && |h.front.start.slots| == NUM_REF_FRAMES
  {
    hide HeaderWritable, FrameOf, IdxOf;
  }

  /**
   * The content of a frame OBU: a header, zero bits up to the next byte, the bounds of a tile group, each of
   * colBits + rowBits bits, and zero bits up to the next byte.
   */
  datatype Frame = Frame(header: Written, bounds: Option<(nat, nat)>, colBits: nat, rowBits: nat, pad: nat, last: nat) {
    function Cols(): nat {
      |header.tiles.tiling.widths|
    }

    function Rows(): nat {
      |header.tiles.tiling.heights|
    }

    function Tiles(): nat {
      Cols() * Rows()
    }

    function Group(): bits {
      GroupCode(Tiles(), bounds, colBits + rowBits)
    }
  }

  /** A frame that can be written in state s. */
  ghost predicate FrameWritable(f: Frame, s: State, runs: Runs)
    requires Invariant(s)
  {
    && !s.seen && s.sequence.Some? && HeaderWritable(f.header, s.sequence.value, s.refs)
    && NamesAll(f.Cols(), f.colBits) && NamesAll(f.Rows(), f.rowBits) && BoundsFit(f.Tiles(), 0, f.bounds)
    && f.pad < 8 && (|HeaderCode(f.header, s.sequence.value, s.refs, runs)| + f.pad) % 8 == 0
    && f.last < 8 && (|f.Group()| + f.last) % 8 == 0
  }

  ghost function FrameCode(f: Frame, s: State, runs: Runs): bits
    requires Invariant(s) && FrameWritable(f, s, runs)
  {
    HeaderCode(f.header, s.sequence.value, s.refs, runs) + (ZeroBits(f.pad) + (f.Group() + ZeroBits(f.last)))
  }

  lemma ContentShows(o: Obu, code: bits)
    requires o.Valid() && Shows(o.payload, 0, code) && |code| <= 8 * |o.payload|
    ensures Whole(o.Bytes()) && HeaderOf(o.Bytes()) == Some(o.Header())
    ensures Shows(o.Bytes(), 8 * ContentByte(o.Bytes()), code)
    ensures 8 * ContentByte(o.Bytes()) + 8 * |o.payload| == 8 * |o.Bytes()|
  {
    hide HeaderOf, ContentByte, Whole, BitsOf, Obu.Bytes, Obu.Valid;
    WrittenContent(o);
    var rbsp, k := o.Bytes(), ContentByte(o.Bytes());
    assert rbsp[k..k + |o.payload|] == o.payload;
    SliceBits(rbsp, k, |o.payload|, |code|);
  }

  /** The header of a frame that stands at p opens the frame with its own bits, and leads to its own state. */
  lemma FrameHeaderReads(rbsp: seq<byte>, p: nat, gap: Gap, runs: Runs, f: Frame, s: State)
    requires Invariant(s) && FrameWritable(f, s, runs) && Reads(gap, runs)
    requires Shows(rbsp, p, HeaderCode(f.header, s.sequence.value, s.refs, runs))
    requires p + |HeaderCode(f.header, s.sequence.value, s.refs, runs)| < 8 * |rbsp|
    ensures f.header.flags < 256
    ensures HeaderEvent(rbsp, p, 8 * |rbsp|, gap, s, false)
         == Event.Opened(HeaderCode(f.header, s.sequence.value, s.refs, runs), f.header.flags)
    ensures forall t :: Opens(rbsp, p, gap, s, t) ==> FrameOpen(s, t, f.header)
  {
    hide Shows, HeaderWritable, OpeningAt, HeaderEvent, HeaderCode, Opens, FrameOpen, Says, NamesAll, RefsOk,
         Frame.Group;
    HeaderRoundTrip(rbsp, p, 8 * |rbsp|, gap, runs, f.header, s);
    var h := OpeningAt(rbsp, p, 8 * |rbsp|, gap, s).value.header;
    SaysFlags(h, f.header, s.sequence.value, s.refs);
    OpenedEvent(rbsp, p, gap, s, h, HeaderCode(f.header, s.sequence.value, s.refs, runs));
    forall t | Opens(rbsp, p, gap, s, t)
      ensures FrameOpen(s, t, f.header)
    {
      OpensFrame(rbsp, p, gap, s, t, h, f.header);
    }
  }

  /** And behind it the tile group is read in the state reached. */
  lemma FrameGroupReads(rbsp: seq<byte>, q: nat, runs: Runs, f: Frame, s: State, t: State, header: bits)
    requires Invariant(s) && FrameWritable(f, s, runs) && f.header.flags < 256
    requires FrameOpen(s, t, f.header) && Step(s, Event.Opened(header, f.header.flags), t)
    requires q % 8 == 0 && Shows(rbsp, q, f.Group() + ZeroBits(f.last)) && q + |f.Group()| + f.last < 8 * |rbsp|
    ensures f.Tiles() > 0 && t.seen && t.NumTiles() == f.Tiles()
    ensures TileEvents(rbsp, q, t)
         == [Tiles(f.bounds.Some?, if f.bounds.Some? then f.bounds.value.0 else 0, LastOf(f.Tiles(), f.bounds), true)]
    ensures TileDataAt(rbsp, q, t).Some?
  {
    hide HeaderWritable, NamesAll, Shows, RefsOk, FrameOk, FrameOpen, HeaderCode, TileEvent, TileEnd, Step,
         State.NumTiles, Frame.Tiles, GroupCode;
    OpenTiles(s, t, header, f);
    GroupRoundTrip(rbsp, q, 8 * |rbsp|, t, f.bounds, f.colBits, f.rowBits, f.last);
  }

  /** An open frame has tiles, and counts them from zero on. */
  lemma OpenTiles(s: State, t: State, header: bits, f: Frame)
    requires RefsOk(s.refs) && s.sequence.Some? && HeaderWritable(f.header, s.sequence.value, s.refs)
    requires f.header.flags < 256 && FrameOpen(s, t, f.header) && Step(s, Event.Opened(header, f.header.flags), t)
    ensures t.tileCols == f.Cols() && t.tileRows == f.Rows() && t.tileNum == 0 && t.seen
    ensures t.NumTiles() == f.Tiles() && 0 < t.NumTiles() <= TWO_TO_THE_16
  {
    hide HeaderWritable, FrameOf, SlotThen, Refreshed;
    ProductBounds(t.tileCols, t.tileRows);
  }

  lemma GroupStep(s: State, e: Event, t: State)
    requires e.Tiles? && e.aligned && Step(s, e, t) && s.seen
    ensures t == s.(tileNum := e.end + 1, seen := e.end != s.NumTiles() - 1)
  {
  }

  /**
   * A frame OBU, from its first byte on: whatever header and tile group a writer puts into an OBU of type 6, with tile
   * data behind them, a unit that is not skipped takes two steps: it opens the frame with exactly the bits of that
   * header, and counts exactly the tiles of that group. It is decomposed, and the state between is that of the header.
   */
  lemma FrameUnitRoundTrip(o: Obu, inputs: Unmodelled, operatingPoint: int, piece: Piece, outcome: Outcome, runs: Runs,
                           f: Frame)
    requires o.Valid() && o.typ == 6 && !outcome.Skipped?
    requires PieceSays(o.Bytes(), inputs, operatingPoint, piece, outcome)
    requires FrameWritable(f, piece.states[0], runs) && Reads(inputs.gap, runs)
    requires Shows(o.payload, 0, FrameCode(f, piece.states[0], runs))
    requires |FrameCode(f, piece.states[0], runs)| < 8 * |o.payload|
    ensures outcome.Decomposed? && f.header.flags < 256 && f.Tiles() > 0
    ensures var s, last := piece.states[0], LastOf(f.Tiles(), f.bounds);
            && piece.events
               == [Event.Opened(HeaderCode(f.header, s.sequence.value, s.refs, runs), f.header.flags),
                   Tiles(f.bounds.Some?, if f.bounds.Some? then f.bounds.value.0 else 0, last, true)]
            && FrameOpen(s, piece.states[1], f.header)
            && piece.states[2] == piece.states[1].(tileNum := last + 1, seen := last != f.Tiles() - 1)
  {
    hide HeaderOf, UnitSays, RefsOk, FrameOk, HeaderWritable, Reads, HeaderCode, NamesAll, Shows, Whole, ContentByte,
         BoundsFit, HeaderEvent, TileEvents, TileDataAt, AlignsAt, Aligned, Opens, FrameOpen, Obu.Bytes, Obu.Valid,
         Step, State.NumTiles, Frame.Tiles, Frame.Group;
    var rbsp, s := o.Bytes(), piece.states[0];
    var header := HeaderCode(f.header, s.sequence.value, s.refs, runs);
    var behind := f.Group() + ZeroBits(f.last);
    ContentShows(o, FrameCode(f, s, runs));
    var p := 8 * ContentByte(rbsp);
    ShowsParts(rbsp, p, header, ZeroBits(f.pad) + behind);
    ShowsParts(rbsp, p + |header|, ZeroBits(f.pad), behind);
    FrameHeaderReads(rbsp, p, inputs.gap, runs, f, s);
    PaddedAligns(rbsp, p + |header|, f.pad, 8 * |rbsp|);
    AlignedIs(p + |header|, f.pad);
    WholeType(rbsp);
    FrameUnitSays(rbsp, inputs, operatingPoint, piece.states, piece.events, outcome);
    assert Step(piece.states[0], piece.events[0], piece.states[1]);
    FrameGroupReads(rbsp, p + |header| + f.pad, runs, f, s, piece.states[1], header);
    assert Step(piece.states[1], piece.events[1], piece.states[2]);
    GroupStep(piece.states[1], piece.events[1], piece.states[2]);
  }
}
