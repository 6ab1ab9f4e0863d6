/**
 * The state an AV1 parser keeps between OBUs, the steps it can take, and what holds after any run of them.
 * The methods of Av1Context are proved to take only these steps.
 */
module Av1State {
  import opened Common
  import opened Powers
  import opened Bits
  import opened OrderHints
  import opened FrameRefs
  import opened TileInfo

  // ----- Values

  /** The sequence header fields that the frame header parser looks at. ids are the lengths of frame ids, if present. */
  datatype Sequence = Sequence(reducedStill: bool, enableSuperres: bool, use128: bool,
                               frameWidthBitsMinus1: nat, frameHeightBitsMinus1: nat,
                               maxFrameWidthMinus1: uint16, maxFrameHeightMinus1: uint16,
                               hints: HintCoding, ids: Option<(nat, nat)>) {
    ghost predicate Valid() {
      && frameWidthBitsMinus1 < 16 && frameHeightBitsMinus1 < 16 && hints.Valid()
      && (ids.Some? ==> ids.value.0 <= 32 && ids.value.1 <= 32)
    }
  }

  datatype Size = Size(upscaledWidth: int, frameWidth: int, frameHeight: int, renderWidth: int, renderHeight: int)

  /** Every width and height lies in 1..65536, and superres never widens nor empties a frame. */
  ghost predicate SizeOk(s: Size) {
    && 1 <= s.frameWidth <= s.upscaledWidth <= MAX_FRAME_SIZE && 1 <= s.frameHeight <= MAX_FRAME_SIZE
    && 1 <= s.renderWidth <= MAX_FRAME_SIZE && 1 <= s.renderHeight <= MAX_FRAME_SIZE
  }

  /** AV1ReferenceFrameState. */
  datatype RefState = RefState(valid: bool, frameID: nat, size: Size, frameType: nat, orderHint: uint8)

  const NO_SIZE := Size(0, 0, 0, 0, 0)
  const NO_REF := RefState(false, 0, NO_SIZE, 0, 0)

  /** The slots of a parser that has not seen a frame. */
  function NoRefs(): (refs: seq<RefState>)
    ensures |refs| == NUM_REF_FRAMES && forall i :: 0 <= i < |refs| ==> refs[i] == NO_REF
  {
    seq(NUM_REF_FRAMES, _ => NO_REF)
  }

  datatype State = State(sequence: Option<Sequence>, seen: bool, stored: Option<seq<byte>>, storedBits: nat,
                         size: Size, orderHint: uint8, tileCols: nat, tileRows: nat, tileNum: nat, refs: seq<RefState>,
                         operatingPointIDC: nat) {
    function NumTiles(): nat {
      tileCols * tileRows
    }

    /** The bits of the stored frame header. */
    ghost function StoredHeader(): bits
      requires stored.Some?
    {
      BitsOf(stored.value, 0, storedBits)
    }
  }

  // ----- Steps

  /** A frame header before it succeeds can only take references away. */
  ghost predicate Weakened(refs: seq<RefState>, after: seq<RefState>) {
    |after| == |refs| && forall i :: 0 <= i < |refs| && after[i].valid ==> after[i] == refs[i]
  }

  /** A tile grid that tile_info() can give a frame of this size: in either direction no more tiles than superblocks. */
  ghost predicate GridFor(size: Size, use128: bool, cols: nat, rows: nat): (b: bool)
    ensures b ==> SizeOk(size) && 1 <= cols <= MAX_TILES && 1 <= rows <= MAX_TILES
  {
    && SizeOk(size)
    && var grid := GridOf(size.frameWidth, size.frameHeight, use128);
       1 <= cols <= Min(grid.sbCols, MAX_TILES) && 1 <= rows <= Min(grid.sbRows, MAX_TILES)
  }

  /** What a frame header may have changed before it fails. A new tile grid is one for the size it has just read. */
  ghost predicate Parsing(s: State, t: State) {
    && Weakened(s.refs, t.refs)
    && ((t.tileCols == s.tileCols && t.tileRows == s.tileRows)
        || (s.sequence.Some? && GridFor(t.size, s.sequence.value.use128, t.tileCols, t.tileRows)))
    && t == s.(size := t.size, orderHint := t.orderHint, tileCols := t.tileCols, tileRows := t.tileRows, refs := t.refs)
  }

  const KEY_FRAME := 0

  /** Bit i of refresh_frame_flags. */
  function Refreshes(flags: uint8, i: nat): bool {
    Shr(flags, i) % 2 == 1
  }

  /** The slots that the flags name hold a frame of this size and hint; valid others hold what they held. */
  ghost predicate Refreshed(refs: seq<RefState>, after: seq<RefState>, flags: uint8, size: Size, hint: uint8) {
    |after| == |refs| &&
    forall i :: 0 <= i < |refs| ==>
      if Refreshes(flags, i) then after[i].valid && after[i].size == size && after[i].orderHint == hint
      else after[i].valid ==> after[i] == refs[i]
  }

  /** What a frame header has changed when it succeeds, before it is stored. */
  ghost predicate Parsed(s: State, t: State, flags: uint8) {
    && Refreshed(s.refs, t.refs, flags, t.size, t.orderHint)
    && s.sequence.Some? && GridFor(t.size, s.sequence.value.use128, t.tileCols, t.tileRows)
    && t == s.(size := t.size, orderHint := t.orderHint, tileCols := t.tileCols, tileRows := t.tileRows, refs := t.refs)
  }

  /** Showing the frame of a slot again copies it to every slot when it is a key frame, and changes none otherwise. */
  ghost predicate ShownRefs(refs: seq<RefState>, after: seq<RefState>, slot: nat) {
    && slot < |refs| && refs[slot].valid
    && if refs[slot].frameType == KEY_FRAME
       then |after| == |refs| && forall i :: 0 <= i < |refs| ==> after[i] == refs[slot]
       else after == refs
  }

  /** What else showing a frame again may change. */
  ghost predicate Loaded(s: State, t: State) {
    t == s.(size := t.size, orderHint := t.orderHint, refs := t.refs)
  }

  datatype Event =
    | Idle                                              // nothing that this state records
    | SequenceHeader(sequence: Sequence, operatingPointIDC: nat)
    | Delimiter
    | Flush
    | HeaderFailed                                      // a frame header given up half way
    | ShownExisting(header: bits, slot: nat)            // show_existing_frame
    | Opened(header: bits, flags: uint8)                // a frame header parsed and kept
    | Redundant(offered: bits, accepted: bool)          // a copy compared with it
    | Tiles(explicit: bool, start: nat, end: nat, aligned: bool)

  /** A tile group with explicit bounds is accepted. */
  ghost predicate GroupAccepted(s: State, start: nat, end: nat) {
    s.NumTiles() > 1 && s.tileNum <= start <= end < s.NumTiles()
  }

  ghost predicate Step(s: State, e: Event, t: State) {
    match e
    case Idle => t == s
    case SequenceHeader(seqHeader, idc) => seqHeader.Valid() &&
    t == s.(sequence := Some(seqHeader), operatingPointIDC := idc)
    case Delimiter => t == s.(seen := false)
    case Flush =>
      t == s.(sequence := None, seen := false, stored := None, storedBits := 0, tileNum := 0,
              refs := NoRefs(), operatingPointIDC := 0)
    case HeaderFailed =>
      !s.seen && Parsing(s, t)
    case ShownExisting(_, slot) =>
      && !s.seen && ShownRefs(s.refs, t.refs, slot)
      && t == s.(size := t.size, orderHint := t.orderHint, tileNum := 0, refs := t.refs)
    case Opened(header, flags) =>
      && !s.seen && Refreshed(s.refs, t.refs, flags, t.size, t.orderHint)
      && s.sequence.Some? && GridFor(t.size, s.sequence.value.use128, t.tileCols, t.tileRows)
      && t.stored.Some? && |header| > 0 && |t.stored.value| == (|header| + 7) / 8 && t.storedBits == |header|
      && t.StoredHeader() == header
      && t == s.(seen := true, stored := t.stored, storedBits := t.storedBits, size := t.size, orderHint := t.orderHint,
                 tileCols := t.tileCols, tileRows := t.tileRows, tileNum := 0, refs := t.refs)
    case Redundant(offered, accepted) =>
      s.seen && t == s && s.stored.Some? && (accepted <==> offered == s.StoredHeader())
    case Tiles(explicit, start, end, aligned) =>
      && (if explicit then GroupAccepted(s, start, end)
          else start == 0 && end == Wrap16(s.NumTiles() - 1))
      && t == s.(tileNum := end + 1, seen := s.seen && !(aligned && end == s.NumTiles() - 1))
  }

  lemma FlushStep(s: State, t: State)
    requires t == s.(sequence := None, seen := false, stored := None, storedBits := 0, tileNum := 0,
                     refs := NoRefs(), operatingPointIDC := 0)
    ensures Step(s, Flush, t)
  {
  }

  /** Storing a parsed header is the step that opens a frame. */
  lemma OpenedStep(s: State, m: State, header: bits, flags: uint8, t: State)
    requires !s.seen && Parsed(s, m, flags) && |header| > 0 && t.stored.Some? && |t.stored.value| == (|header| + 7) / 8
    requires t == m.(seen := true, stored := t.stored, storedBits := |header|, tileNum := 0)
    requires t.StoredHeader() == header
    ensures Step(s, Opened(header, flags), t)
  {
  }

  lemma FailedStep(s: State, t: State)
    requires !s.seen && Parsing(s, t)
    ensures Step(s, HeaderFailed, t)
  {
  }

  lemma ShownStep(s: State, m: State, header: bits, slot: nat, t: State)
    requires !s.seen && ShownRefs(s.refs, m.refs, slot) && Loaded(s, m) && t == m.(tileNum := 0)
    ensures Step(s, ShownExisting(header, slot), t)
  {
  }

  /** States and the events between them. */
  ghost predicate Run(states: seq<State>, events: seq<Event>) {
    && |states| == |events| + 1
    && forall i :: 0 <= i < |events| ==> Step(states[i], events[i], states[i + 1])
  }

  // ----- What every state satisfies

  ghost predicate RefsOk(refs: seq<RefState>) {
    |refs| == NUM_REF_FRAMES && forall i :: 0 <= i < |refs| && refs[i].valid ==> SizeOk(refs[i].size)
  }

  /** An open frame has a stored header of storedBits bits, a tile grid, and has not counted past its last tile. */
  ghost predicate FrameOk(s: State) {
    && s.stored.Some? && s.storedBits > 0 && |s.stored.value| == (s.storedBits + 7) / 8
    && 1 <= s.tileCols <= MAX_TILES && 1 <= s.tileRows <= MAX_TILES && s.tileNum <= s.NumTiles()
  }

  ghost predicate Invariant(s: State) {
    && RefsOk(s.refs) && s.tileCols <= MAX_TILES && s.tileRows <= MAX_TILES && s.tileNum <= TWO_TO_THE_16
    && (s.sequence.Some? ==> s.sequence.value.Valid())
    && (s.seen ==> FrameOk(s))
  }

  /** newAV1Context. */
  function Initial(): State {
    State(None, false, None, 0, NO_SIZE, 0, 0, 0, 0, NoRefs(), 0)
  }

  lemma InitialOk()
    ensures Invariant(Initial())
  {
  }

  lemma WeakenedOk(refs: seq<RefState>, after: seq<RefState>)
    requires RefsOk(refs) && Weakened(refs, after)
    ensures RefsOk(after)
  {
  }

  lemma RefreshedOk(refs: seq<RefState>, after: seq<RefState>, flags: uint8, size: Size, hint: uint8)
    requires RefsOk(refs) && Refreshed(refs, after, flags, size, hint) && SizeOk(size)
    ensures RefsOk(after)
  {
    hide Refreshes;
  }

  lemma GridProduct(a: nat, b: nat)
    requires a <= 64 && b <= 64
    ensures a * b <= 4096
  {
    MulLe(a, 64, b);
  }

  lemma ProductBounds(a: nat, b: nat)
    requires 1 <= a <= 64 && 1 <= b <= 64
    ensures 1 <= a * b <= 4096
  {
    MulLe(1, a, b);
    MulLe(a, 64, b);
  }

  /** Every step keeps the invariant, whatever fails. */
  lemma StepKeeps(s: State, e: Event, t: State)
    requires Invariant(s) && Step(s, e, t)
    ensures Invariant(t)
  {
    hide RefsOk, Weakened, Refreshed, SizeOk;
    match e {
      case HeaderFailed =>
        WeakenedOk(s.refs, t.refs);
      case ShownExisting(_, slot) =>
        ShownKeeps(s.refs, t.refs, slot);
      case Opened(header, flags) =>
        RefreshedOk(s.refs, t.refs, flags, t.size, t.orderHint);
      case Tiles(explicit, start, end, aligned) =>
        TilesKeep(s, e, t);
      case Flush =>
        InitialOk();
      case _ =>
    }
  }

  lemma ShownKeeps(refs: seq<RefState>, after: seq<RefState>, slot: nat)
    requires RefsOk(refs) && ShownRefs(refs, after, slot)
    ensures RefsOk(after)
  {
  }

  lemma TilesKeep(s: State, e: Event, t: State)
    requires Invariant(s) && e.Tiles? && Step(s, e, t)
    ensures Invariant(t)
    ensures s.seen ==> t.tileNum >= s.tileNum
  {
    hide RefsOk;
    GridProduct(s.tileCols, s.tileRows);
    if s.seen {
      ProductBounds(s.tileCols, s.tileRows);
    }
  }

  /** In every state of every run the invariant holds, and so in every reachable state. */
  lemma {:induction false} RunKeeps(states: seq<State>, events: seq<Event>, n: nat)
    requires Run(states, events) && n < |states| && Invariant(states[0])
    ensures Invariant(states[n])
  {
    hide Step, Invariant;
    if n > 0 {
      RunKeeps(states, events, n - 1);
      assert Step(states[n - 1], events[n - 1], states[n]);
      StepKeeps(states[n - 1], events[n - 1], states[n]);
    }
  }

  /** In every reachable state a valid slot has a proper size, and its inferred uint16 fields do not wrap. */
  lemma ReachableReferences(states: seq<State>, events: seq<Event>, n: nat, i: nat)
    requires Run(states, events) && n < |states| && states[0] == Initial()
    requires i < NUM_REF_FRAMES
    ensures |states[n].refs| == NUM_REF_FRAMES
    ensures var ref := states[n].refs[i];
            ref.valid ==> SizeOk(ref.size) && Wrap16(ref.size.upscaledWidth - 1) == ref.size.upscaledWidth - 1
                          && Wrap16(ref.size.frameHeight - 1) == ref.size.frameHeight - 1
                          && Wrap16(ref.size.renderWidth - 1) == ref.size.renderWidth - 1
                          && Wrap16(ref.size.renderHeight - 1) == ref.size.renderHeight - 1
  {
    InitialOk();
    RunKeeps(states, events, n);
  }

  // ----- The frame header protocol

  /** An open frame keeps its stored header, its tile grid, and counts tiles upwards only. */
  lemma OpenStep(s: State, e: Event, t: State)
    requires Invariant(s) && Step(s, e, t) && s.seen && t.seen
    ensures t.stored == s.stored && t.storedBits == s.storedBits && t.tileCols == s.tileCols && t.tileRows == s.tileRows
    ensures t.tileNum >= s.tileNum
  {
    hide RefsOk;
    if e.Tiles? {
      TilesKeep(s, e, t);
    }
  }

  /** The frame header is seen in every state from a to b. */
  ghost predicate OpenFrom(states: seq<State>, a: nat, b: nat) {
    b < |states| && forall k :: a <= k <= b ==> states[k].seen
  }

  /** The tile group that ends at the last tile, a temporal delimiter or a flush. */
  ghost predicate Ends(s: State, e: Event) {
    e.Delimiter? || e.Flush? || (e.Tiles? && e.aligned && e.end == s.NumTiles() - 1)
  }

  /** The frame opened by a header stays open exactly until one of these, in every run. */
  lemma {:induction false} OnlyTheseReopen(states: seq<State>, events: seq<Event>, a: nat, b: nat)
    requires Run(states, events) && a < b < |states| && events[a].Opened?
    ensures OpenFrom(states, a + 1, b) <==> forall k :: a < k < b ==> !Ends(states[k], events[k])
    decreases b
  {
    hide Refreshed, Weakened, ShownRefs, GridFor;
    assert Step(states[a], events[a], states[a + 1]);
    if a + 1 < b {
      OnlyTheseReopen(states, events, a, b - 1);
      assert Step(states[b - 1], events[b - 1], states[b]);
    }
  }

  lemma {:induction false} OpenRun(states: seq<State>, events: seq<Event>, a: nat, b: nat)
    requires Run(states, events) && a <= b && OpenFrom(states, a, b) && Invariant(states[0])
    ensures states[b].stored == states[a].stored && states[b].storedBits == states[a].storedBits
    ensures states[b].tileNum >= states[a].tileNum
    decreases b
  {
    hide Step, Invariant;
    if a < b {
      OpenRun(states, events, a, b - 1);
      RunKeeps(states, events, b - 1);
      assert Step(states[b - 1], events[b - 1], states[b]);
      OpenStep(states[b - 1], events[b - 1], states[b]);
    }
  }

  /**
   * While a frame is open, a redundant frame header is accepted exactly when it repeats, bit for bit, the
   * header that opened the frame.
   */
  lemma RedundantRepeats(states: seq<State>, events: seq<Event>, a: nat, b: nat)
    requires Run(states, events) && states[0] == Initial()
    requires a < b < |events| && events[a].Opened? && events[b].Redundant? && OpenFrom(states, a + 1, b)
    ensures events[b].accepted <==> events[b].offered == events[a].header
  {
    hide Invariant;
    InitialOk();
    assert Step(states[a], events[a], states[a + 1]);
    assert Step(states[b], events[b], states[b + 1]);
    OpenRun(states, events, a + 1, b);
  }

  /** Tile groups with explicit bounds, while one frame is open, cover ascending and disjoint ranges of tiles. */
  lemma TileRangesAscend(states: seq<State>, events: seq<Event>, a: nat, b: nat)
    requires Run(states, events) && states[0] == Initial()
    requires a < b < |events| && events[a].Tiles? && events[b].Tiles? && events[a].explicit && events[b].explicit
    requires OpenFrom(states, a, b)
    ensures events[a].start <= events[a].end < events[b].start <= events[b].end < states[b].NumTiles()
  {
    hide Invariant;
    InitialOk();
    assert Step(states[a], events[a], states[a + 1]);
    assert Step(states[b], events[b], states[b + 1]);
    OpenRun(states, events, a + 1, b);
  }

  /** The event does not start the count of tiles afresh. */
  ghost predicate CountsOn(e: Event) {
    !e.Opened? && !e.ShownExisting? && !e.Flush? && (e.Tiles? ==> e.explicit)
  }

  lemma {:induction false} CountGrows(states: seq<State>, events: seq<Event>, a: nat, b: nat)
    requires Run(states, events) && a <= b <= |events| && forall k :: a <= k < b ==> CountsOn(events[k])
    ensures states[a].tileNum <= states[b].tileNum
    decreases b
  {
    hide Refreshed, Weakened, ShownRefs, SizeOk;
    if a < b {
      CountGrows(states, events, a, b - 1);
      assert Step(states[b - 1], events[b - 1], states[b]);
    }
  }

  /** So they do across frames that end early and headers that fail, unless the count starts afresh in between. */
  lemma ExplicitRangesAscend(states: seq<State>, events: seq<Event>, a: nat, b: nat)
    requires Run(states, events) && a < b < |events|
    requires events[a].Tiles? && events[b].Tiles? && forall k :: a <= k <= b ==> CountsOn(events[k])
    ensures events[a].start <= events[a].end < events[b].start <= events[b].end
  {
    assert Step(states[a], events[a], states[a + 1]);
    assert Step(states[b], events[b], states[b + 1]);
    CountGrows(states, events, a + 1, b);
  }

  /** The count of tiles after n events: a tile group sets it, a new frame and a flush clear it. */
  function Count(events: seq<Event>, n: nat): nat
    requires n <= |events|
  {
    if n == 0 then 0
    else match events[n - 1]
         case Tiles(_, _, end, _) => end + 1
         case Opened(_, _) => 0
         case ShownExisting(_, _) => 0
         case Flush => 0
         case _ => Count(events, n - 1)
  }

  lemma {:induction false} CountIs(states: seq<State>, events: seq<Event>, n: nat)
    requires Run(states, events) && states[0] == Initial() && n < |states|
    ensures states[n].tileNum == Count(events, n)
  {
    hide Refreshed, Weakened, ShownRefs, GridFor;
    if n > 0 {
      CountIs(states, events, n - 1);
      assert Step(states[n - 1], events[n - 1], states[n]);
    }
  }

  /**
   * Exactly when: whatever explicit group comes next, it lies behind an earlier one if and only if the count
   * has stayed above the earlier end, or no explicit group can come next at all.
   */
  lemma RangesAscendExactly(states: seq<State>, events: seq<Event>, a: nat, b: nat)
    requires Run(states, events) && states[0] == Initial() && a < b < |states| && events[a].Tiles?
    ensures (forall start: nat, end: nat :: GroupAccepted(states[b], start, end) ==> events[a].end < start)
       <==> var n := states[b].NumTiles();
            events[a].end < Count(events, b) || n <= 1 || Count(events, b) >= n
  {
    CountIs(states, events, b);
    var s := states[b];
    if s.NumTiles() > 1 && s.tileNum < s.NumTiles() {
      assert GroupAccepted(s, s.tileNum, s.tileNum);
    }
  }

  const EXAMPLE_SEQUENCE := Sequence(false, false, false, 15, 15, 1919, 1079, HintCoding(false, 0), None)
  const EXAMPLE_SIZE := Size(1920, 1920, 1080, 1920, 1080)

  /** A state of the example below: no frame is open, and a failed header has left a size and a grid of one row. */
  function AfterHeader(cols: nat, tileNum: nat): State {
    Initial().(sequence := Some(EXAMPLE_SEQUENCE), size := EXAMPLE_SIZE, tileCols := cols, tileRows := 1,
               tileNum := tileNum)
  }

  /** A header of the example: it fails behind tile_info() with a row of this many columns. */
  lemma HeaderLeaves(s: State, cols: nat)
    requires !s.seen && s.sequence == Some(EXAMPLE_SEQUENCE) && s.refs == Initial().refs && 1 <= cols <= 8
    ensures Step(s, HeaderFailed, s.(size := EXAMPLE_SIZE, tileCols := cols, tileRows := 1))
  {
  }

  /**
   * Without that condition they need not: a group without bounds, for a smaller grid that a failed header left
   * behind, sets the count back, and no frame header has succeeded in between. The frame has 1920x1080 pixels,
   * and its headers fail behind tile_info(); UniformGrids says that their grids are coded by two logarithms each.
   */
  lemma RangesMayRepeat() returns (states: seq<State>, events: seq<Event>)
    ensures Run(states, events) && states[0] == Initial() && |events| == 7
    ensures events[2] == events[6] == Tiles(true, 2, 5, true)
    ensures forall k :: 2 < k < 6 ==> events[k].HeaderFailed? || (events[k].Tiles? && !events[k].explicit)
    ensures forall k :: 1 < k < 8 ==>
              states[k].size == EXAMPLE_SIZE && states[k].tileCols in {8, 1} && states[k].tileRows == 1
  {
    hide Parsing, GridFor;
    var group := Tiles(true, 2, 5, true);
    HeaderLeaves(Initial().(sequence := Some(EXAMPLE_SEQUENCE)), 8);
    HeaderLeaves(AfterHeader(8, 6), 1);
    HeaderLeaves(AfterHeader(1, 1), 8);
    states := [Initial(), Initial().(sequence := Some(EXAMPLE_SEQUENCE)),
               AfterHeader(8, 0), AfterHeader(8, 6), AfterHeader(1, 6), AfterHeader(1, 1), AfterHeader(8, 1),
                    AfterHeader(8, 6)];
    events := [SequenceHeader(EXAMPLE_SEQUENCE, 0),
               HeaderFailed, group, HeaderFailed, Tiles(false, 0, 0, true), HeaderFailed, group];
  }

  /** tile_cols_log2 3 and 0 are allowed in that frame, with tile_rows_log2 0, and give these grids. */
  lemma UniformGrids()
    ensures var g := GridOf(EXAMPLE_SIZE.frameWidth, EXAMPLE_SIZE.frameHeight, EXAMPLE_SEQUENCE.use128);
            && Fits(g) && MinLog2Cols(g) == 0 && MaxLog2(g.sbCols) >= 3
            && MinLog2Rows(g, 0) == MinLog2Rows(g, 3) == 0
            && TileCount(g.sbCols, CeilShift(g.sbCols, 3)) == 8 && TileCount(g.sbCols, CeilShift(g.sbCols, 0)) == 1
            && TileCount(g.sbRows, CeilShift(g.sbRows, 0)) == 1
  {
    hide TileLog2, MaxLog2;
    var g := GridOf(1920, 1080, false);
    assert g == Grid(30, 17, 64, 2304);
    assert Pow2(3) == 8 && Shr(37, 3) == 4;
    MaxLog2Small(30);
    if MaxLog2(30) < 3 {
      Pow2Monotone(MaxLog2(30), 2);
    }
    TileLog2AtMost(64, 30, 0);
    TileLog2AtMost(2304, 510, 0);
  }
}
