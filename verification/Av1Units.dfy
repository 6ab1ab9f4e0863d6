/** readUnit of cbs/av1.go: one OBU through the parser, up to its last bit. */
module Av1Units {
  import opened Common
  import opened Powers
  import opened Bits
  import opened BitReading
  import opened Fields
  import opened FrameRefs
  import opened Leb128
  import opened ObuSplit
  import opened ObuWrite
  import opened Trailing
  import opened Av1State
  import opened Av1Header
  import opened Av1Context

  // OBU types.
  const OBU_SEQUENCE_HEADER := 1
  const OBU_TEMPORAL_DELIMITER := 2
  const OBU_FRAME_HEADER := 3
  const OBU_TILE_GROUP := 4
  const OBU_METADATA := 5
  const OBU_FRAME := 6
  const OBU_REDUNDANT_FRAME_HEADER := 7
  const OBU_TILE_LIST := 8
  const OBU_PADDING := 15

  /** What a sequence header OBU says: the fields kept, the operating points, and where it ends. */
  datatype SequenceParse = SequenceParse(sequence: Sequence, operatingPoints: seq<nat>, pos: nat)

  /** The parsers of fields that are not modelled; any functions will do that stay within the data. */
  datatype Unmodelled = Unmodelled(gap: Gap, sequence: (seq<byte>, nat) -> Option<SequenceParse>) {
    ghost predicate Valid() {
      && InBounds(gap)
      && forall data: seq<byte>, p: nat :: p <= 8 * |data| && sequence(data, p).Some? ==>
           var v := sequence(data, p).value;
           v.sequence.Valid() && p <= v.pos <= 8 * |data| && |v.operatingPoints| > 0
    }
  }

  datatype Outcome = Decomposed | Failed | Skipped | Unsupported

  /** The OBUs whose content ends in trailing bits that readUnit checks. */
  predicate HasTrailing(typ: nat) {
    typ != OBU_TILE_GROUP && typ != OBU_TILE_LIST && typ != OBU_FRAME
  }

  /** drop_obu(): the OBU belongs to no layer of the operating point. */
  predicate Dropped(header: ObuHeader, idc: nat) {
    && header.extension && header.typ != OBU_SEQUENCE_HEADER && header.typ != OBU_TEMPORAL_DELIMITER && idc != 0
    && (Shr(idc, header.temporalID) % 2 == 0 || Shr(idc, header.spatialID + 8) % 2 == 0)
  }

  /** The states the parser went through, from before to after. */
  ghost predicate Goes(before: State, states: seq<State>, events: seq<Event>, after: State) {
    Run(states, events) && states[0] == before && states[|events|] == after
  }

  // ----- What the content of an OBU says

  /** A sequence header at p: the step it takes, none if it is refused, and where it ends if it is not. */
  ghost function SequenceAt(data: seq<byte>, p: nat, inputs: Unmodelled, operatingPoint: int, s: State)
    : Option<(Event, nat)> {
    match inputs.sequence(data, p)
    case None => None
    case Some(parse) =>
      if operatingPoint > |parse.operatingPoints| - 1 then None
      else
        var idc := if operatingPoint >= 0 &&
        operatingPoint < |parse.operatingPoints| then parse.operatingPoints[operatingPoint]
                   else s.operatingPointIDC;
        Some((SequenceHeader(parse.sequence, idc), parse.pos))
  }

  /** The steps of a tile group at p: none when no data is left. */
  ghost function TileEvents(data: seq<byte>, p: nat, s: State): seq<Event> {
    if p < 8 * |data| then [TileEvent(data, p, 8 * |data|, s)] else []
  }

  /** Where its tile data start, if the group is accepted and there are any. */
  ghost function TileDataAt(data: seq<byte>, p: nat, s: State): Option<nat> {
    if p >= 8 * |data| then None
    else
      match TileEnd(data, p, 8 * |data|, s)
      case None => None
      case Some(next) => if next < 8 * |data| then Some(next) else None
  }

  /** A metadata OBU at p: its type, and a gap. */
  ghost function MetadataEnd(data: seq<byte>, p: nat, gap: Gap): Option<nat> {
    var typ := ParseLeb(data, p, 8 * |data|);
    if typ.Leb? then gap(20, data, typ.pos) else None
  }

  /** The state t that a new frame header at p leads to is the one that its bits name. */
  ghost predicate Opens(data: seq<byte>, p: nat, gap: Gap, s: State, t: State)
    requires Invariant(s)
  {
    var opening := OpeningAt(data, p, 8 * |data|, gap, s);
    !s.seen && opening.Some? ==> t == AfterOpening(s, opening.value, t)
  }

  /** The events of a frame header OBU at p, the state it leads to, and where it ends if it is accepted. */
  ghost predicate HeaderSays(data: seq<byte>, p: nat, gap: Gap, redundant: bool, states: seq<State>,
                             events: seq<Event>, next: Option<nat>)
    requires |states| == |events| + 1 && Invariant(states[0]) && p <= 8 * |data|
  {
    var e := HeaderEvent(data, p, 8 * |data|, gap, states[0], redundant);
    && events == [e] && Opens(data, p, gap, states[0], states[1])
    && next == if HeaderPasses(e) then Some(p + HeaderBits(e)) else None
  }

  /** A frame OBU at p: a frame header, and behind it on the next byte a tile group in the state the header leads to. */
  ghost predicate FrameSays(data: seq<byte>, p: nat, gap: Gap, states: seq<State>, events: seq<Event>,
                            next: Option<nat>)
    requires |states| == |events| + 1 && Invariant(states[0]) && p <= 8 * |data|
  {
    var e, end := HeaderEvent(data, p, 8 * |data|, gap, states[0], false), 8 * |data|;
    && |states| > 1 && Opens(data, p, gap, states[0], states[1])
    && if HeaderPasses(e) && AlignsAt(data, p + HeaderBits(e), end) then
         var q := Aligned(p + HeaderBits(e));
         events == [e] + TileEvents(data, q, states[1]) && next == TileDataAt(data, q, states[1])
       else events == [e] && next.None?
  }

  /**
   * The steps that the content of an OBU takes from states[0], named by its bits from p on, and where it ends if
   * it is accepted. Tile lists, metadata and padding take none.
   */
  ghost predicate ContentSays(typ: nat, data: seq<byte>, p: nat, inputs: Unmodelled, operatingPoint: int,
                              states: seq<State>, events: seq<Event>,
                              next: Option<nat>)
    requires |states| == |events| + 1 && Invariant(states[0]) && p <= 8 * |data|
  {
    if typ == OBU_SEQUENCE_HEADER then
      match SequenceAt(data, p, inputs, operatingPoint, states[0])
      case None => events == [] && next.None?
      case Some((event, q)) => events == [event] && next == Some(q)
    else if typ == OBU_TEMPORAL_DELIMITER then events == [Delimiter] && next == Some(p)
    else if typ == OBU_FRAME_HEADER || typ == OBU_REDUNDANT_FRAME_HEADER then
      HeaderSays(data, p, inputs.gap, typ == OBU_REDUNDANT_FRAME_HEADER, states, events, next)
    else if typ == OBU_FRAME then FrameSays(data, p, inputs.gap, states, events, next)
    else if typ == OBU_TILE_GROUP then
      events == TileEvents(data, p, states[0]) && next == TileDataAt(data, p, states[0])
    else
      events == [] &&
      next == if typ == OBU_TILE_LIST then if p + 32 < 8 * |data| then Some(p + 32) else None
              else if typ == OBU_METADATA then MetadataEnd(data, p, inputs.gap)
              else if typ == OBU_PADDING then Some(8 * (p / 8 + PaddingLength(data, p / 8)))
              else None
  }

  predicate Known(typ: nat) {
    1 <= typ <= OBU_TILE_LIST || typ == OBU_PADDING
  }

  // ----- The content, read

  /** refTileData: there must be data behind the position. */
  method RefTileData(r: BitReader) returns (ok: bool)
    ensures ok <==> r.pos < 8 * |r.data|
  {
    return r.pos < 8 * |r.data|;
  }

  method SequenceHeaderOBU(h: AV1Context, r: BitReader, inputs: Unmodelled)
    returns (ok: bool, ghost states: seq<State>, ghost events: seq<Event>)
    requires r.pos <= r.end == 8 * |r.data| && inputs.Valid()
    modifies h`sequenceHeader, h`operatingPointIDC, r`pos
    ensures Goes(old(h.View()), states, events, h.View())
    ensures ok ==> old(r.pos) <= r.pos <= r.end
    ensures var says := SequenceAt(r.data, old(r.pos), inputs, h.operatingPoint, old(h.View()));
            if ok then says.Some? && events == [says.value.0] && r.pos == says.value.1 else says.None? && events == []
  {
    states, events := [h.View()], [];
    var parse := inputs.sequence(r.data, r.pos);
    if parse.None? {
      return false, states, events;
    }
    r.SkipBits(parse.value.pos - r.pos);
    if h.operatingPoint >= 0 {
      if h.operatingPoint > |parse.value.operatingPoints| - 1 {
        return false, states, events;
      }
      h.operatingPointIDC := parse.value.operatingPoints[h.operatingPoint];
    }
    h.sequenceHeader := Some(parse.value.sequence);
    return true, [old(h.View()), h.View()], [SequenceHeader(parse.value.sequence, h.operatingPointIDC)];
  }

  lemma OpeningPasses(data: seq<byte>, p: nat, gap: Gap, s: State, redundant: bool)
    requires Invariant(s) && p <= 8 * |data| && !s.seen
    ensures HeaderPasses(HeaderEvent(data, p, 8 * |data|, gap, s, redundant))
       <==> OpeningAt(data, p, 8 * |data|, gap, s).Some?
  {
    hide OpeningAt, BitsOf, Invariant;
  }

  /** A frame header OBU, also a redundant one. */
  method HeaderUnit(h: AV1Context, r: BitReader, redundant: bool, inputs: Unmodelled)
    returns (ok: bool, ghost states: seq<State>, ghost events: seq<Event>)
    requires Invariant(h.View()) && r.pos <= r.end == 8 * |r.data| && r.pos % 8 == 0 && inputs.Valid()
    modifies h, r`pos
    ensures Goes(old(h.View()), states, events, h.View()) && |states| == |events| + 1 && states[0] == old(h.View())
    ensures ok ==> old(r.pos) <= r.pos <= r.end
    ensures HeaderSays(r.data, old(r.pos), inputs.gap, redundant, states, events, if ok then Some(r.pos) else None)
  {
    hide Step, Invariant, HeaderEvent, OpeningAt, AfterOpening;
    if !h.seenFrameHeader {
      OpeningPasses(r.data, r.pos, inputs.gap, h.View(), redundant);
    }
    var current := new FrameHeader();
    ghost var event;
    ok, event := h.FrameHeaderOBU(r, current, redundant, inputs.gap);
    states, events := [old(h.View()), h.View()], [event];
  }

  /** A tile group behind position r, with data before and behind its header. */
  method TileUnit(h: AV1Context, r: BitReader)
    returns (ok: bool, ghost states: seq<State>, ghost events: seq<Event>)
    requires Invariant(h.View()) && r.pos <= r.end == 8 * |r.data|
    modifies h`tileNum, h`seenFrameHeader, r`pos
    ensures Goes(old(h.View()), states, events, h.View())
    ensures ok ==> old(r.pos) <= r.pos <= r.end
    ensures events == TileEvents(r.data, old(r.pos), old(h.View()))
    ensures TileDataAt(r.data, old(r.pos), old(h.View())) == if ok then Some(r.pos) else None
  {
    hide Step, Invariant, TileEvent, TileEnd;
    ok := RefTileData(r);
    if !ok {
      return false, [h.View()], [];
    }
    ghost var event;
    ok, event := h.TileGroupOBU(r);
    states, events := [old(h.View()), h.View()], [event];
    if ok {
      ok := RefTileData(r);
    }
  }

  lemma GoesOn(a: State, states: seq<State>, events: seq<Event>, b: State, states': seq<State>, events': seq<Event>,
               c: State)
    requires Goes(a, states, events, b) && Goes(b, states', events', c)
    ensures |states'| > 0 && Goes(a, states + states'[1..], events + events', c)
  {
    hide Step;
  }

  lemma GoesKeeps(a: State, states: seq<State>, events: seq<Event>, b: State)
    requires Goes(a, states, events, b) && Invariant(a)
    ensures Invariant(b)
  {
    RunKeeps(states, events, |events|);
  }

  lemma GoesShape(a: State, states: seq<State>, events: seq<Event>, b: State)
    requires Goes(a, states, events, b)
    ensures |states| == |events| + 1 && states[0] == a && states[|events|] == b && Run(states, events)
  {
    hide Step;
  }

  /** A frame OBU: a frame header, alignment, and a tile group. */
  method FrameUnit(h: AV1Context, r: BitReader, inputs: Unmodelled)
    returns (ok: bool, ghost states: seq<State>, ghost events: seq<Event>)
    requires Invariant(h.View()) && r.pos <= r.end == 8 * |r.data| && r.pos % 8 == 0 && inputs.Valid()
    modifies h, r`pos
    ensures Goes(old(h.View()), states, events, h.View()) && |states| == |events| + 1 && states[0] == old(h.View())
    ensures ok ==> old(r.pos) <= r.pos <= r.end
    ensures FrameSays(r.data, old(r.pos), inputs.gap, states, events, if ok then Some(r.pos) else None)
  {
    hide Step, Invariant, Goes, HeaderEvent, TileEvents, TileDataAt, AlignsAt, Aligned;
    ok, states, events := HeaderUnit(h, r, false, inputs);
    GoesShape(old(h.View()), states, events, h.View());
    if !ok {
      return;
    }
    ok := h.ByteAlignment(r);
    if !ok {
      return;
    }
    ghost var before := h.View();
    GoesKeeps(old(h.View()), states, events, before);
    ghost var states', events';
    ok, states', events' := TileUnit(h, r);
    GoesShape(before, states', events', h.View());
    GoesOn(old(h.View()), states, events, before, states', events', h.View());
    states, events := states + states'[1..], events + events';
    GoesShape(old(h.View()), states, events, h.View());
  }

  method TileListOBU(r: BitReader) returns (ok: bool)
    requires r.pos <= r.end == 8 * |r.data|
    modifies r`pos
    ensures if old(r.pos) + 32 < 8 * |r.data| then ok && r.pos == old(r.pos) + 32 else !ok
  {
    hide Field;
    var width := ReadBits(r, 8);
    if width.Err? {
      return false;
    }
    var height := ReadBits(r, 8);
    if height.Err? {
      return false;
    }
    var count := ReadBits(r, 16);
    if count.Err? {
      return false;
    }
    ok := RefTileData(r);
  }

  method MetadataOBU(r: BitReader, inputs: Unmodelled) returns (ok: bool)
    requires r.pos <= r.end == 8 * |r.data| && inputs.Valid()
    modifies r`pos
    ensures ok ==> old(r.pos) <= r.pos <= r.end
    ensures MetadataEnd(r.data, old(r.pos), inputs.gap) == if ok then Some(r.pos) else None
  {
    hide ParseLeb;
    LebWithin(r.data, r.pos, r.end);
    var typ := ReadLeb128(r);
    if typ.Err? {
      return false;
    }
    ok := SkipFields(r, inputs.gap, 20);
  }

  lemma LebWithin(data: seq<byte>, p: nat, end: int)
    requires p <= end
    ensures ParseLeb(data, p, end).Leb? ==> p <= ParseLeb(data, p, end).pos <= end
  {
    hide LebFrom;
    if ParseLeb(data, p, end).Leb? {
      var n := LebShows(data, p, end, MAX_LEB_BYTES);
    }
  }

  /** The content of an OBU. payload is that of a padding OBU. */
  method ReadContent(h: AV1Context, r: BitReader, typ: nat, inputs: Unmodelled)
    returns (outcome: Outcome, payload: seq<byte>, ghost states: seq<State>, ghost events: seq<Event>)
    requires Invariant(h.View()) && r.pos <= r.end == 8 * |r.data| && r.pos % 8 == 0 && inputs.Valid()
    modifies h, r`pos
    ensures Goes(old(h.View()), states, events, h.View()) && |states| == |events| + 1 && states[0] == old(h.View())
    ensures !outcome.Skipped? && (outcome.Decomposed? ==> old(r.pos) <= r.pos <= r.end)
    ensures outcome.Unsupported? <==> !Known(typ)
    ensures ContentSays(typ, r.data, old(r.pos), inputs, h.operatingPoint, states, events,
                        if outcome.Decomposed? then Some(r.pos) else None)
    ensures typ == OBU_PADDING ==>
              && outcome.Decomposed?
              && var k := old(r.pos) / 8;
                 payload == r.data[k..k + PaddingLength(r.data, k)] && r.pos == 8 * (k + PaddingLength(r.data, k))
  {
    hide Step, Invariant, Goes, LastNonzero, HeaderSays, FrameSays, TileEvents, TileDataAt, SequenceAt, MetadataEnd;
    var ok := true;
    payload := [];
    ghost var s := h.View();
    GoesNowhere(s);
    states, events := [s], [];
    if typ == OBU_SEQUENCE_HEADER {
      ok, states, events := SequenceHeaderOBU(h, r, inputs);
    } else if typ == OBU_TEMPORAL_DELIMITER {
      h.TemporalDelimiterOBU();
      states, events := [s, h.View()], [Delimiter];
      GoesOnce(s, Delimiter, h.View());
    } else if typ == OBU_FRAME_HEADER || typ == OBU_REDUNDANT_FRAME_HEADER {
      ok, states, events := HeaderUnit(h, r, typ == OBU_REDUNDANT_FRAME_HEADER, inputs);
    } else if typ == OBU_FRAME {
      ok, states, events := FrameUnit(h, r, inputs);
    } else if typ == OBU_TILE_GROUP {
      ok, states, events := TileUnit(h, r);
    } else if typ == OBU_TILE_LIST {
      ok := TileListOBU(r);
    } else if typ == OBU_METADATA {
      ok := MetadataOBU(r, inputs);
    } else if typ == OBU_PADDING {
      payload := ReadPayload(r);
    } else {
      return Unsupported, payload, states, events;
    }
    GoesShape(s, states, events, h.View());
    return (if ok then Decomposed else Failed), payload, states, events;
  }

  lemma GoesNowhere(s: State)
    ensures Goes(s, [s], [], s)
  {
  }

  lemma GoesOnce(s: State, e: Event, t: State)
    requires Step(s, e, t)
    ensures Goes(s, [s, t], [e], t)
  {
  }

  // ----- Units

  /** Where the content of an OBU starts: behind its header and its size. */
  ghost function ContentBit(rbsp: seq<byte>, header: ObuHeader): Leb {
    if header.hasSize then ParseLeb(rbsp, 8 * HeaderBytes(header), 8 * |rbsp|)
    else Leb(|rbsp| - Min(|rbsp|, HeaderBytes(header)), 8 * HeaderBytes(header))
  }

  /** rbsp is one whole OBU, as the splitter cuts them: its content runs to its last byte. */
  ghost predicate Whole(rbsp: seq<byte>) {
    |rbsp| > 0 && ObuOf(rbsp).Some? && ObuOf(rbsp).value.1 == |rbsp|
  }

  /** The byte at which the content of a whole OBU starts. */
  ghost function ContentByte(rbsp: seq<byte>): (k: nat)
    requires Whole(rbsp)
    ensures k <= |rbsp|
  {
    WholeContent(rbsp);
    ContentBit(rbsp, HeaderOf(rbsp).value).pos / 8
  }

  lemma WholeContent(rbsp: seq<byte>)
    requires Whole(rbsp)
    ensures HeaderOf(rbsp).Some? && HeaderBytes(HeaderOf(rbsp).value) <= |rbsp|
    ensures var leb := ContentBit(rbsp, HeaderOf(rbsp).value);
            leb.Leb? && leb.pos % 8 == 0 && leb.pos / 8 + leb.value == |rbsp|
  {
    hide HeaderOf, LebFrom;
    HeaderFits(rbsp);
    var h := HeaderOf(rbsp).value;
    if h.hasSize {
      var n := LebShows(rbsp, 8 * HeaderBytes(h), 8 * |rbsp|, MAX_LEB_BYTES);
      WholeBytes(HeaderBytes(h), n);
      WholeBits(HeaderBytes(h), n);
    }
  }

  lemma WholeBits(k: nat, n: nat)
    ensures (8 * k + 8 * n) % 8 == 0
  {
  }

  lemma ContentAligned(rbsp: seq<byte>, header: ObuHeader)
    requires ContentBit(rbsp, header).Leb? && HeaderBytes(header) <= |rbsp|
    ensures ContentBit(rbsp, header).pos % 8 == 0 && ContentBit(rbsp, header).pos <= 8 * |rbsp|
  {
    hide LebFrom;
    if header.hasSize {
      var n := LebShows(rbsp, 8 * HeaderBytes(header), 8 * |rbsp|, MAX_LEB_BYTES);
      WholeBits(HeaderBytes(header), n);
    }
  }

  /** From some bit not before p on, the data are trailing bits. */
  ghost predicate EndsInTrailing(data: seq<byte>, p: nat) {
    exists q: nat :: p <= q && TrailingFrom(data, q)
  }

  ghost predicate TrailingFrom(data: seq<byte>, q: nat) {
    q < 8 * |data| && ShowsTrailing(data, q, 8 * |data| - q)
  }

  lemma TrailingWitness(data: seq<byte>, p: nat, q: nat, n: nat)
    requires p <= q && ShowsTrailing(data, q, n)
    ensures n > 0 && (q + n == 8 * |data| ==> EndsInTrailing(data, p))
  {
    assert q + n == 8 * |data| ==> TrailingFrom(data, q);
  }

  /** The header and the size of a unit. */
  method ReadUnitHead(h: AV1Context, r: BitReader) returns (header: Option<ObuHeader>, obuSize: nat)
    requires r.pos == 0 && r.end == 8 * |r.data|
    modifies h`temporalID, h`spatialID, r`pos
    ensures h.View() == old(h.View())
    ensures header.Some? <==> HeaderOf(r.data).Some? && ContentBit(r.data, HeaderOf(r.data).value).Leb?
    ensures header.Some? ==> header == HeaderOf(r.data) && ContentBit(r.data, header.value) == Leb(obuSize, r.pos)
    ensures header.Some? ==> r.pos % 8 == 0 && r.pos <= r.end
  {
    hide HeaderOf, ParseLeb;
    HeaderFits(r.data);
    header := ReadObuHeader(r);
    obuSize := 0;
    if header.None? {
      return;
    }
    h.temporalID, h.spatialID := header.value.temporalID, header.value.spatialID;
    if header.value.hasSize {
      var leb := ReadLeb128(r);
      if leb.Err? {
        return None, 0;
      }
      obuSize := leb.value;
    } else {
      if |r.data| < 1 + (if header.value.extension then 1 else 0) {
        header := None;
        return;
      }
      obuSize := |r.data| - 1 - (if header.value.extension then 1 else 0);
    }
    ContentAligned(r.data, header.value);
  }

  // ----- What a unit says

  /** The header of a unit can be read, and so can its size. */
  ghost predicate Headed(rbsp: seq<byte>) {
    && HeaderOf(rbsp).Some? && HeaderBytes(HeaderOf(rbsp).value) <= |rbsp|
    && ContentBit(rbsp, HeaderOf(rbsp).value).Leb? && ContentBit(rbsp, HeaderOf(rbsp).value).pos <= 8 * |rbsp|
  }

  /** When a unit whose content ends at next is decomposed: if it has trailing bits, these fill its size exactly. */
  ghost predicate Complete(rbsp: seq<byte>, typ: nat, start: nat, size: nat, next: nat) {
    (size > 0 && HasTrailing(typ)) ==>
      var n := size * 8 + start - next;
      n > 0 && next + n <= 8 * |rbsp| && ShowsTrailing(rbsp, next, n)
  }

  /**
   * The outcome of a unit, and the steps it takes from states[0]: those named by its bits. A unit without a
   * readable header fails, a dropped one is skipped, and neither takes any; one of an unknown type is unsupported; any
   * other is decomposed exactly when its content is accepted and its trailing bits, if it has any, are right.
   */
  ghost predicate UnitSays(rbsp: seq<byte>, inputs: Unmodelled, operatingPoint: int, states: seq<State>,
                           events: seq<Event>, outcome: Outcome)
    requires |states| == |events| + 1 && Invariant(states[0])
  {
    if !Headed(rbsp) then outcome.Failed? && events == []
    else
      var header := HeaderOf(rbsp).value;
      var start, size := ContentBit(rbsp, header).pos, ContentBit(rbsp, header).value;
      if Dropped(header, states[0].operatingPointIDC) then outcome.Skipped? && events == []
      else
        exists next ::
          && ContentSays(header.typ, rbsp, start, inputs, operatingPoint, states, events, next)
          && outcome == if !Known(header.typ) then Unsupported
                        else if next.Some? && Complete(rbsp, header.typ, start, size, next.value) then Decomposed
                             else Failed
  }

  lemma UnitSaysBy(rbsp: seq<byte>, inputs: Unmodelled, operatingPoint: int, states: seq<State>, events: seq<Event>,
                   outcome: Outcome,
                   next: Option<nat>)
    requires |states| == |events| + 1 && Invariant(states[0]) && Headed(rbsp)
    requires var header := HeaderOf(rbsp).value;
             var start, size := ContentBit(rbsp, header).pos, ContentBit(rbsp, header).value;
             && !Dropped(header, states[0].operatingPointIDC)
             && ContentSays(header.typ, rbsp, start, inputs, operatingPoint, states, events, next)
             && outcome == if !Known(header.typ) then Unsupported
                           else if next.Some? && Complete(rbsp, header.typ, start, size, next.value) then Decomposed
                           else Failed
    ensures UnitSays(rbsp, inputs, operatingPoint, states, events, outcome)
  {
    hide ContentSays, Complete, HeaderOf, ContentBit, Dropped, Headed, Invariant;
  }

  /**
   * readUnit. The unit ends at endPos. Its outcome and the steps of the parser are those that its bits name; when
   * a unit with trailing bits is decomposed, these end exactly at the last bit of its content.
   */
  method ReadUnit(h: AV1Context, rbsp: seq<byte>, inputs: Unmodelled)
    returns (outcome: Outcome, payload: seq<byte>, endPos: nat, ghost states: seq<State>, ghost events: seq<Event>)
    requires Invariant(h.View()) && inputs.Valid()
    modifies h
    ensures Goes(old(h.View()), states, events, h.View()) && |states| == |events| + 1 && states[0] == old(h.View())
    ensures UnitSays(rbsp, inputs, h.operatingPoint, states, events, outcome)
    ensures (&& Whole(rbsp) && outcome.Decomposed? && HasTrailing(HeaderOf(rbsp).value.typ)
             && ContentByte(rbsp) < |rbsp|) ==>
              endPos == 8 * |rbsp| && EndsInTrailing(rbsp, 8 * ContentByte(rbsp))
    ensures Whole(rbsp) && HeaderOf(rbsp).value.typ == OBU_PADDING && !outcome.Skipped? ==>
              var k := ContentByte(rbsp);
              && (outcome.Decomposed? <==>
                    k == |rbsp| || ShowsTrailing(rbsp, 8 * (k + PaddingLength(rbsp, k)),
                                                 8 * (|rbsp| - k - PaddingLength(rbsp, k))))
              && payload == rbsp[k..k + PaddingLength(rbsp, k)]
    ensures outcome.Skipped? <==>
              HeaderOf(rbsp).Some? && ContentBit(rbsp, HeaderOf(rbsp).value).Leb? &&
              Dropped(HeaderOf(rbsp).value, old(h.operatingPointIDC))
  {
    hide Step, Invariant, Goes, HeaderOf, ParseLeb, LastNonzero, ShowsTrailing, Dropped, ObuOf, ContentBit,
         EndsInTrailing, ContentSays,
         UnitSays, Complete, Headed;
    var r := new BitReader(rbsp);
    payload, endPos := [], 0;
    ghost var s := h.View();
    states, events := [s], [];
    GoesNowhere(s);
    if Whole(rbsp) {
      WholeContent(rbsp);
    }
    HeadedIs(rbsp);
    var header, obuSize := ReadUnitHead(h, r);
    if header.None? {
      NothingSaid(rbsp, inputs, h.operatingPoint, s, Failed);
      return Failed, payload, endPos, states, events;
    }
    var startPos := r.pos;
    if Dropped(header.value, h.operatingPointIDC) {
      NothingSaid(rbsp, inputs, h.operatingPoint, s, Skipped);
      return Skipped, payload, endPos, states, events;
    }
    outcome, payload, states, events := ReadContent(h, r, header.value.typ, inputs);
    ghost var next := if outcome.Decomposed? then Some(r.pos) else None;
    endPos := r.pos;
    if outcome.Decomposed? && obuSize > 0 && HasTrailing(header.value.typ) {
      var nbBits := obuSize * 8 + startPos - endPos;
      if nbBits <= 0 {
        outcome := Failed;
      } else {
        var ok := TrailingBits(r, nbBits);
        if ok {
          TrailingWitness(rbsp, startPos, endPos, nbBits);
        } else {
          outcome := Failed;
        }
        endPos := r.pos;
      }
    }
    CompleteIs(rbsp, header.value.typ, startPos, obuSize, next);
    UnitSaysBy(rbsp, inputs, h.operatingPoint, states, events, outcome, next);
  }

  lemma HeadedIs(rbsp: seq<byte>)
    ensures Headed(rbsp) <==> HeaderOf(rbsp).Some? && ContentBit(rbsp, HeaderOf(rbsp).value).Leb?
  {
    hide HeaderOf, ParseLeb, ContentBit;
    HeaderFits(rbsp);
    if HeaderOf(rbsp).Some? && ContentBit(rbsp, HeaderOf(rbsp).value).Leb? {
      ContentAligned(rbsp, HeaderOf(rbsp).value);
    }
  }

  lemma NothingSaid(rbsp: seq<byte>, inputs: Unmodelled, operatingPoint: int, s: State, outcome: Outcome)
    requires Invariant(s)
    requires if !Headed(rbsp) then outcome.Failed?
             else Dropped(HeaderOf(rbsp).value, s.operatingPointIDC) && outcome.Skipped?
    ensures UnitSays(rbsp, inputs, operatingPoint, [s], [], outcome)
  {
    hide Headed, Dropped, HeaderOf, Invariant, ContentBit;
  }

  lemma CompleteIs(rbsp: seq<byte>, typ: nat, start: nat, size: nat, next: Option<nat>)
    ensures next.Some? ==>
              var n := size * 8 + start - next.value;
              Complete(rbsp, typ, start, size, next.value)
              <==> (size > 0 && HasTrailing(typ) ==>
                      n > 0 && next.value + n <= 8 * |rbsp| && ShowsTrailing(rbsp, next.value, n))
  {
    hide ShowsTrailing;
  }

  // ----- Packets

  /** The run of one unit. */
  datatype Piece = Piece(states: seq<State>, events: seq<Event>) {
    ghost predicate Valid() {
      |states| == |events| + 1
    }

    function Last(): State
      requires |states| > 0
    {
      states[|states| - 1]
    }
  }

  /** The events of all pieces, one after the other, and the states between them from s on. */
  ghost function EventsOf(pieces: seq<Piece>): seq<Event> {
    if pieces == [] then [] else EventsOf(pieces[..|pieces| - 1]) + pieces[|pieces| - 1].events
  }

  ghost function StatesOf(s: State, pieces: seq<Piece>): seq<State> {
    if pieces == [] then [s]
    else
      var last := pieces[|pieces| - 1];
      StatesOf(s, pieces[..|pieces| - 1]) + if last.Valid() then last.states[1..] else []
  }

  /** Each piece starts in the state in which the one before it ends, the first one in s. */
  ghost predicate Chained(s: State, pieces: seq<Piece>) {
    forall i :: 0 <= i < |pieces| ==>
      && pieces[i].Valid() && Invariant(pieces[i].states[0])
      && pieces[i].states[0] == if i == 0 || !pieces[i - 1].Valid() then s else pieces[i - 1].Last()
  }

  ghost predicate PieceSays(rbsp: seq<byte>, inputs: Unmodelled, operatingPoint: int, piece: Piece, outcome: Outcome) {
    && piece.Valid() && Invariant(piece.states[0]) && Run(piece.states, piece.events)
    && UnitSays(rbsp, inputs, operatingPoint, piece.states, piece.events, outcome)
  }

  /**
   * Each unit has the outcome, and takes the steps, that its own bits name in the state that the units before it leave.
   */
  ghost predicate UnitsSay(units: seq<Unit>, inputs: nat -> Unmodelled, operatingPoint: int, pieces: seq<Piece>,
                           outcomes: seq<Outcome>) {
    && |pieces| == |outcomes| <= |units|
    && forall i :: 0 <= i < |pieces| ==> PieceSays(units[i].rbsp, inputs(i), operatingPoint, pieces[i], outcomes[i])
  }

  /** One more unit, in state t. */
  lemma AnotherUnit(s: State, t: State, units: seq<Unit>, inputs: nat -> Unmodelled, operatingPoint: int,
                    pieces: seq<Piece>,
                    outcomes: seq<Outcome>, piece: Piece, outcome: Outcome)
    requires Chained(s, pieces) && (pieces != [] ==> pieces[|pieces| - 1].Valid())
    requires t == if pieces == [] then s else pieces[|pieces| - 1].Last()
    requires UnitsSay(units, inputs, operatingPoint, pieces, outcomes) && |pieces| < |units|
    requires piece.Valid() && piece.states[0] == t && Invariant(t) && Run(piece.states, piece.events)
    requires UnitSays(units[|pieces|].rbsp, inputs(|pieces|), operatingPoint, piece.states, piece.events, outcome)
    ensures Chained(s, pieces + [piece])
    ensures UnitsSay(units, inputs, operatingPoint, pieces + [piece], outcomes + [outcome])
    ensures EventsOf(pieces + [piece]) == EventsOf(pieces) + piece.events
    ensures StatesOf(s, pieces + [piece]) == StatesOf(s, pieces) + piece.states[1..]
  {
    hide UnitSays, Invariant, UnitsSay, Chained, Run;
    assert (pieces + [piece])[..|pieces|] == pieces;
    ChainGrows(s, pieces, piece);
    SaysGrow(units, inputs, operatingPoint, pieces, outcomes, piece, outcome);
  }

  lemma ChainGrows(s: State, pieces: seq<Piece>, piece: Piece)
    requires Chained(s, pieces) && piece.Valid() && Invariant(piece.states[0])
    requires piece.states[0] == if pieces == [] || !pieces[|pieces| - 1].Valid() then s else pieces[|pieces| - 1].Last()
    ensures Chained(s, pieces + [piece])
  {
    hide Invariant;
  }

  lemma SaysGrow(units: seq<Unit>, inputs: nat -> Unmodelled, operatingPoint: int, pieces: seq<Piece>,
                 outcomes: seq<Outcome>,
                 piece: Piece, outcome: Outcome)
    requires UnitsSay(units, inputs, operatingPoint, pieces, outcomes) && |pieces| < |units|
    requires PieceSays(units[|pieces|].rbsp, inputs(|pieces|), operatingPoint, piece, outcome)
    ensures UnitsSay(units, inputs, operatingPoint, pieces + [piece], outcomes + [outcome])
  {
    hide PieceSays;
    var more, ends := pieces + [piece], outcomes + [outcome];
    forall i | 0 <= i < |more|
      ensures PieceSays(units[i].rbsp, inputs(i), operatingPoint, more[i], ends[i])
    {
      if i < |pieces| {
        assert more[i] == pieces[i] && ends[i] == outcomes[i];
      }
    }
  }

  /**
   * ReadPacket and ReadExtradata: split and read every unit. Units that fail do not stop the others. inputs
   * are those of the i-th unit. The run of the parser is made of the runs of its units, one after the other.
   */
  method ReadFragment(h: AV1Context, data: seq<byte>, header: bool, inputs: nat -> Unmodelled)
    returns (units: seq<Unit>, ok: bool, outcomes: seq<Outcome>, ghost pieces: seq<Piece>)
    requires Invariant(h.View()) && forall i: nat :: inputs(i).Valid()
    modifies h
    ensures (units, ok) == Split(data, header)
    ensures |outcomes| == if ok then |units| else 0
    ensures Goes(old(h.View()), StatesOf(old(h.View()), pieces), EventsOf(pieces), h.View()) && Invariant(h.View())
    ensures Chained(old(h.View()), pieces) && UnitsSay(units, inputs, h.operatingPoint, pieces, outcomes)
  {
    hide Split, Goes, Invariant, Whole, HeaderOf, ObuOf, ContentBit, LastNonzero, UnitSays, UnitsSay, Chained, Run;
    ghost var s := h.View();
    GoesNowhere(s);
    outcomes, pieces := [], [];
    units, ok := SplitFragment(data, header);
    NoUnits(s, units, inputs, h.operatingPoint);
    if !ok {
      return;
    }
    var i := 0;
    while i < |units|
      invariant 0 <= i <= |units| && |outcomes| == |pieces| == i
      invariant Goes(s, StatesOf(s, pieces), EventsOf(pieces), h.View()) && Invariant(h.View())
      invariant Chained(s, pieces) && UnitsSay(units, inputs, h.operatingPoint, pieces, outcomes)
      invariant pieces != [] ==> pieces[i - 1].Valid()
      invariant h.View() == if pieces == [] then s else pieces[i - 1].Last()
    {
      ghost var before := h.View();
      var outcome, payload, endPos, states, events := ReadUnit(h, units[i].rbsp, inputs(i));
      GoesKeeps(before, states, events, h.View());
      GoesShape(before, states, events, h.View());
      AnotherUnit(s, before, units, inputs, h.operatingPoint, pieces, outcomes, Piece(states, events), outcome);
      GoesOn(s, StatesOf(s, pieces), EventsOf(pieces), before, states, events, h.View());
      pieces := pieces + [Piece(states, events)];
      outcomes := outcomes + [outcome];
      i := i + 1;
    }
  }

  lemma NoUnits(s: State, units: seq<Unit>, inputs: nat -> Unmodelled, operatingPoint: int)
    ensures Chained(s, []) && UnitsSay(units, inputs, operatingPoint, [], []) && StatesOf(s, []) == [s]
    ensures EventsOf([]) == []
  {
  }

  // ----- What that says of single units

  /** Tile lists, metadata, padding and units that are skipped or unsupported leave the state alone. */
  lemma NoStep(rbsp: seq<byte>, inputs: Unmodelled, operatingPoint: int, states: seq<State>, events: seq<Event>,
               outcome: Outcome)
    requires |states| == |events| + 1 && Invariant(states[0])
    requires UnitSays(rbsp, inputs, operatingPoint, states, events, outcome)
    requires outcome.Skipped? || outcome.Unsupported? ||
             (HeaderOf(rbsp).Some? && HeaderOf(rbsp).value.typ in {OBU_TILE_LIST, OBU_METADATA, OBU_PADDING})
    ensures events == []
  {
    hide HeaderOf, ContentBit, Dropped, Headed, Complete, HeaderSays, FrameSays, Invariant, SequenceAt, MetadataEnd,
         TileEvents, TileDataAt,
         LastNonzero;
  }

  lemma RedundantSays(data: seq<byte>, p: nat, gap: Gap, states: seq<State>, events: seq<Event>, next: Option<nat>)
    requires |states| == |events| + 1 && Invariant(states[0]) && p <= 8 * |data| && states[0].seen
    requires HeaderSays(data, p, gap, true, states, events, next)
    ensures states[0].stored.Some?
    ensures var s := states[0];
            var n := s.storedBits;
            next == if p + n <= 8 * |data| && BitsOf(data, p, n) == s.StoredHeader() then Some(p + n) else None
  {
    hide BitsOf, RefsOk, OpeningAt;
    assert |states[0].StoredHeader()| == states[0].storedBits;
  }

  /**
   * A redundant frame header OBU in an open frame is decomposed exactly when its content is, bit for bit, the header
   * that is stored, and then trailing bits up to its end.
   */
  lemma RedundantUnit(rbsp: seq<byte>, inputs: Unmodelled, operatingPoint: int, states: seq<State>, events: seq<Event>,
                      outcome: Outcome)
    requires |states| == |events| + 1 && Invariant(states[0])
    requires UnitSays(rbsp, inputs, operatingPoint, states, events, outcome)
    requires Whole(rbsp) && HeaderOf(rbsp).value.typ == OBU_REDUNDANT_FRAME_HEADER && states[0].seen
    requires !outcome.Skipped?
    ensures states[0].stored.Some?
    ensures outcome.Decomposed? <==>
              var p, n := 8 * ContentByte(rbsp), states[0].storedBits;
              && p + n < 8 * |rbsp| && BitsOf(rbsp, p, n) == states[0].StoredHeader()
              && ShowsTrailing(rbsp, p + n, 8 * |rbsp| - p - n)
  {
    hide HeaderOf, Dropped, BitsOf, ShowsTrailing, ObuOf, Invariant, ContentBit, HeaderSays, FrameSays, Complete,
         Headed, State.StoredHeader;
    WholeContent(rbsp);
    HeadedIs(rbsp);
    var start, size := ContentBit(rbsp, HeaderOf(rbsp).value).pos, ContentBit(rbsp, HeaderOf(rbsp).value).value;
    var next :| HeaderSays(rbsp, start, inputs.gap, true, states, events, next)
                && outcome == if next.Some? && Complete(rbsp, OBU_REDUNDANT_FRAME_HEADER, start, size,
                                                        next.value) then Decomposed else Failed;
    RedundantSays(rbsp, start, inputs.gap, states, events, next);
    SeenStores(states[0]);
    CompleteIs(rbsp, OBU_REDUNDANT_FRAME_HEADER, start, size, next);
    assert 8 * |rbsp| == start + 8 * size;
  }

  // ----- What the first byte of a unit decides

  /** The type of a whole unit, as a number. */
  function TypeByte(rbsp: seq<byte>): nat
    requires |rbsp| > 0
  {
    rbsp[0] / 8
  }

  lemma WholeType(rbsp: seq<byte>)
    requires Whole(rbsp)
    ensures HeaderOf(rbsp).Some? && HeaderOf(rbsp).value.typ == TypeByte(rbsp) < 16
    ensures HeaderOf(rbsp).value.extension <==> rbsp[0] / 4 % 2 == 1
    ensures rbsp[0] / 4 % 2 == 1 ==>
              && |rbsp| > 1 && HeaderOf(rbsp).value.temporalID == rbsp[1] / 32
              && HeaderOf(rbsp).value.spatialID == rbsp[1] / 8 % 4
  {
    hide HeaderOf;
    HeaderOnBytes(rbsp);
  }

  /**
   * A whole unit is skipped exactly when its header has layers, it is neither a sequence header nor a temporal
   * delimiter, and the operating point lacks its temporal layer (bits 0 to 7) or its spatial layer (bits 8 to 11).
   */
  lemma SkippedByBytes(rbsp: seq<byte>, inputs: Unmodelled, operatingPoint: int, states: seq<State>,
                       events: seq<Event>, outcome: Outcome)
    requires |states| == |events| + 1 && Invariant(states[0]) && Whole(rbsp)
    requires UnitSays(rbsp, inputs, operatingPoint, states, events, outcome)
    ensures outcome.Skipped?
       <==> && |rbsp| > 1 && rbsp[0] / 4 % 2 == 1 && TypeByte(rbsp) !in {1, 2}
            && var idc := states[0].operatingPointIDC;
               idc != 0 && (Shr(idc, rbsp[1] / 32) % 2 == 0 || Shr(idc, rbsp[1] / 8 % 4 + 8) % 2 == 0)
  {
    hide HeaderOf, ContentBit, Invariant, ObuOf, ContentSays, Complete;
    WholeType(rbsp);
    WholeContent(rbsp);
    HeadedIs(rbsp);
  }

  /** What a unit of a type that is not dropped says, with the constants of the types written out. */
  lemma UnitContent(rbsp: seq<byte>, inputs: Unmodelled, operatingPoint: int, states: seq<State>, events: seq<Event>,
                    outcome: Outcome)
    returns (next: Option<nat>)
    requires |states| == |events| + 1 && Invariant(states[0]) && Whole(rbsp) && !outcome.Skipped?
    requires UnitSays(rbsp, inputs, operatingPoint, states, events, outcome)
    ensures var typ, k := TypeByte(rbsp), ContentByte(rbsp);
            && ContentSays(typ, rbsp, 8 * k, inputs, operatingPoint, states, events, next)
            && outcome == if !Known(typ) then Unsupported
                          else if next.Some? && Complete(rbsp, typ, 8 * k, |rbsp| - k, next.value) then Decomposed
                          else Failed
  {
    hide HeaderOf, Invariant, ObuOf, ContentSays, Complete, Dropped, ContentBit;
    WholeType(rbsp);
    WholeContent(rbsp);
    HeadedIs(rbsp);
    var header := HeaderOf(rbsp).value;
    var start, size := ContentBit(rbsp, header).pos, ContentBit(rbsp, header).value;
    next :| ContentSays(header.typ, rbsp, start, inputs, operatingPoint, states, events, next)
            && outcome == if !Known(header.typ) then Unsupported
                          else if next.Some? && Complete(rbsp, header.typ, start, size, next.value) then Decomposed
                          else Failed;
  }

  /** Trailing bits from next on fill a whole unit whose content is not empty. */
  ghost predicate FilledFrom(rbsp: seq<byte>, next: nat)
    requires Whole(rbsp)
  {
    ContentByte(rbsp) == |rbsp| || (next < 8 * |rbsp| && ShowsTrailing(rbsp, next, 8 * |rbsp| - next))
  }

  lemma CompleteIsFilled(rbsp: seq<byte>, typ: nat, next: nat)
    requires Whole(rbsp)
    ensures var k := ContentByte(rbsp);
            Complete(rbsp, typ, 8 * k, |rbsp| - k, next) <==> typ in {4, 6, 8} || FilledFrom(rbsp, next)
  {
    hide ShowsTrailing, ContentByte, Whole;
  }

  /**
   * A frame OBU, of type 6: first the step of its frame header; then, when that is accepted and zero bits lead to the
   * next byte, the step of the tile group there, in the state reached. It is decomposed exactly when that group is
   * accepted and data follow it.
   */
  lemma FrameUnitSays(rbsp: seq<byte>, inputs: Unmodelled, operatingPoint: int, states: seq<State>, events: seq<Event>,
                      outcome: Outcome)
    requires |states| == |events| + 1 && Invariant(states[0]) && Whole(rbsp) && !outcome.Skipped?
    requires UnitSays(rbsp, inputs, operatingPoint, states, events, outcome) && rbsp[0] / 8 == 6
    ensures var p, end := 8 * ContentByte(rbsp), 8 * |rbsp|;
            var e := HeaderEvent(rbsp, p, end, inputs.gap, states[0], false);
            var q := p + HeaderBits(e);
            && |states| > 1 && Opens(rbsp, p, inputs.gap, states[0], states[1])
            && if HeaderPasses(e) && AlignsAt(rbsp, q, end) then
                 && events == [e] + TileEvents(rbsp, Aligned(q), states[1])
                 && outcome == if TileDataAt(rbsp, Aligned(q), states[1]).Some? then Decomposed else Failed
               else events == [e] && outcome == Failed
  {
    hide ContentByte, Whole, Complete, UnitSays, HeaderEvent, TileEvents, TileDataAt, AlignsAt, Aligned, Invariant,
         Opens;
    var next := UnitContent(rbsp, inputs, operatingPoint, states, events, outcome);
    if next.Some? {
      CompleteIsFilled(rbsp, 6, next.value);
    }
  }

  /** A tile group OBU, of type 4: one step, none when it is empty. */
  lemma TileUnitSays(rbsp: seq<byte>, inputs: Unmodelled, operatingPoint: int, states: seq<State>, events: seq<Event>,
                     outcome: Outcome)
    requires |states| == |events| + 1 && Invariant(states[0]) && Whole(rbsp) && !outcome.Skipped?
    requires UnitSays(rbsp, inputs, operatingPoint, states, events, outcome) && rbsp[0] / 8 == 4
    ensures var p := 8 * ContentByte(rbsp);
            && events == TileEvents(rbsp, p, states[0])
            && outcome == if TileDataAt(rbsp, p, states[0]).Some? then Decomposed else Failed
  {
    hide ContentByte, Whole, Complete, UnitSays, TileEvents, TileDataAt, Invariant;
    var next := UnitContent(rbsp, inputs, operatingPoint, states, events, outcome);
    if next.Some? {
      CompleteIsFilled(rbsp, 4, next.value);
    }
  }

  /** Frame header OBUs, of type 3, and redundant ones, of type 7: one step, and trailing bits behind it. */
  lemma HeaderUnitSays(rbsp: seq<byte>, inputs: Unmodelled, operatingPoint: int, states: seq<State>,
                       events: seq<Event>, outcome: Outcome)
    requires |states| == |events| + 1 && Invariant(states[0]) && Whole(rbsp) && !outcome.Skipped?
    requires UnitSays(rbsp, inputs, operatingPoint, states, events, outcome) && rbsp[0] / 8 in {3, 7}
    ensures var p := 8 * ContentByte(rbsp);
            var e := HeaderEvent(rbsp, p, 8 * |rbsp|, inputs.gap, states[0], rbsp[0] / 8 == 7);
            && events == [e] && Opens(rbsp, p, inputs.gap, states[0], states[1])
            && outcome == if HeaderPasses(e) && FilledFrom(rbsp, p + HeaderBits(e)) then Decomposed else Failed
  {
    hide ContentByte, ObuOf, Complete, UnitSays, HeaderEvent, FilledFrom, Invariant, Opens;
    var next := UnitContent(rbsp, inputs, operatingPoint, states, events, outcome);
    if next.Some? {
      CompleteIsFilled(rbsp, rbsp[0] / 8, next.value);
    }
  }

  /**
   * The other types: a sequence header (1) that is parsed, and has the operating point asked for, if any, is one step;
   * a temporal delimiter (2) is one; metadata (5), tile lists (8) and padding (15) are none; any other type is
   * unsupported and none.
   */
  lemma OtherUnitSays(rbsp: seq<byte>, inputs: Unmodelled, operatingPoint: int, states: seq<State>,
                      events: seq<Event>, outcome: Outcome)
    requires |states| == |events| + 1 && Invariant(states[0]) && Whole(rbsp) && !outcome.Skipped?
    requires UnitSays(rbsp, inputs, operatingPoint, states, events, outcome)
    ensures var typ, p := rbsp[0] / 8, 8 * ContentByte(rbsp);
            && (typ == 1 ==>
                  match inputs.sequence(rbsp, p)
                  case None => events == [] && outcome == Failed
                  case Some(parse) =>
                    if operatingPoint >= |parse.operatingPoints| then events == [] && outcome == Failed
                    else
                      && events == [SequenceHeader(parse.sequence,
                                                   if operatingPoint < 0 then states[0].operatingPointIDC
                                                   else parse.operatingPoints[operatingPoint])]
                      && outcome == if FilledFrom(rbsp, parse.pos) then Decomposed else Failed)
            && (typ == 2 ==> events == [Delimiter] && outcome == if FilledFrom(rbsp, p) then Decomposed else Failed)
            && (typ in {5, 8, 15} ==> events == [] && !outcome.Unsupported?)
            && (typ == 5 ==>
                  var q := MetadataEnd(rbsp, p, inputs.gap);
                  outcome == if q.Some? && FilledFrom(rbsp, q.value) then Decomposed else Failed)
            && (typ == 15 ==>
                  var q := 8 * (p / 8 + PaddingLength(rbsp, p / 8));
                  outcome == if FilledFrom(rbsp, q) then Decomposed else Failed)
            && (typ == 8 ==> (outcome.Decomposed? <==> p + 32 < 8 * |rbsp|))
            && (typ == 0 || 9 <= typ <= 14 ==> events == [] && outcome == Unsupported)
  {
    hide ContentByte, ObuOf, Complete, UnitSays, FilledFrom, Invariant, HeaderSays, FrameSays, TileEvents,
         TileDataAt, MetadataEnd, LastNonzero;
    var next := UnitContent(rbsp, inputs, operatingPoint, states, events, outcome);
    if next.Some? {
      CompleteIsFilled(rbsp, rbsp[0] / 8, next.value);
    }
  }

  // ----- Redundant headers across units

  /** No step of the piece ends an open frame. */
  ghost predicate Quiet(piece: Piece) {
    piece.Valid() && forall k :: 0 <= k < |piece.events| ==> !Ends(piece.states[k], piece.events[k])
  }

  lemma StaysOpen(s: State, e: Event, t: State)
    requires Invariant(s) && Step(s, e, t) && s.seen && !Ends(s, e)
    ensures Invariant(t) && t.seen && t.stored == s.stored && t.storedBits == s.storedBits && s.tileNum <= t.tileNum
  {
    hide RefsOk, Weakened, Refreshed, GridFor, ShownRefs;
    StepKeeps(s, e, t);
    OpenStep(s, e, t);
  }

  lemma {:induction false} QuietKeeps(piece: Piece, n: nat)
    requires Quiet(piece) && Run(piece.states, piece.events) && n <= |piece.events|
    requires Invariant(piece.states[0]) && piece.states[0].seen
    ensures var s, t := piece.states[0], piece.states[n];
            Invariant(t) && t.seen && t.stored == s.stored && t.storedBits == s.storedBits && s.tileNum <= t.tileNum
    decreases n
  {
    hide Step, Invariant, Ends;
    if n > 0 {
      QuietKeeps(piece, n - 1);
      assert Step(piece.states[n - 1], piece.events[n - 1], piece.states[n]);
      StaysOpen(piece.states[n - 1], piece.events[n - 1], piece.states[n]);
    }
  }

  /** From the end of unit a to the start of unit b the stored header stays, and tiles are counted upwards. */
  lemma {:induction false} StoredAcross(s: State, units: seq<Unit>, inputs: nat -> Unmodelled, operatingPoint: int,
                                        pieces: seq<Piece>,
                                        outcomes: seq<Outcome>, a: nat, b: nat)
    requires Chained(s, pieces) && UnitsSay(units, inputs, operatingPoint, pieces, outcomes) && a < b < |pieces|
    requires pieces[a].Valid() && pieces[a].Last().seen && forall k :: a < k < b ==> Quiet(pieces[k])
    ensures pieces[b].Valid() && pieces[b].states[0].seen
    ensures pieces[b].states[0].stored == pieces[a].Last().stored
    ensures pieces[b].states[0].storedBits == pieces[a].Last().storedBits
    ensures pieces[a].Last().tileNum <= pieces[b].states[0].tileNum
    decreases b
  {
    hide UnitSays, Invariant, Run, Quiet;
    if a + 1 < b {
      StoredAcross(s, units, inputs, operatingPoint, pieces, outcomes, a, b - 1);
      assert PieceSays(units[b - 1].rbsp, inputs(b - 1), operatingPoint, pieces[b - 1], outcomes[b - 1]);
      QuietKeeps(pieces[b - 1], |pieces[b - 1].events|);
    }
  }

  /** A frame header OBU that opens a frame names its own bits. */
  lemma OpeningBits(rbsp: seq<byte>, inputs: Unmodelled, operatingPoint: int, piece: Piece, outcome: Outcome)
    requires Whole(rbsp) && PieceSays(rbsp, inputs, operatingPoint, piece, outcome)
    requires HeaderOf(rbsp).value.typ in {OBU_FRAME_HEADER, OBU_REDUNDANT_FRAME_HEADER}
    requires piece.events != [] && piece.events[0].Opened?
    ensures var p, header, t := 8 * ContentByte(rbsp), piece.events[0].header, piece.Last();
            header == BitsOf(rbsp, p, |header|) && t.seen && t.stored.Some? && t.storedBits == |header| &&
            t.StoredHeader() == header
  {
    hide HeaderOf, Dropped, BitsOf, ShowsTrailing, ObuOf, Invariant, ContentBit, FrameSays, Complete, Headed,
         OpeningAt, Refreshed, GridFor;
    WholeContent(rbsp);
    HeadedIs(rbsp);
    assert Step(piece.states[0], piece.events[0], piece.states[1]);
  }

  /**
   * From end to end: in any packet, a redundant frame header OBU behind the one that opened the frame, with nothing
   * between them that ends the frame, is decomposed exactly when it repeats the bits of that header, byte for byte of
   * the packet, and trailing bits follow.
   */
  lemma RedundantRepeatsBytes(s: State, units: seq<Unit>, inputs: nat -> Unmodelled, operatingPoint: int,
                              pieces: seq<Piece>,
                              outcomes: seq<Outcome>, a: nat, b: nat)
    requires Chained(s, pieces) && UnitsSay(units, inputs, operatingPoint, pieces, outcomes) && a < b < |pieces|
    requires Whole(units[a].rbsp) && HeaderOf(units[a].rbsp).value.typ in {OBU_FRAME_HEADER, OBU_REDUNDANT_FRAME_HEADER}
    requires pieces[a].events != [] && pieces[a].events[0].Opened? && forall k :: a < k < b ==> Quiet(pieces[k])
    requires Whole(units[b].rbsp) && HeaderOf(units[b].rbsp).value.typ == OBU_REDUNDANT_FRAME_HEADER
    requires !outcomes[b].Skipped?
    ensures outcomes[b].Decomposed? <==>
              var x, y, n := units[a].rbsp, units[b].rbsp, |pieces[a].events[0].header|;
              var p, q := 8 * ContentByte(x), 8 * ContentByte(y);
              && q + n < 8 * |y| && BitsOf(y, q, n) == BitsOf(x, p, n) && ShowsTrailing(y, q + n, 8 * |y| - q - n)
  {
    hide HeaderOf, ObuOf, UnitSays, Invariant, Run, Quiet, BitsOf, ShowsTrailing, ContentByte;
    assert PieceSays(units[a].rbsp, inputs(a), operatingPoint, pieces[a], outcomes[a]);
    assert PieceSays(units[b].rbsp, inputs(b), operatingPoint, pieces[b], outcomes[b]);
    OpeningBits(units[a].rbsp, inputs(a), operatingPoint, pieces[a], outcomes[a]);
    StoredAcross(s, units, inputs, operatingPoint, pieces, outcomes, a, b);
    RedundantUnit(units[b].rbsp, inputs(b), operatingPoint, pieces[b].states, pieces[b].events, outcomes[b]);
  }

  /** Whether the bounds of a whole tile group OBU are explicit, and the bounds, in state s. */
  ghost function UnitBounds(rbsp: seq<byte>, s: State): Option<Bounds>
    requires Whole(rbsp)
  {
    BoundsAt(rbsp, 8 * ContentByte(rbsp), 8 * |rbsp|, s)
  }

  lemma GroupCounts(rbsp: seq<byte>, inputs: Unmodelled, operatingPoint: int, piece: Piece, outcome: Outcome)
    requires Whole(rbsp) && PieceSays(rbsp, inputs, operatingPoint, piece, outcome)
    requires HeaderOf(rbsp).value.typ == OBU_TILE_GROUP
    requires outcome.Decomposed?
    ensures var bounds := UnitBounds(rbsp, piece.states[0]);
            bounds.Some? && piece.Last().tileNum == bounds.value.last + 1 &&
            if bounds.value.explicit then GroupAccepted(piece.states[0], bounds.value.start, bounds.value.last)
            else bounds.value.start == 0
  {
    hide HeaderOf, Dropped, BitsOf, ObuOf, Invariant, ContentBit, HeaderSays, FrameSays, Headed, BoundsAt, AlignsAt;
    WholeContent(rbsp);
    HeadedIs(rbsp);
    assert Step(piece.states[0], piece.events[0], piece.states[1]);
  }

  /**
   * From end to end for tile groups: of two that are decomposed in an open frame, with nothing that ends it from the
   * first one on, the explicit range that the bits of the second one code starts behind the range of the first one.
   */
  lemma CodedRangesAscend(s: State, units: seq<Unit>, inputs: nat -> Unmodelled, operatingPoint: int,
                          pieces: seq<Piece>,
                          outcomes: seq<Outcome>, a: nat, b: nat)
    requires Chained(s, pieces) && UnitsSay(units, inputs, operatingPoint, pieces, outcomes) && a < b < |pieces|
    requires forall i :: i == a || i == b ==>
               Whole(units[i].rbsp) && HeaderOf(units[i].rbsp).value.typ == OBU_TILE_GROUP && outcomes[i].Decomposed?
    requires pieces[a].Valid() && pieces[a].states[0].seen && forall k :: a <= k < b ==> Quiet(pieces[k])
    ensures pieces[b].Valid()
    ensures var x, y := UnitBounds(units[a].rbsp, pieces[a].states[0]), UnitBounds(units[b].rbsp, pieces[b].states[0]);
            && x.Some? && y.Some?
            && (y.value.explicit ==> x.value.last < y.value.start <= y.value.last < pieces[b].states[0].NumTiles())
  {
    hide HeaderOf, ObuOf, UnitSays, Invariant, Run, Quiet, UnitBounds;
    assert PieceSays(units[a].rbsp, inputs(a), operatingPoint, pieces[a], outcomes[a]);
    assert PieceSays(units[b].rbsp, inputs(b), operatingPoint, pieces[b], outcomes[b]);
    GroupCounts(units[a].rbsp, inputs(a), operatingPoint, pieces[a], outcomes[a]);
    GroupCounts(units[b].rbsp, inputs(b), operatingPoint, pieces[b], outcomes[b]);
    QuietKeeps(pieces[a], |pieces[a].events|);
    StoredAcross(s, units, inputs, operatingPoint, pieces, outcomes, a, b);
  }

  lemma SeenStores(s: State)
    requires Invariant(s) && s.seen
    ensures s.stored.Some? && s.storedBits > 0
  {
  }

  /** Every unit of a packet that was split without error is one whole OBU. */
  lemma UnitsAreWhole(data: seq<byte>, header: bool, i: nat)
    requires Split(data, header).1 && i < |Split(data, header).0|
    ensures Whole(Split(data, header).0[i].rbsp)
  {
    hide ObuOf;
    SplitTiles(data, header);
    var units := Split(data, header).0;
    UnitIsWhole(data, units, StartOf(data, header).off, i);
  }

  lemma UnitIsWhole(data: seq<byte>, units: seq<Unit>, start: nat, i: nat)
    requires Covers(data, units, start, 0, true) && i < |units|
    ensures Whole(units[i].rbsp)
  {
    hide ObuOf;
    assert IsUnit(data, units[i]);
  }

  /** The content of a written OBU is its payload. */
  lemma WrittenContent(o: Obu)
    requires o.Valid()
    ensures Whole(o.Bytes()) && HeaderOf(o.Bytes()) == Some(o.Header())
    ensures var k := ContentByte(o.Bytes());
            k == HeaderBytes(o.Header()) + o.sizeLen && o.Bytes()[k..] == o.payload
  {
    hide HeaderOf, ObuOf, ParseLeb, LebBytes, Obu.HeadBytes, Obu.Valid;
    var s := o.Bytes();
    ObuReads(o, []);
    assert s + [] == s;
    HeaderShown(o, s);
    if o.sizeLen > 0 {
      SizeReads(o, s);
      WholeBytes(HeaderBytes(o.Header()), o.sizeLen);
    }
  }

  /**
   * A padding OBU, written with any payload, a trailing one bit and any number of zero bytes, yields exactly
   * that payload: it is what readUnit takes, and the trailing bits behind it are right.
   */
  lemma PaddingRoundTrip(o: Obu, payload: seq<byte>, z: nat)
    requires o.Valid() && o.typ == OBU_PADDING && IsPadded(o.payload, payload, z)
    ensures Whole(o.Bytes()) && HeaderOf(o.Bytes()).Some? && HeaderOf(o.Bytes()).value.typ == OBU_PADDING
    ensures var s, k := o.Bytes(), ContentByte(o.Bytes());
            && PaddingLength(s, k) == |payload| && s[k..k + PaddingLength(s, k)] == payload
            && ShowsTrailing(s, 8 * (k + PaddingLength(s, k)), 8 * (|s| - k - PaddingLength(s, k)))
  {
    hide HeaderOf, ObuOf, ParseLeb, LebBytes, Obu.HeadBytes, Obu.Valid, ShowsTrailing, LastNonzero, Obu.Bytes,
         ContentByte;
    WrittenContent(o);
    PaddingRecovered(o.Bytes(), ContentByte(o.Bytes()), payload, z);
  }
}
