/**
 * The AV1 parser: frame sizes, references, frame headers and tile groups (cbs/av1_syntax.go and cbs/av1.go).
 * Its methods are proved to read what Av1Header says of the bits, and to take the steps of Av1State.
 */
module Av1Context {
  import opened Common
  import opened Powers
  import opened Bits
  import opened BitReading
  import opened ExpGolomb
  import opened Fields
  import opened OrderHints
  import opened FrameRefs
  import opened SkipMode
  import opened TileInfo
  import opened Av1State
  import opened Av1Header

  method SkipFields(r: BitReader, gap: Gap, k: nat) returns (ok: bool)
    requires InBounds(gap) && r.pos <= r.end == 8 * |r.data|
    modifies r`pos
    ensures ok <==> gap(k, r.data, old(r.pos)).Some?
    ensures r.pos == if ok then gap(k, r.data, old(r.pos)).value else old(r.pos)
    ensures old(r.pos) <= r.pos <= r.end
  {
    match gap(k, r.data, r.pos) {
      case None =>
        return false;
      case Some(q) =>
        r.SkipBits(q - r.pos);
        return true;
    }
  }

  // ----- The frame header that is being read

  class FrameHeader {
    var showExistingFrame: bool
    var showFrame: bool
    var errorResilientMode: bool
    var frameSizeOverrideFlag: bool
    var frameRefsShortSignaling: bool
    var useSuperres: bool
    var referenceSelect: bool
    var skipModePresent: bool
    var frameToShowMapIdx: nat
    var frameType: nat
    var refreshFrameFlags: uint8
    var orderHint: uint8
    var codedDenom: nat
    var frameWidthMinus1: uint16
    var frameHeightMinus1: uint16
    var renderWidthMinus1: uint16
    var renderHeightMinus1: uint16
    var currentFrameID: nat
    var lastFrameIdx: nat
    var goldenFrameIdx: nat
    var refFrameIdx: seq<int>
    const tiles: TileLayout

    constructor ()
      ensures fresh(tiles) && tiles.Valid() && fresh(tiles.startCol) && fresh(tiles.startRow)
      ensures fresh(tiles.widthMinus1) && fresh(tiles.heightMinus1)
      ensures Named(refFrameIdx) && !errorResilientMode
    {
      showExistingFrame, showFrame, errorResilientMode, frameSizeOverrideFlag := false, false, false, false;
      frameRefsShortSignaling, useSuperres, referenceSelect, skipModePresent := false, false, false, false;
      frameToShowMapIdx, frameType, refreshFrameFlags, orderHint, codedDenom := 0, 0, 0, 0, 0;
      frameWidthMinus1, frameHeightMinus1, renderWidthMinus1, renderHeightMinus1 := 0, 0, 0, 0;
      currentFrameID, lastFrameIdx, goldenFrameIdx := 0, 0, 0;
      refFrameIdx := seq(REFS_PER_FRAME, _ => 0);
      tiles := new TileLayout();
    }

    /** The kind of frame, when the fields behind it start at next. */
    function KindTo(next: nat): Kind
      reads `frameType, `showFrame, `errorResilientMode
    {
      Kind(frameType, showFrame, errorResilientMode, next)
    }

    ghost predicate HoldsStart(start: Start)
      reads `currentFrameID, `frameSizeOverrideFlag, `orderHint, `refreshFrameFlags
    {
      && currentFrameID == start.id && frameSizeOverrideFlag == start.override
      && orderHint == start.orderHint && refreshFrameFlags == start.flags
    }

    ghost predicate HoldsNames(names: Names)
      reads `frameRefsShortSignaling, `lastFrameIdx, `goldenFrameIdx, `refFrameIdx
    {
      && refFrameIdx == names.idx && frameRefsShortSignaling == names.short.Some?
      && (names.short.Some? ==> (lastFrameIdx, goldenFrameIdx) == names.short.value)
    }

    /** The sizes that the header announces are these, and the width went through superres. */
    ghost predicate Announces(size: Size)
      reads `frameWidthMinus1, `frameHeightMinus1, `renderWidthMinus1, `renderHeightMinus1, `useSuperres, `codedDenom
    {
      && frameWidthMinus1 == size.upscaledWidth - 1 && frameHeightMinus1 == size.frameHeight - 1
      && renderWidthMinus1 == size.renderWidth - 1 && renderHeightMinus1 == size.renderHeight - 1
      && 8 <= Denominator() <= 16 && size.frameWidth == SuperresWidth(size.upscaledWidth, Denominator())
    }

    ghost predicate HoldsBack(back: Back)
      reads `referenceSelect, `skipModePresent, tiles, tiles.widthMinus1, tiles.heightMinus1
    {
      referenceSelect == back.referenceSelect && skipModePresent == back.skipModePresent && tiles.HoldsAll(back.tiles)
    }

    /** The fields are those of this header. */
    ghost predicate Holds(h: Header)
      reads this, tiles, tiles.widthMinus1, tiles.heightMinus1
    {
      && !showExistingFrame && KindTo(h.kind.next) == h.kind && HoldsStart(h.front.start) && Announces(h.front.size)
      && (h.front.names.Some? ==> HoldsNames(h.front.names.value)) && HoldsBack(h.back)
    }

    function Denominator(): nat
      reads `useSuperres, `codedDenom
    {
      if useSuperres then codedDenom + SUPERRES_DENOM_MIN else SUPERRES_NUM
    }
  }

  lemma HintFits(data: seq<byte>, p: nat, coding: HintCoding)
    requires coding.Valid()
    ensures Field(data, p, coding.bitsMinus1 + 1) < 256
  {
    FieldBound(data, p, coding.bitsMinus1 + 1);
    FitsByte(coding.bitsMinus1 + 1);
  }

  // ----- The parser

  class AV1Context {
    var sequenceHeader: Option<Sequence>
    var seenFrameHeader: bool
    var frameHeader: Option<seq<byte>>
    var frameHeaderSize: nat
    var orderHint: uint8
    var frameWidth: int
    var frameHeight: int
    var upscaledWidth: int
    var renderWidth: int
    var renderHeight: int
    var tileCols: nat
    var tileRows: nat
    var tileNum: nat
    var ref: seq<RefState>
    var temporalID: nat
    var spatialID: nat
    var operatingPointIDC: nat
    const operatingPoint: int

    /** operatingPoint is -1 when none was asked for. */
    constructor (operatingPoint: int)
      ensures View() == Initial() && this.operatingPoint == operatingPoint
    {
      this.operatingPoint := operatingPoint;
      temporalID, spatialID, operatingPointIDC := 0, 0, 0;
      sequenceHeader, seenFrameHeader, frameHeader, frameHeaderSize := None, false, None, 0;
      orderHint, frameWidth, frameHeight, upscaledWidth, renderWidth, renderHeight := 0, 0, 0, 0, 0, 0;
      tileCols, tileRows, tileNum := 0, 0, 0;
      ref := NoRefs();
    }

    function FrameSizes(): Size
      reads this
    {
      Size(upscaledWidth, frameWidth, frameHeight, renderWidth, renderHeight)
    }

    function View(): State
      reads this
    {
      State(sequenceHeader, seenFrameHeader, frameHeader, frameHeaderSize, FrameSizes(), orderHint,
            tileCols, tileRows, tileNum, ref, operatingPointIDC)
    }

    // ----- Sizes

    method SuperresParams(r: BitReader, current: FrameHeader) returns (ok: bool)
      requires sequenceHeader.Some? && 1 <= frameWidth <= MAX_FRAME_SIZE && r.pos <= r.end
      modifies this`upscaledWidth, this`frameWidth, current`useSuperres, current`codedDenom, r`pos
      ensures ok ==> old(r.pos) <= r.pos <= r.end
      ensures var coded := SuperresAt(r.data, old(r.pos), r.end, sequenceHeader.value.enableSuperres);
              if ok then coded == Some((current.Denominator(), r.pos)) else coded.None?
      ensures ok ==> upscaledWidth == old(frameWidth)
      ensures ok ==> frameWidth == SuperresWidth(upscaledWidth, current.Denominator())
      ensures ok ==> 1 <= frameWidth <= upscaledWidth
      ensures !ok ==> upscaledWidth == old(upscaledWidth) && frameWidth == old(frameWidth)
    {
      hide SuperresWidth, Field, BitAt;
      if sequenceHeader.value.enableSuperres {
        var flag := ReadFlag(r);
        if flag.Err? {
          return false;
        }
        current.useSuperres := flag.value;
      } else {
        current.useSuperres := false;
      }
      if current.useSuperres {
        SlotField(r.data, r.pos);
        var coded := ReadBits(r, 3);
        if coded.Err? {
          return false;
        }
        current.codedDenom := coded.value;
      }
      var denom := current.Denominator();
      upscaledWidth := frameWidth;
      SuperresBounds(upscaledWidth, denom);
      frameWidth := SuperresWidth(upscaledWidth, denom);
      return true;
    }

    method FrameSize(r: BitReader, current: FrameHeader) returns (ok: bool)
      requires sequenceHeader.Some? && sequenceHeader.value.Valid() && r.pos <= r.end
      modifies this`upscaledWidth, this`frameWidth, this`frameHeight, r`pos
      modifies current`useSuperres, current`codedDenom, current`frameWidthMinus1, current`frameHeightMinus1
      ensures ok ==> old(r.pos) <= r.pos <= r.end
      ensures ok ==> upscaledWidth == current.frameWidthMinus1 as int + 1
      ensures ok ==> frameHeight == current.frameHeightMinus1 as int + 1
      ensures ok ==> frameWidth == SuperresWidth(upscaledWidth, current.Denominator())
      ensures var coded := ScaledAt(r.data, old(r.pos), r.end, sequenceHeader.value, current.frameSizeOverrideFlag);
              if ok then coded == Some((upscaledWidth, frameHeight, current.Denominator(), r.pos)) else coded.None?
    {
      hide SuperresWidth, Field, BitAt, SuperresAt;
      var sq := sequenceHeader.value;
      if current.frameSizeOverrideFlag {
        var width := ReadBits(r, sq.frameWidthBitsMinus1 + 1);
        if width.Err? {
          return false;
        }
        current.frameWidthMinus1 := Wrap16(width.value);
        var height := ReadBits(r, sq.frameHeightBitsMinus1 + 1);
        if height.Err? {
          return false;
        }
        current.frameHeightMinus1 := Wrap16(height.value);
      } else {
        current.frameWidthMinus1 := sq.maxFrameWidthMinus1;
        current.frameHeightMinus1 := sq.maxFrameHeightMinus1;
      }
      frameWidth := current.frameWidthMinus1 + 1;
      frameHeight := current.frameHeightMinus1 + 1;
      ok := SuperresParams(r, current);
    }

    method RenderSize(r: BitReader, current: FrameHeader) returns (ok: bool)
      requires r.pos <= r.end
      modifies this`renderWidth, this`renderHeight, current`renderWidthMinus1, current`renderHeightMinus1, r`pos
      ensures ok ==> old(r.pos) < r.pos <= r.end
      ensures ok ==> renderWidth == current.renderWidthMinus1 as int + 1
      ensures ok ==> renderHeight == current.renderHeightMinus1 as int + 1
      ensures var coded := RenderAt(r.data, old(r.pos), r.end, current.frameWidthMinus1 as int + 1,
                                    current.frameHeightMinus1 as int + 1);
              if ok then coded == Some((renderWidth, renderHeight, r.pos)) else coded.None?
    {
      hide BitAt, Field;
      var different := ReadFlag(r);
      if different.Err? {
        return false;
      }
      if different.value {
        var width := ReadBits(r, 16);
        if width.Err? {
          return false;
        }
        current.renderWidthMinus1 := Wrap16(width.value);
        var height := ReadBits(r, 16);
        if height.Err? {
          return false;
        }
        current.renderHeightMinus1 := Wrap16(height.value);
      } else {
        current.renderWidthMinus1 := current.frameWidthMinus1;
        current.renderHeightMinus1 := current.frameHeightMinus1;
      }
      renderWidth := current.renderWidthMinus1 + 1;
      renderHeight := current.renderHeightMinus1 + 1;
      return true;
    }

    /** frame_size() and render_size(), one after the other. */
    method FrameAndRenderSize(r: BitReader, current: FrameHeader) returns (ok: bool)
      requires sequenceHeader.Some? && sequenceHeader.value.Valid() && r.pos <= r.end
      modifies this`upscaledWidth, this`frameWidth, this`frameHeight, this`renderWidth, this`renderHeight, r`pos
      modifies current`useSuperres, current`codedDenom, current`frameWidthMinus1, current`frameHeightMinus1
      modifies current`renderWidthMinus1, current`renderHeightMinus1
      ensures ok ==> old(r.pos) < r.pos <= r.end && current.Announces(FrameSizes())
      ensures var coded := SizeAt(r.data, old(r.pos), r.end, sequenceHeader.value, current.frameSizeOverrideFlag);
              if ok then coded == Some((FrameSizes(), r.pos)) else coded.None?
    {
      hide SuperresWidth, SizeOk, ScaledAt, RenderAt;
      ok := FrameSize(r, current);
      if ok {
        ok := RenderSize(r, current);
      }
    }

    /**
     * frame_size_with_refs(). The first reference found gives the size, with superres applied anew; if none
     * is found the size is coded. What is inferred from a reference into uint16 fields does not wrap.
     */
    method FrameSizeWithRefs(r: BitReader, current: FrameHeader) returns (ok: bool)
      requires sequenceHeader.Some? && sequenceHeader.value.Valid() && r.pos <= r.end && RefsOk(ref)
      requires Named(current.refFrameIdx)
      modifies this`upscaledWidth, this`frameWidth, this`frameHeight, this`renderWidth, this`renderHeight, r`pos
      modifies current`useSuperres, current`codedDenom, current`frameWidthMinus1, current`frameHeightMinus1
      modifies current`renderWidthMinus1, current`renderHeightMinus1
      ensures ok ==> old(r.pos) < r.pos <= r.end && current.Announces(FrameSizes())
      ensures var coded := SizeByRefsAt(r.data, old(r.pos), r.end, sequenceHeader.value, ref, current.refFrameIdx,
                                        current.frameSizeOverrideFlag);
              if ok then coded == Some((FrameSizes(), r.pos)) else coded.None?
    {
      hide SuperresWidth, BitAt, SizeOk, SizeAt, SlotSizeAt, FrameHeader.Announces, FirstFound, RefsOk, Named;
      RefsCount(ref);
      ghost var p := r.pos;
      var i := 0;
      while i < REFS_PER_FRAME
        invariant 0 <= i <= REFS_PER_FRAME && r.pos == p + i && (i > 0 ==> r.pos <= r.end)
        invariant FirstFound(r.data, p, REFS_PER_FRAME) == i + FirstFound(r.data, p + i, REFS_PER_FRAME - i)
      {
        FoundNext(r.data, p + i, REFS_PER_FRAME - i);
        var flag := ReadFlag(r);
        if flag.Err? {
          return false;
        }
        if flag.value {
          NamedAt(current.refFrameIdx, i);
          SlotOk(ref, current.refFrameIdx[i]);
          ok := TakeSize(r, current, current.refFrameIdx[i]);
          return;
        }
        i := i + 1;
      }
      ok := FrameAndRenderSize(r, current);
    }

    /** The branch of frame_size_with_refs() that takes the size of slot k. */
    method TakeSize(r: BitReader, current: FrameHeader, k: int) returns (ok: bool)
      requires sequenceHeader.Some? && r.pos <= r.end && |ref| == NUM_REF_FRAMES && 0 <= k < NUM_REF_FRAMES
      requires ref[k].valid ==> SizeOk(ref[k].size)
      modifies this`upscaledWidth, this`frameWidth, this`frameHeight, this`renderWidth, this`renderHeight, r`pos
      modifies current`useSuperres, current`codedDenom, current`frameWidthMinus1, current`frameHeightMinus1
      modifies current`renderWidthMinus1, current`renderHeightMinus1
      ensures ok ==> old(r.pos) <= r.pos <= r.end && current.Announces(FrameSizes())
      ensures var coded := SlotSizeAt(r.data, old(r.pos), r.end, sequenceHeader.value, ref[k]);
              if ok then coded == Some((FrameSizes(), r.pos)) else coded.None?
    {
      hide SuperresWidth, SuperresAt;
      var s := ref[k].size;
      if !ref[k].valid {
        return false;
      }
      InferSizes(current, s);
      upscaledWidth := s.upscaledWidth;
      frameWidth := upscaledWidth;
      frameHeight := s.frameHeight;
      renderWidth := s.renderWidth;
      renderHeight := s.renderHeight;
      ok := SuperresParams(r, current);
    }

    // ----- References

    /** av1UpdateRefs. */
    method UpdateRefs(current: FrameHeader)
      requires |ref| == NUM_REF_FRAMES
      modifies this`ref
      ensures ref == UpdatedRefs(old(ref), current.refreshFrameFlags,
                                 RefState(true, current.currentFrameID, FrameSizes(), current.frameType, orderHint),
                                      NUM_REF_FRAMES)
    {
      hide Shr;
      var i := 0;
      while i < NUM_REF_FRAMES
        invariant 0 <= i <= NUM_REF_FRAMES && |ref| == NUM_REF_FRAMES
        invariant ref == UpdatedRefs(old(ref), current.refreshFrameFlags,
                                     RefState(true, current.currentFrameID, FrameSizes(), current.frameType,
                                              orderHint), i)
      {
        if Refreshes(current.refreshFrameFlags, i) {
          ref := ref[i := RefState(true, current.currentFrameID, FrameSizes(), current.frameType, orderHint)];
        }
        i := i + 1;
      }
    }

    /** av1UpdateRefs when every slot is refreshed, or none. */
    method UpdateAll(current: FrameHeader)
      requires |ref| == NUM_REF_FRAMES && current.refreshFrameFlags in {0, ALL_FRAMES}
      modifies this`ref
      ensures ref == if current.refreshFrameFlags == 0 then old(ref)
                     else Everywhere(RefState(true, current.currentFrameID, FrameSizes(), current.frameType, orderHint))
    {
      hide UpdatedRefs, Refreshes, Everywhere;
      UpdateRefs(current);
      ShownUpdate(old(ref), RefState(true, current.currentFrameID, FrameSizes(), current.frameType, orderHint),
                  current.refreshFrameFlags);
    }

    /** A shown key frame starts over: no slot is valid any more. */
    method ForgetReferences()
      requires |ref| == NUM_REF_FRAMES
      modifies this`ref
      ensures ref == Forgotten(old(ref), true)
    {
      ghost var after := Forgotten(ref, true);
      var i := 0;
      while i < NUM_REF_FRAMES
        invariant 0 <= i <= NUM_REF_FRAMES && |ref| == NUM_REF_FRAMES
        invariant forall k :: 0 <= k < NUM_REF_FRAMES ==> ref[k] == if k < i then after[k] else old(ref)[k]
      {
        ref := ref[i := ref[i].(valid := false, orderHint := 0)];
        i := i + 1;
      }
    }

    /** Frame id numbering invalidates slots that are too far from the current id. */
    method ForgetOldIds(current: FrameHeader, idLen: nat, diffLen: nat)
      requires |ref| == NUM_REF_FRAMES
      modifies this`ref
      ensures ref == Identified(old(ref), current.currentFrameID, Some((idLen, diffLen)))
    {
      hide IdTooOld;
      ghost var after := Identified(ref, current.currentFrameID, Some((idLen, diffLen)));
      var i := 0;
      while i < NUM_REF_FRAMES
        invariant 0 <= i <= NUM_REF_FRAMES && |ref| == NUM_REF_FRAMES
        invariant forall k :: 0 <= k < NUM_REF_FRAMES ==> ref[k] == if k < i then after[k] else old(ref)[k]
      {
        if IdTooOld(ref[i].frameID, current.currentFrameID, idLen, diffLen) {
          ref := ref[i := ref[i].(valid := false)];
        }
        i := i + 1;
      }
    }

    /** ref_order_hint[i]: in error resilient mode a slot whose hint is not the coded one becomes invalid. */
    method CheckOrderHint(r: BitReader, current: FrameHeader, i: nat) returns (ok: bool)
      requires sequenceHeader.Some? && sequenceHeader.value.Valid() && i < |ref| && r.pos <= r.end
      modifies this`ref, r`pos
      ensures var n := sequenceHeader.value.hints.bitsMinus1 + 1;
              if !current.errorResilientMode then ok && r.pos == old(r.pos) && ref == old(ref)
              else if old(r.pos) + n > r.end then !ok && ref == old(ref)
              else && ok && r.pos == old(r.pos) + n
                   && ref == old(ref)[i := Checked(old(ref)[i], Field(r.data, old(r.pos), n))]
    {
      hide Field;
      var hint: uint8 := ref[i].orderHint;
      if current.errorResilientMode {
        HintFits(r.data, r.pos, sequenceHeader.value.hints);
        var coded := ReadBits(r, sequenceHeader.value.hints.bitsMinus1 + 1);
        if coded.Err? {
          return false;
        }
        hint := Wrap8(coded.value);
      }
      if hint != ref[i].orderHint {
        ref := ref[i := ref[i].(valid := false)];
      }
      return true;
    }

    /** The order hints of all slots, one after the other. */
    method CheckOrderHints(r: BitReader, current: FrameHeader) returns (ok: bool)
      requires sequenceHeader.Some? && sequenceHeader.value.Valid() && |ref| == NUM_REF_FRAMES && r.pos <= r.end
      modifies this`ref, r`pos
      ensures Weakened(old(ref), ref)
      ensures var coding := sequenceHeader.value.hints;
              var next := if !current.errorResilientMode then old(r.pos)
                          else HintPlace(old(r.pos), NUM_REF_FRAMES, coding);
              if next <= r.end then ok && r.pos == next else !ok
      ensures ok ==>
                ref == HintsChecked(r.data, old(r.pos), old(ref), sequenceHeader.value.hints,
                                    current.errorResilientMode)
    {
      hide Field, HintsChecked, HintAt, Checked, Weakened, HintPlace;
      ghost var p := r.pos;
      ghost var coding, after := sequenceHeader.value.hints,
           HintsChecked(r.data, p, ref, sequenceHeader.value.hints, current.errorResilientMode);
      NextHint(r.data, p, 0, coding);
      var i := 0;
      while i < NUM_REF_FRAMES
        invariant 0 <= i <= NUM_REF_FRAMES && |ref| == NUM_REF_FRAMES && r.pos <= r.end
        invariant r.pos == if current.errorResilientMode then HintPlace(p, i, coding) else p
        invariant forall k :: 0 <= k < NUM_REF_FRAMES ==> ref[k] == if k < i then after[k] else old(ref)[k]
      {
        NextHint(r.data, p, i, coding);
        NextHint(r.data, p, i + 1, coding);
        ok := CheckOrderHint(r, current, i);
        if !ok {
          PartlyChecked(r.data, p, old(ref), coding, true, ref, i);
          return;
        }
        i := i + 1;
      }
      PartlyChecked(r.data, p, old(ref), coding, current.errorResilientMode, ref, i);
      return true;
    }

    // ----- The frame header

    /** The branch for show_existing_frame: the slot shown, if it is a key frame, is loaded and stored everywhere. */
    method ShowExisting(r: BitReader, current: FrameHeader, gap: Gap) returns (ok: bool)
      requires sequenceHeader.Some? && RefsOk(ref) && r.pos <= r.end == 8 * |r.data| && InBounds(gap)
      modifies this`upscaledWidth, this`frameWidth, this`frameHeight, this`renderWidth, this`renderHeight,
               this`orderHint,
               this`ref, current, r`pos
      ensures current.showExistingFrame == old(current.showExistingFrame)
      ensures ok ==> old(r.pos) < r.pos <= r.end && current.frameToShowMapIdx < NUM_REF_FRAMES
      ensures var again := AgainAt(r.data, old(r.pos), r.end, gap, old(ref));
              if ok then && again == Some(Again(current.frameToShowMapIdx, r.pos))
                         && View() == WithShown(old(View()), current.frameToShowMapIdx)
              else again.None? && View() == old(View())
    {
      hide SizeOk, Field, WithShown;
      RefsCount(ref);
      SlotField(r.data, r.pos);
      var k := ReadBits(r, 3);
      if k.Err? || !ref[k.value].valid {
        return false;
      }
      ok := SkipFields(r, gap, 0);
      if ok {
        current.frameToShowMapIdx := k.value;
        LoadShown(current, k.value);
      }
    }

    /** The sizes in the header, inferred from those of a slot. */
    method InferSizes(current: FrameHeader, s: Size)
      modifies current`frameWidthMinus1, current`frameHeightMinus1, current`renderWidthMinus1,
               current`renderHeightMinus1
      ensures current.frameWidthMinus1 == Wrap16(s.upscaledWidth - 1)
      ensures current.frameHeightMinus1 == Wrap16(s.frameHeight - 1)
      ensures current.renderWidthMinus1 == Wrap16(s.renderWidth - 1)
      ensures current.renderHeightMinus1 == Wrap16(s.renderHeight - 1)
    {
      hide Wrap16;
      current.frameWidthMinus1 := Wrap16(s.upscaledWidth - 1);
      current.frameHeightMinus1 := Wrap16(s.frameHeight - 1);
      current.renderWidthMinus1 := Wrap16(s.renderWidth - 1);
      current.renderHeightMinus1 := Wrap16(s.renderHeight - 1);
    }

    /** The frame load and reference refresh processes for the slot shown. */
    method LoadShown(current: FrameHeader, k: nat)
      requires |ref| == NUM_REF_FRAMES && k < NUM_REF_FRAMES && ref[k].valid
      modifies this`upscaledWidth, this`frameWidth, this`frameHeight, this`renderWidth, this`renderHeight,
               this`orderHint, this`ref
      modifies current`frameType, current`refreshFrameFlags, current`currentFrameID, current`frameWidthMinus1,
               current`frameHeightMinus1
      modifies current`renderWidthMinus1, current`renderHeightMinus1
      ensures View() == WithShown(old(View()), k)
    {
      hide UpdatedRefs, Refreshes, Everywhere, WithShown;
      ghost var s := View();
      var shown := ref[k];
      current.frameType := shown.frameType;
      if current.frameType == KEY_FRAME {
        current.refreshFrameFlags := ALL_FRAMES;
        current.currentFrameID := shown.frameID;
        LoadSize(shown.size);
        orderHint := shown.orderHint;
        SameFrame(shown);
      } else {
        current.refreshFrameFlags := 0;
      }
      InferSizes(current, shown.size);
      UpdateAll(current);
      ShownIs(s, k, View());
    }

    method LoadSize(s: Size)
      modifies this`upscaledWidth, this`frameWidth, this`frameHeight, this`renderWidth, this`renderHeight
      ensures FrameSizes() == s
    {
      upscaledWidth, frameWidth, frameHeight := s.upscaledWidth, s.frameWidth, s.frameHeight;
      renderWidth, renderHeight := s.renderWidth, s.renderHeight;
    }

    /** frame_type to error_resilient_mode. */
    method ReadFrameType(r: BitReader, current: FrameHeader, gap: Gap) returns (ok: bool)
      requires r.pos <= r.end == 8 * |r.data| && InBounds(gap)
      modifies current`frameType, current`showFrame, current`errorResilientMode, r`pos
      ensures ok ==> old(r.pos) < r.pos <= r.end
      ensures var kind := KindAt(r.data, old(r.pos), r.end, gap);
              if ok then kind == Some(current.KindTo(r.pos)) else kind.None?
    {
      hide Field, BitAt;
      var typ := ReadBits(r, 2);
      if typ.Err? {
        return false;
      }
      current.frameType := typ.value;
      var show := ReadFlag(r);
      if show.Err? {
        return false;
      }
      current.showFrame := show.value;
      ok := SkipFields(r, gap, 1);
      if !ok {
        return;
      }
      if !current.showFrame {
        var showable := ReadFlag(r);
        if showable.Err? {
          return false;
        }
      }
      if current.frameType == SWITCH_FRAME || (current.frameType == KEY_FRAME && current.showFrame) {
        current.errorResilientMode := true;
        return true;
      }
      var resilient := ReadFlag(r);
      if resilient.Err? {
        return false;
      }
      current.errorResilientMode := resilient.value;
      return true;
    }

    /** From the reset of a shown key frame up to the frame ids, which make slots unusable. */
    method ReadFrameID(r: BitReader, current: FrameHeader, gap: Gap) returns (ok: bool)
      requires sequenceHeader.Some? && sequenceHeader.value.Valid() && |ref| == NUM_REF_FRAMES
      requires r.pos <= r.end == 8 * |r.data| && InBounds(gap)
      modifies this`ref, current`currentFrameID, r`pos
      ensures Weakened(old(ref), ref)
      ensures ok ==> old(r.pos) < r.pos <= r.end
      ensures var id := IdAt(r.data, old(r.pos), r.end, gap, sequenceHeader.value.ids);
              if ok then id == Some((current.currentFrameID, r.pos)) else id.None?
      ensures ok ==>
                ref == Identified(Forgotten(old(ref), current.KindTo(0).StartsOver()), current.currentFrameID,
                                  sequenceHeader.value.ids)
    {
      hide Field, BitAt, IdTooOld;
      if current.frameType == KEY_FRAME && current.showFrame {
        ForgetReferences();
      }
      var disableCdfUpdate := ReadFlag(r);
      if disableCdfUpdate.Err? {
        return false;
      }
      ok := SkipFields(r, gap, 2);
      if !ok {
        return;
      }
      match sequenceHeader.value.ids {
        case None =>
          current.currentFrameID := 0;
        case Some((idLen, diffLen)) =>
          var id := ReadBits(r, idLen);
          if id.Err? {
            return false;
          }
          current.currentFrameID := id.value;
          ForgetOldIds(current, idLen, diffLen);
      }
      return true;
    }

    /** frame_size_override_flag and order_hint. */
    method ReadOrderHint(r: BitReader, current: FrameHeader) returns (ok: bool)
      requires sequenceHeader.Some? && sequenceHeader.value.Valid() && r.pos <= r.end
      modifies this`orderHint, current`frameSizeOverrideFlag, current`orderHint, r`pos
      ensures ok ==> old(r.pos) <= r.pos <= r.end && orderHint == current.orderHint
      ensures var coded := OverrideAt(r.data, old(r.pos), r.end, sequenceHeader.value, current.KindTo(0));
              if ok then coded == Some((current.frameSizeOverrideFlag, current.orderHint, r.pos)) else coded.None?
    {
      hide Field, BitAt;
      var sq := sequenceHeader.value;
      if current.frameType == SWITCH_FRAME {
        current.frameSizeOverrideFlag := true;
      } else if sq.reducedStill {
        current.frameSizeOverrideFlag := false;
      } else {
        var override := ReadFlag(r);
        if override.Err? {
          return false;
        }
        current.frameSizeOverrideFlag := override.value;
      }
      if sq.hints.enabled {
        var hint := ReadBits(r, sq.hints.bitsMinus1 + 1);
        if hint.Err? {
          return false;
        }
        current.orderHint := Wrap8(hint.value);
      } else {
        current.orderHint := 0;
      }
      orderHint := current.orderHint;
      return true;
    }

    /** refresh_frame_flags, and the order hints that are checked when not every slot is refreshed. */
    method ReadRefresh(r: BitReader, current: FrameHeader) returns (ok: bool)
      requires sequenceHeader.Some? && sequenceHeader.value.Valid() && |ref| == NUM_REF_FRAMES && r.pos <= r.end
      modifies this`ref, current`refreshFrameFlags, r`pos
      ensures Weakened(old(ref), ref)
      ensures ok ==> old(r.pos) <= r.pos <= r.end
      ensures var coded := RefreshAt(r.data, old(r.pos), r.end, sequenceHeader.value, current.KindTo(0), old(ref));
              if ok then coded == Some((current.refreshFrameFlags, ref, r.pos)) else coded.None?
    {
      hide Field, HintAt;
      if current.frameType == SWITCH_FRAME || (current.frameType == KEY_FRAME && current.showFrame) {
        current.refreshFrameFlags := ALL_FRAMES;
      } else {
        var flags := ReadBits(r, 8);
        if flags.Err? {
          return false;
        }
        current.refreshFrameFlags := Wrap8(flags.value);
      }
      var intra := current.frameType == INTRA_ONLY_FRAME || current.frameType == KEY_FRAME;
      if (!intra || current.refreshFrameFlags != ALL_FRAMES) && sequenceHeader.value.hints.enabled {
        ok := CheckOrderHints(r, current);
        return;
      }
      return true;
    }

    /** From the reset of a shown key frame up to the reference order hints. */
    method ReadStart(r: BitReader, current: FrameHeader, gap: Gap) returns (ok: bool, ghost start: Option<Start>)
      requires sequenceHeader.Some? && sequenceHeader.value.Valid() && |ref| == NUM_REF_FRAMES
      requires r.pos <= r.end == 8 * |r.data| && InBounds(gap)
      modifies this`ref, this`orderHint, r`pos
      modifies current`currentFrameID, current`frameSizeOverrideFlag, current`orderHint, current`refreshFrameFlags
      ensures Weakened(old(ref), ref)
      ensures ok ==> old(r.pos) < r.pos <= r.end
      ensures start == StartAt(r.data, r.end, gap, sequenceHeader.value, current.KindTo(old(r.pos)), old(ref))
      ensures (ok <==> start.Some?)
      ensures ok ==> current.HoldsStart(start.value) && orderHint == start.value.orderHint && ref == start.value.slots
      ensures ok ==> r.pos == start.value.next
    {
      hide IdAt, OverrideAt, RefreshAt, Identified, Forgotten;
      start := StartAt(r.data, r.end, gap, sequenceHeader.value, current.KindTo(r.pos), ref);
      SameKind(r.data, r.end, sequenceHeader.value, current.KindTo(r.pos), current.KindTo(0));
      ok := ReadFrameID(r, current, gap);
      if !ok {
        return;
      }
      ok := ReadOrderHint(r, current);
      if !ok {
        return;
      }
      ok := SkipFields(r, gap, 3);
      if !ok {
        return;
      }
      ok := ReadRefresh(r, current);
    }

    /** The call of setFrameRefs: the references it gives are those of section 7.8. */
    method DeriveRefs(current: FrameHeader)
      requires sequenceHeader.Some? && |ref| == NUM_REF_FRAMES
      requires current.lastFrameIdx < NUM_REF_FRAMES && current.goldenFrameIdx < NUM_REF_FRAMES
      modifies current`refFrameIdx
      ensures current.refFrameIdx
           == DerivedRefs(sequenceHeader.value.hints, ref, orderHint, current.lastFrameIdx, current.goldenFrameIdx)
    {
      hide Derived, DerivedRefs;
      current.refFrameIdx := SetFrameRefs(sequenceHeader.value.hints, SlotHints(ref), orderHint,
                                          current.lastFrameIdx, current.goldenFrameIdx);
      DerivedIs(sequenceHeader.value.hints, ref, orderHint, current.lastFrameIdx, current.goldenFrameIdx,
                current.refFrameIdx);
    }

    /** frame_refs_short_signaling and the slots it derives. */
    method ReadShortSignaling(r: BitReader, current: FrameHeader) returns (ok: bool)
      requires sequenceHeader.Some? && |ref| == NUM_REF_FRAMES && r.pos <= r.end && Named(current.refFrameIdx)
      modifies current`frameRefsShortSignaling, current`lastFrameIdx, current`goldenFrameIdx, current`refFrameIdx, r`pos
      ensures Named(current.refFrameIdx)
      ensures ok ==> old(r.pos) <= r.pos <= r.end
      ensures var short := ShortAt(r.data, old(r.pos), r.end, sequenceHeader.value.hints);
              var slots := (current.lastFrameIdx, current.goldenFrameIdx);
              var signalled := if current.frameRefsShortSignaling then Some(slots) else None;
              if ok then short == Some((signalled, r.pos))
              else short.None?
      ensures ok && current.frameRefsShortSignaling ==>
                current.refFrameIdx == DerivedRefs(sequenceHeader.value.hints, ref, orderHint, current.lastFrameIdx,
                                                   current.goldenFrameIdx)
    {
      hide Field, BitAt, DerivedRefs;
      if !sequenceHeader.value.hints.enabled {
        current.frameRefsShortSignaling := false;
        return true;
      }
      var short := ReadFlag(r);
      if short.Err? {
        return false;
      }
      current.frameRefsShortSignaling := short.value;
      if short.value {
        SlotField(r.data, r.pos);
        var last := ReadBits(r, 3);
        if last.Err? {
          return false;
        }
        current.lastFrameIdx := last.value;
        SlotField(r.data, r.pos);
        var golden := ReadBits(r, 3);
        if golden.Err? {
          return false;
        }
        current.goldenFrameIdx := golden.value;
        DeriveRefs(current);
      }
      return true;
    }

    /** The slots of an inter frame: derived, or coded one by one. */
    method ReadRefs(r: BitReader, current: FrameHeader, gap: Gap, ghost start: Start)
      returns (ok: bool, ghost names: Option<Names>)
      requires sequenceHeader.Some? && |ref| == NUM_REF_FRAMES && Named(current.refFrameIdx)
      requires r.pos <= r.end == 8 * |r.data| && InBounds(gap) && start.slots == ref && start.orderHint == orderHint
      modifies current`frameRefsShortSignaling, current`lastFrameIdx, current`goldenFrameIdx, current`refFrameIdx, r`pos
      ensures Named(current.refFrameIdx)
      ensures ok ==> old(r.pos) <= r.pos <= r.end
      ensures names == RefsAt(r.data, old(r.pos), r.end, gap, sequenceHeader.value, start) && (ok <==> names.Some?)
      ensures ok ==> current.HoldsNames(names.value) && r.pos == names.value.next
    {
      hide Field, BitAt, DerivedRefs, ShortAt, NamesAt, GapsAt;
      names := RefsAt(r.data, r.pos, r.end, gap, sequenceHeader.value, start);
      ok := ReadShortSignaling(r, current);
      if !ok {
        return;
      }
      ok := ReadNames(r, current, gap);
    }

    /** The loop over the references, which are coded unless they were derived. */
    method ReadNames(r: BitReader, current: FrameHeader, gap: Gap) returns (ok: bool)
      requires Named(current.refFrameIdx) && r.pos <= r.end == 8 * |r.data| && InBounds(gap)
      modifies current`refFrameIdx, r`pos
      ensures Named(current.refFrameIdx)
      ensures ok ==> old(r.pos) <= r.pos <= r.end
      ensures current.frameRefsShortSignaling ==>
                current.refFrameIdx == old(current.refFrameIdx) &&
                var next := GapsAt(r.data, old(r.pos), gap, 0);
                if ok then next == Some(r.pos) else next.None?
      ensures !current.frameRefsShortSignaling ==>
                var coded := NamesAt(r.data, old(r.pos), r.end, gap, []);
                if ok then coded == Some((current.refFrameIdx, r.pos)) else coded.None?
    {
      hide Field, NamesAt, GapsAt, Named;
      NamedAt(current.refFrameIdx, 0);
      var i := 0;
      while i < REFS_PER_FRAME
        invariant 0 <= i <= REFS_PER_FRAME && old(r.pos) <= r.pos <= r.end && Named(current.refFrameIdx)
        invariant |current.refFrameIdx| == REFS_PER_FRAME
        invariant forall k :: 0 <= k < i ==> 0 <= current.refFrameIdx[k] < NUM_REF_FRAMES
        invariant current.frameRefsShortSignaling ==> current.refFrameIdx == old(current.refFrameIdx)
        invariant current.frameRefsShortSignaling ==>
                  GapsAt(r.data, old(r.pos), gap, 0) == GapsAt(r.data, r.pos, gap, i)
        invariant !current.frameRefsShortSignaling ==>
                    NamesAt(r.data, old(r.pos), r.end, gap, [])
                    == NamesAt(r.data, r.pos, r.end, gap, current.refFrameIdx[..i])
      {
        NextGap(r.data, r.pos, gap, i);
        NextName(r.data, r.pos, r.end, gap, current.refFrameIdx[..i]);
        NamedAt(current.refFrameIdx, i);
        if !current.frameRefsShortSignaling {
          var k := ReadBits(r, 3);
          if k.Err? {
            return false;
          }
          NamedStill(current.refFrameIdx, i, k.value);
          current.refFrameIdx := current.refFrameIdx[i := k.value];
        }
        ok := SkipFields(r, gap, 5 + i);
        if !ok {
          return;
        }
        i := i + 1;
      }
      LastName(r.data, r.pos, r.end, gap, current.refFrameIdx);
      return true;
    }

    /** The references and the sizes of an inter frame. */
    method ReadInter(r: BitReader, current: FrameHeader, gap: Gap, ghost kind: Kind, ghost start: Start)
      returns (ok: bool, ghost front: Option<Front>)
      requires sequenceHeader.Some? && sequenceHeader.value.Valid() && RefsOk(ref) && Named(current.refFrameIdx)
      requires r.pos <= r.end == 8 * |r.data| && InBounds(gap) && r.pos == start.next
      requires start.slots == ref && start.orderHint == orderHint && current.HoldsStart(start)
      requires kind == current.KindTo(kind.next)
      modifies this`upscaledWidth, this`frameWidth, this`frameHeight, this`renderWidth, this`renderHeight, r`pos
      modifies current`useSuperres, current`codedDenom, current`frameWidthMinus1, current`frameHeightMinus1
      modifies current`renderWidthMinus1, current`renderHeightMinus1
      modifies current`frameRefsShortSignaling, current`lastFrameIdx, current`goldenFrameIdx, current`refFrameIdx
      ensures Named(current.refFrameIdx)
      ensures ok ==> old(r.pos) < r.pos <= r.end
      ensures front == InterAt(r.data, r.end, gap, sequenceHeader.value, kind, start) && (ok <==> front.Some?)
      ensures ok ==> current.HoldsNames(front.value.names.value) && current.Announces(FrameSizes())
      ensures ok ==> FrameSizes() == front.value.size && r.pos == front.value.next
    {
      hide SizeOk, RefsOk, RefsAt, SizeAt, SizeByRefsAt, Named, FrameHeader.Announces;
      RefsCount(ref);
      front := InterAt(r.data, r.end, gap, sequenceHeader.value, kind, start);
      ghost var names;
      ok, names := ReadRefs(r, current, gap, start);
      if !ok {
        return;
      }
      if current.frameSizeOverrideFlag && !current.errorResilientMode {
        ok := FrameSizeWithRefs(r, current);
      } else {
        ok := FrameAndRenderSize(r, current);
      }
    }

    /** The fields up to the sizes: the references of an inter frame, and the sizes. */
    method ReadFront(r: BitReader, current: FrameHeader, gap: Gap) returns (ok: bool, ghost front: Option<Front>)
      requires sequenceHeader.Some? && sequenceHeader.value.Valid() && RefsOk(ref) && Named(current.refFrameIdx)
      requires r.pos <= r.end == 8 * |r.data| && InBounds(gap)
      modifies this`ref, this`orderHint, this`upscaledWidth, this`frameWidth, this`frameHeight, this`renderWidth,
               this`renderHeight, r`pos
      modifies current`currentFrameID, current`frameSizeOverrideFlag, current`orderHint, current`refreshFrameFlags
      modifies current`useSuperres, current`codedDenom, current`frameWidthMinus1, current`frameHeightMinus1
      modifies current`renderWidthMinus1, current`renderHeightMinus1
      modifies current`frameRefsShortSignaling, current`lastFrameIdx, current`goldenFrameIdx, current`refFrameIdx
      ensures Weakened(old(ref), ref) && Named(current.refFrameIdx)
      ensures ok ==> old(r.pos) < r.pos <= r.end
      ensures front == FrontAt(r.data, r.end, gap, sequenceHeader.value, current.KindTo(old(r.pos)), old(ref))
      ensures (ok <==> front.Some?)
      ensures ok ==> FrontHeld(current, front.value) && r.pos == front.value.next
    {
      hide SizeOk, RefsOk, Weakened, StartAt, InterAt, SizeAt, Named, FrameHeader.HoldsNames, FrameHeader.Announces;
      RefsCount(ref);
      ghost var refs := ref;
      front := FrontAt(r.data, r.end, gap, sequenceHeader.value, current.KindTo(r.pos), ref);
      ghost var start;
      ok, start := ReadStart(r, current, gap);
      StillOk(refs, ref);
      if !ok {
        return;
      }
      if current.frameType == KEY_FRAME || current.frameType == INTRA_ONLY_FRAME {
        ok := FrameAndRenderSize(r, current);
      } else {
        ghost var inter;
        ok, inter := ReadInter(r, current, gap, current.KindTo(old(r.pos)), start.value);
      }
    }

    /** The parser and the header have read these fields. */
    ghost predicate FrontHeld(current: FrameHeader, front: Front)
      reads this, current
    {
      && current.HoldsStart(front.start) && ref == front.start.slots && orderHint == front.start.orderHint
      && current.Announces(front.size) && FrameSizes() == front.size
      && (front.names.Some? ==> current.HoldsNames(front.names.value))
    }

    /** tile_info() on the size just read. */
    method ReadTiles(r: BitReader, current: FrameHeader) returns (ok: bool)
      requires sequenceHeader.Some? && SizeOk(FrameSizes()) && r.pos <= r.end && current.tiles.Valid()
      modifies this`tileCols, this`tileRows, r`pos
      modifies current.tiles, current.tiles.startCol, current.tiles.startRow, current.tiles.widthMinus1,
               current.tiles.heightMinus1
      ensures ok ==> old(r.pos) < r.pos <= r.end
      ensures ok ==> GridFor(FrameSizes(), sequenceHeader.value.use128, tileCols, tileRows)
      ensures !ok ==> tileCols == old(tileCols) && tileRows == old(tileRows)
      ensures var grid := GridOf(frameWidth, frameHeight, sequenceHeader.value.use128);
              && Fits(grid)
              && var says := TileInfoAt(r.data, old(r.pos), r.end, grid);
                 if ok then && says.Some? && current.tiles.Describes(grid) && current.tiles.HoldsAll(says.value)
                   && r.pos == says.value.next
                            && tileCols == |says.value.tiling.widths| && tileRows == |says.value.tiling.heights|
                 else says.None?
    {
      hide TileLayout.Describes, TileInfoAt, Fits, GridOf;
      GridFits(frameWidth, frameHeight, sequenceHeader.value.use128);
      ghost var grid := GridOf(frameWidth, frameHeight, sequenceHeader.value.use128);
      ok := current.tiles.ReadTileInfo(r, GridOf(frameWidth, frameHeight, sequenceHeader.value.use128));
      if ok {
        current.tiles.DescribesFew(grid);
        tileCols := current.tiles.cols;
        tileRows := current.tiles.rows;
      }
    }

    /** reference_select, and skip_mode_present where skip mode is allowed. */
    method ReadSkipMode(r: BitReader, current: FrameHeader) returns (ok: bool)
      requires sequenceHeader.Some? && sequenceHeader.value.Valid() && |ref| == NUM_REF_FRAMES
      requires Named(current.refFrameIdx) && r.pos <= r.end
      modifies current`referenceSelect, current`skipModePresent, r`pos
      ensures ok ==> old(r.pos) <= r.pos <= r.end
      ensures var coded := SkipAt(r.data, old(r.pos), r.end, sequenceHeader.value, current.KindTo(0).Intra(), ref,
                                  current.refFrameIdx, orderHint);
              if ok then coded == Some((current.referenceSelect, current.skipModePresent, r.pos)) else coded.None?
    {
      hide BitAt, TwoReferences, HalfCycleClash, NearestAfter, NearestBelow, SeenFrom;
      var intra := current.frameType == KEY_FRAME || current.frameType == INTRA_ONLY_FRAME;
      current.referenceSelect := false;
      if !intra {
        var select := ReadFlag(r);
        if select.Err? {
          return false;
        }
        current.referenceSelect := select.value;
      }
      var allowed, forwardIdx, backwardIdx, secondForwardIdx :=
        SkipModeParams(sequenceHeader.value.hints, intra, current.referenceSelect, RefHints(ref, current.refFrameIdx),
                       orderHint);
      current.skipModePresent := false;
      if allowed {
        var present := ReadFlag(r);
        if present.Err? {
          return false;
        }
        current.skipModePresent := present.value;
      }
      return true;
    }

    /** The fields behind the sizes: the tiles, reference_select and skip mode are modelled. */
    method ReadBack(r: BitReader, current: FrameHeader, gap: Gap, ghost kind: Kind, ghost front: Front)
      returns (ok: bool, ghost back: Option<Back>)
      requires sequenceHeader.Some? && sequenceHeader.value.Valid() && RefsOk(front.start.slots) && SizeOk(front.size)
      requires Named(front.Idx())
      requires r.pos <= r.end == 8 * |r.data| && InBounds(gap) && r.pos == front.next && current.tiles.Valid()
      requires ref == front.start.slots && orderHint == front.start.orderHint && FrameSizes() == front.size
      requires Named(current.refFrameIdx) && kind == current.KindTo(kind.next)
      requires !kind.Intra() ==> current.refFrameIdx == front.Idx()
      modifies this`tileCols, this`tileRows, current`referenceSelect, current`skipModePresent, r`pos
      modifies current.tiles, current.tiles.startCol, current.tiles.startRow, current.tiles.widthMinus1,
               current.tiles.heightMinus1
      ensures ok ==> old(r.pos) < r.pos <= r.end
      ensures (tileCols == old(tileCols) && tileRows == old(tileRows))
              || GridFor(FrameSizes(), sequenceHeader.value.use128, tileCols, tileRows)
      ensures ok ==> GridFor(FrameSizes(), sequenceHeader.value.use128, tileCols, tileRows)
      ensures back == BackAt(r.data, r.end, gap, sequenceHeader.value, kind, front) && (ok <==> back.Some?)
      ensures ok ==> current.HoldsBack(back.value) && r.pos == back.value.next
      ensures ok ==> tileCols == |back.value.tiles.tiling.widths| && tileRows == |back.value.tiles.tiling.heights|
    {
      hide GridFor, GridOf, Fits, TileInfoAt, SkipAllowed, TileLayout.Describes, TileLayout.HoldsAll, BitAt, RefsOk,
           SizeOk;
      RefsCount(ref);
      back := BackAt(r.data, r.end, gap, sequenceHeader.value, kind, front);
      ok := SkipFields(r, gap, 12);
      if !ok {
        return;
      }
      ok := ReadTiles(r, current);
      if !ok {
        return;
      }
      ok := SkipFields(r, gap, 13);
      if !ok {
        return;
      }
      ok := ReadSkipMode(r, current);
      if !ok {
        return;
      }
      ok := SkipFields(r, gap, 14);
    }

    /** uncompressed_header() behind its first fields. */
    method ReadHeader(r: BitReader, current: FrameHeader, gap: Gap) returns (ok: bool, ghost header: Option<Header>)
      requires sequenceHeader.Some? && sequenceHeader.value.Valid() && RefsOk(ref) && Named(current.refFrameIdx)
      requires r.pos <= r.end == 8 * |r.data| && InBounds(gap) && current.tiles.Valid() && !current.showExistingFrame
      modifies this`ref, this`orderHint, this`upscaledWidth, this`frameWidth, this`frameHeight, this`renderWidth,
               this`renderHeight,
               this`tileCols, this`tileRows, current, r`pos
      modifies current.tiles, current.tiles.startCol, current.tiles.startRow, current.tiles.widthMinus1,
               current.tiles.heightMinus1
      ensures Weakened(old(ref), ref)
      ensures (tileCols == old(tileCols) && tileRows == old(tileRows))
              || GridFor(FrameSizes(), sequenceHeader.value.use128, tileCols, tileRows)
      ensures ok ==> old(r.pos) < r.pos <= r.end
      ensures ok ==> GridFor(FrameSizes(), sequenceHeader.value.use128, tileCols, tileRows)
      ensures header == HeaderAt(r.data, r.end, gap, sequenceHeader.value, old(current.KindTo(r.pos)), old(ref))
      ensures (ok <==> header.Some?)
      ensures ok ==> current.Holds(header.value) && HeaderRead(header.value) && r.pos == header.value.back.next
      ensures !current.showExistingFrame
    {
      hide SizeOk, RefsOk, Weakened, GridFor, FrontAt, BackAt, FrameHeader.HoldsStart, FrameHeader.Announces,
           FrameHeader.HoldsBack, Named, TileLayout.Valid;
      ghost var kind := current.KindTo(r.pos);
      header := HeaderAt(r.data, r.end, gap, sequenceHeader.value, kind, ref);
      ghost var front, back;
      ok, front := ReadFront(r, current, gap);
      if !ok {
        return;
      }
      FrontNames(r.data, r.end, gap, sequenceHeader.value, kind, old(ref));
      ok, back := ReadBack(r, current, gap, kind, front.value);
    }

    /** The parser has read this header, and has not yet stored its frame. */
    ghost predicate HeaderRead(h: Header)
      reads this
    {
      && ref == h.front.start.slots && orderHint == h.front.start.orderHint && FrameSizes() == h.front.size
      && tileCols == |h.back.tiles.tiling.widths| && tileRows == |h.back.tiles.tiling.heights|
    }

    /** uncompressed_header() without show_existing_frame. */
    method ReadFullHeader(r: BitReader, current: FrameHeader, gap: Gap) returns (ok: bool, ghost header: Option<Header>)
      requires sequenceHeader.Some? && Invariant(View()) && !seenFrameHeader && Named(current.refFrameIdx)
      requires current.tiles.Valid()
      requires r.pos <= r.end == 8 * |r.data| && InBounds(gap) && !current.showExistingFrame
      modifies this, current, r`pos
      modifies current.tiles, current.tiles.startCol, current.tiles.startRow, current.tiles.widthMinus1,
               current.tiles.heightMinus1
      ensures !ok ==> Parsing(old(View()), View())
      ensures ok ==> old(r.pos) < r.pos <= r.end
      ensures header == HeaderAt(r.data, r.end, gap, old(sequenceHeader.value), old(current.KindTo(r.pos)), old(ref))
      ensures (ok <==> header.Some?)
      ensures ok ==> current.Holds(header.value) && r.pos == header.value.back.next
      ensures !current.showExistingFrame
      ensures ok ==> View() == WithHeader(old(View()), header.value)
      ensures ok ==> Parsed(old(View()), View(), header.value.front.start.flags)
    {
      hide SizeOk, RefsOk, FrameOk, Refreshed, GridFor, HeaderAt, FrameHeader.HoldsNames, FrameHeader.Announces,
           FrameHeader.HoldsBack,
           Named, TileLayout.Valid;
      ghost var s0 := View();
      RefsCount(ref);
      ok, header := ReadHeader(r, current, gap);
      if !ok {
        return;
      }
      ghost var slots := ref;
      StillOk(s0.refs, ref);
      UpdateRefs(current);
      UpdateRefreshes(s0.refs, slots, header.value.Frame(), current.refreshFrameFlags, ref);
    }

    /**
     * uncompressed_header(): all of it, or the short form that shows a stored frame again. It succeeds exactly
     * when the bits can be parsed, and then the header, the position and the state are those they say.
     */
    method UncompressedHeader(r: BitReader, current: FrameHeader, gap: Gap)
      returns (ok: bool, ghost opening: Option<Opening>)
      requires Invariant(View()) && !seenFrameHeader && Named(current.refFrameIdx) && current.tiles.Valid()
      requires r.pos <= r.end == 8 * |r.data| && InBounds(gap) && !current.errorResilientMode
      modifies this, current, r`pos
      modifies current.tiles, current.tiles.startCol, current.tiles.startRow, current.tiles.widthMinus1,
               current.tiles.heightMinus1
      ensures opening == OpeningAt(r.data, old(r.pos), r.end, gap, old(View())) && (ok <==> opening.Some?)
      ensures !ok ==> Parsing(old(View()), View())
      ensures ok ==> old(r.pos) < r.pos <= r.end && r.pos == opening.value.Next()
      ensures ok ==> current.showExistingFrame == opening.value.Again?
      ensures ok && opening.value.Again? ==>
                current.frameToShowMapIdx == opening.value.slot < |old(ref)| &&
                View() == WithShown(old(View()), opening.value.slot)
                && ShownRefs(old(ref), ref, opening.value.slot) && Loaded(old(View()), View())
      ensures ok && opening.value.Full? ==>
                && current.Holds(opening.value.header) && View() == WithHeader(old(View()), opening.value.header)
                && Parsed(old(View()), View(), opening.value.header.front.start.flags)
    {
      hide SizeOk, FrameOk, Parsed, Parsing, BitAt, Field, GridFor, Refreshed, HeaderAt, AgainAt, KindAt, WithHeader,
           WithShown, ShownRefs, Weakened,
           FrameHeader.Holds, Named, TileLayout.Valid;
      opening := OpeningAt(r.data, r.pos, r.end, gap, View());
      if sequenceHeader.None? {
        ParsingNothing(View());
        return false, opening;
      }
      if sequenceHeader.value.reducedStill {
        current.showExistingFrame, current.frameType, current.showFrame := false, KEY_FRAME, true;
      } else {
        var showExisting := ReadFlag(r);
        if showExisting.Err? {
          ParsingNothing(View());
          return false, opening;
        }
        current.showExistingFrame := showExisting.value;
        if showExisting.value {
          ParsingNothing(View());
          ShownAgain(r.data, r.pos, r.end, gap, View());
          ok := ShowExisting(r, current, gap);
          return;
        }
        ok := ReadFrameType(r, current, gap);
        if !ok {
          ParsingNothing(View());
          return;
        }
      }
      ghost var header;
      ok, header := ReadFullHeader(r, current, gap);
    }

    // ----- Frame header OBUs

    /** The copy in a redundant frame header, compared with the stored header eight bits at a time. */
    method CompareHeader(r: BitReader) returns (ok: bool, ghost offered: bits)
      requires frameHeader.Some? && |frameHeader.value| == (frameHeaderSize + 7) / 8 && r.pos <= r.end
      modifies r`pos
      ensures offered == BitsOf(r.data, old(r.pos), Min(frameHeaderSize, r.end - old(r.pos)))
      ensures ok <==> offered == BitsOf(frameHeader.value, 0, frameHeaderSize)
      ensures ok ==> r.pos == old(r.pos) + frameHeaderSize <= r.end
    {
      hide BitAt;
      var fh := new BitReader(frameHeader.value);
      fh.end := frameHeaderSize;
      ghost var p := r.pos;
      offered := BitsOf(r.data, p, Min(frameHeaderSize, r.end - p));
      var i := 0;
      while i < frameHeaderSize
        invariant 0 <= i <= frameHeaderSize && fh.pos == i && fh.data == frameHeader.value && r.pos == p + i <= r.end
        invariant BitsOf(r.data, p, i) == BitsOf(frameHeader.value, 0, i)
      {
        var b := Min(frameHeaderSize - i, 8);
        var val := fh.GetBits(b);
        var same := ReadFixed(r, b, val);
        ComparedBits(r.data, p, frameHeader.value, i, b, frameHeaderSize);
        if !same {
          return false, offered;
        }
        i := i + b;
      }
      return true, offered;
    }

    /** frameHeaderOBU takes the step that its bits name, and is accepted exactly when that step says so. */
    method FrameHeaderOBU(r: BitReader, current: FrameHeader, redundant: bool, gap: Gap)
      returns (ok: bool, ghost event: Event)
      requires Invariant(View()) && Named(current.refFrameIdx) && current.tiles.Valid() && !current.errorResilientMode
      requires r.pos <= r.end == 8 * |r.data| && r.pos % 8 == 0 && InBounds(gap)
      modifies this, current, r`pos
      modifies current.tiles, current.tiles.startCol, current.tiles.startRow, current.tiles.widthMinus1,
               current.tiles.heightMinus1
      ensures Step(old(View()), event, View())
      ensures event == HeaderEvent(r.data, old(r.pos), r.end, gap, old(View()), redundant)
      ensures ok <==> HeaderPasses(event)
      ensures ok ==> r.pos == old(r.pos) + HeaderBits(event) && old(r.pos) < r.pos <= r.end
      ensures ok && !old(seenFrameHeader) ==>
                && OpeningAt(r.data, old(r.pos), r.end, gap, old(View())).Some?
                && View() == AfterOpening(old(View()), OpeningAt(r.data, old(r.pos), r.end, gap, old(View())).value,
                                          View())
    {
      hide SizeOk, RefsOk, ShownRefs, Refreshed, Weakened, OpeningAt, AfterOpening, Named, TileLayout.Valid;
      if seenFrameHeader {
        if !redundant {
          return false, Idle;
        }
        if frameHeader.None? {
          assert false;
        }
        ghost var offered;
        ok, offered := CompareHeader(r);
        return ok, Redundant(offered, ok);
      }
      ok, event := NewHeader(r, current, redundant, gap);
    }

    /** The branch of frameHeaderOBU that parses a header. */
    method NewHeader(r: BitReader, current: FrameHeader, ghost redundant: bool, gap: Gap)
      returns (ok: bool, ghost event: Event)
      requires Invariant(View()) && !seenFrameHeader && Named(current.refFrameIdx) && current.tiles.Valid()
      requires !current.errorResilientMode
      requires r.pos <= r.end == 8 * |r.data| && r.pos % 8 == 0 && InBounds(gap)
      modifies this, current, r`pos
      modifies current.tiles, current.tiles.startCol, current.tiles.startRow, current.tiles.widthMinus1,
               current.tiles.heightMinus1
      ensures Step(old(View()), event, View())
      ensures event == HeaderEvent(r.data, old(r.pos), r.end, gap, old(View()), redundant)
      ensures ok <==> HeaderPasses(event)
      ensures ok ==> r.pos == old(r.pos) + HeaderBits(event) && old(r.pos) < r.pos <= r.end
      ensures ok ==>
                && OpeningAt(r.data, old(r.pos), r.end, gap, old(View())).Some?
                && View() == AfterOpening(old(View()), OpeningAt(r.data, old(r.pos), r.end, gap, old(View())).value,
                                          View())
    {
      hide RefsOk, FrameOk, ShownRefs, Parsing, Parsed, Invariant, Step, BitsOf, OpeningAt, WithHeader, WithShown,
           FrameHeader.Holds, Named,
           TileLayout.Valid;
      var startPos := r.pos;
      ghost var opening;
      ok, opening := UncompressedHeader(r, current, gap);
      if !ok {
        FailedStep(old(View()), View());
        return false, HeaderFailed;
      }
      ghost var parsed := View();
      ghost var header := BitsOf(r.data, startPos, r.pos - startPos);
      tileNum := 0;
      if current.showExistingFrame {
        seenFrameHeader := false;
        ShownStep(old(View()), parsed, header, current.frameToShowMapIdx, View());
        return true, ShownExisting(header, current.frameToShowMapIdx);
      }
      KeepHeader(r, startPos);
      OpenedStep(old(View()), parsed, header, opening.value.header.front.start.flags, View());
      return true, Opened(header, opening.value.header.front.start.flags);
    }

    /** Keeps the bits from startPos to the position of the reader as the header of the open frame. */
    method KeepHeader(r: BitReader, startPos: nat)
      requires startPos % 8 == 0 && startPos <= r.pos <= r.end == 8 * |r.data|
      modifies this`seenFrameHeader, this`frameHeaderSize, this`frameHeader
      ensures seenFrameHeader && frameHeaderSize == r.pos - startPos && frameHeader.Some?
      ensures |frameHeader.value| == (frameHeaderSize + 7) / 8
      ensures BitsOf(frameHeader.value, 0, frameHeaderSize) == BitsOf(r.data, startPos, frameHeaderSize)
    {
      seenFrameHeader := true;
      var fhBits := r.pos - startPos;
      var fhBytes := (fhBits + 7) / 8;
      frameHeaderSize := fhBits;
      StoredBytes(|r.data|, startPos, r.pos);
      frameHeader := Some(r.data[startPos / 8..startPos / 8 + fhBytes]);
      SliceBits(r.data, startPos / 8, fhBytes, fhBits);
    }

    // ----- Tile groups

    /** byteAlignmentOBU: zero bits up to the next byte. */
    method ByteAlignment(r: BitReader) returns (ok: bool)
      requires r.pos <= r.end == 8 * |r.data|
      modifies r`pos
      ensures ok <==> AlignsAt(r.data, old(r.pos), r.end)
      ensures ok ==> r.pos == Aligned(old(r.pos)) <= r.end
    {
      hide Field, BitAt, Aligned;
      ghost var p, up := r.pos, Aligned(r.pos);
      while r.pos % 8 != 0
        invariant p <= r.pos <= r.end && r.pos <= up
        invariant forall k :: p <= k < r.pos ==> !BitAt(r.data, k)
        decreases r.end - r.pos
      {
        OneBitField(r.data, r.pos);
        ok := ReadFixed(r, 1, 0);
        if !ok {
          return;
        }
      }
      OneBoundary(p, r.pos);
      return true;
    }

    /**
     * The bounds of a tile group. Explicit ones continue after the last tile counted; it fails exactly when
     * the bits end first or the bounds coded do not.
     */
    method ReadTileBounds(r: BitReader) returns (ok: bool, explicit: bool, start: nat, end: nat)
      requires tileCols <= MAX_TILES && tileRows <= MAX_TILES && r.pos <= r.end && tileNum < TWO_TO_THE_32
      modifies r`pos
      ensures ok ==> old(r.pos) <= r.pos <= r.end
      ensures var bounds := BoundsAt(r.data, old(r.pos), r.end, View());
              if ok then bounds == Some(Bounds(explicit, start, end, r.pos)) else bounds.None?
    {
      hide Field, BitAt, CodedBounds, GroupAccepted, Av1Header.TileIndexBits;
      var numTiles := tileCols * tileRows;
      explicit, start := false, 0;
      if numTiles > 1 {
        var flag := ReadFlag(r);
        if flag.Err? {
          return false, explicit, start, 0;
        }
        explicit := flag.value;
      }
      if !explicit {
        return true, false, 0, Wrap16(numTiles - 1);
      }
      var bounds := ReadExplicitBounds(r, numTiles);
      if bounds.None? {
        return false, explicit, start, 0;
      }
      return true, true, bounds.value.0, bounds.value.1;
    }

    /** The first and last tile of a group that codes them. */
    method ReadExplicitBounds(r: BitReader, numTiles: nat) returns (bounds: Option<(nat, nat)>)
      requires tileCols <= MAX_TILES && tileRows <= MAX_TILES && r.pos <= r.end && tileNum < TWO_TO_THE_32
      requires numTiles == View().NumTiles() > 1
      modifies r`pos
      ensures bounds == CodedBounds(r.data, old(r.pos), r.end, TileIndexBits(View()), View())
      ensures bounds.Some? ==> r.pos == old(r.pos) + 2 * TileIndexBits(View()) <= r.end
    {
      hide Field;
      GridProduct(tileCols, tileRows);
      TileBits(tileCols);
      TileBits(tileRows);
      var tileBits := TileLog2(1, tileCols) + TileLog2(1, tileRows);
      var first := ReadRange(r, tileBits, tileNum, numTiles - 1);
      if first.Err? {
        return None;
      }
      var last := ReadRange(r, tileBits, first.value, numTiles - 1);
      if last.Err? {
        return None;
      }
      return Some((first.value, last.value));
    }

    /** tileGroupOBU takes the step that its bits name. The count of tiles is kept even when the alignment fails. */
    method TileGroupOBU(r: BitReader) returns (ok: bool, ghost event: Event)
      requires Invariant(View()) && r.pos <= r.end == 8 * |r.data|
      modifies this`tileNum, this`seenFrameHeader, r`pos
      ensures Step(old(View()), event, View())
      ensures event == TileEvent(r.data, old(r.pos), r.end, old(View()))
      ensures var next := TileEnd(r.data, old(r.pos), r.end, old(View()));
              if ok then next == Some(r.pos) else next.None?
      ensures ok ==> old(r.pos) <= r.pos <= r.end && r.pos % 8 == 0
    {
      hide RefsOk, FrameOk, AlignsAt, Aligned, BoundsAt;
      var explicit, start, end;
      ok, explicit, start, end := ReadTileBounds(r);
      if !ok {
        return false, Idle;
      }
      GridProduct(tileCols, tileRows);
      tileNum := end + 1;
      ok := ByteAlignment(r);
      if !ok {
        return false, Tiles(explicit, start, end, false);
      }
      if end == tileCols * tileRows - 1 {
        seenFrameHeader := false;
      }
      return true, Tiles(explicit, start, end, true);
    }

    // ----- Temporal delimiters and flushes

    method TemporalDelimiterOBU()
      modifies this`seenFrameHeader
      ensures Step(old(View()), Delimiter, View())
    {
      seenFrameHeader := false;
    }

    method FlushContext()
      modifies this`sequenceHeader, this`frameHeader, this`frameHeaderSize, this`ref, this`operatingPointIDC,
               this`seenFrameHeader, this`tileNum
      ensures Step(old(View()), Flush, View())
    {
      hide Step, NoRefs;
      sequenceHeader, frameHeader, frameHeaderSize, ref := None, None, 0, NoRefs();
      operatingPointIDC, seenFrameHeader, tileNum := 0, false, 0;
      FlushStep(old(View()), View());
    }
  }

  lemma RefsCount(refs: seq<RefState>)
    requires RefsOk(refs)
    ensures |refs| == NUM_REF_FRAMES
  {
  }

  /** The named slots are filled after some others were taken away. */
  lemma UpdateRefreshes(refs: seq<RefState>, mid: seq<RefState>, frame: RefState, flags: uint8, after: seq<RefState>)
    requires |refs| == NUM_REF_FRAMES && Weakened(refs, mid) && frame.valid
    requires after == UpdatedRefs(mid, flags, frame, NUM_REF_FRAMES)
    ensures Refreshed(refs, after, flags, frame.size, frame.orderHint)
  {
    hide Refreshes;
  }

  method ReadRange(r: BitReader, width: nat, lo: uint32, hi: uint32) returns (res: Result<nat>)
    requires width <= 32 && r.pos <= r.end
    modifies r`pos
    ensures res.Ok? <==> old(r.pos) + width <= r.end && lo <= Field(r.data, old(r.pos), width) <= hi
    ensures res.Ok? ==> res.value == Field(r.data, old(r.pos), width) && r.pos == old(r.pos) + width
  {
    hide BitsOf, Value;
    var v := ReadUnsigned(r, width, lo, hi);
    if v.Err? {
      return Err;
    }
    return Ok(v.value);
  }

  lemma TileBits(n: nat)
    requires n <= 64
    ensures TileLog2(1, n) <= 6
  {
    SixtyFour(6);
    TileLog2AtMost(1, n, 6);
  }

  lemma StoredBytes(n: nat, p: nat, q: nat)
    requires p % 8 == 0 && p <= q <= 8 * n
    ensures 8 * (p / 8) == p && p / 8 + (q - p + 7) / 8 <= n && q - p <= 8 * ((q - p + 7) / 8)
  {
  }

  /** Comparing b more bits decides whether the first i + b bits agree, or that all the bits cannot. */
  lemma ComparedBits(data: seq<byte>, p: nat, stored: seq<byte>, i: nat, b: nat, size: nat)
    requires i + b <= size && BitsOf(data, p, i) == BitsOf(stored, 0, i)
    ensures BitsOf(data, p, i + b) == BitsOf(stored, 0, i + b) <==> Field(data, p + i, b) == Value(BitsOf(stored, i, b))
    ensures BitsOf(data, p, i + b) != BitsOf(stored, 0, i + b) ==> BitsOf(data, p, size) != BitsOf(stored, 0, size)
  {
    hide BitAt, Value;
    BitsOfSplit(data, p, i, b);
    BitsOfSplit(stored, 0, i, b);
    BitsOfSplit(data, p, i + b, size - i - b);
    BitsOfSplit(stored, 0, i + b, size - i - b);
    var x, y := BitsOf(data, p + i, b), BitsOf(stored, i, b);
    if Value(x) == Value(y) {
      EqualValues(x, y);
    }
    assert BitsOf(data, p, i + b)[i..] == x && BitsOf(stored, 0, i + b)[i..] == y;
    assert BitsOf(data, p, size)[..i + b] == BitsOf(data, p, i + b);
    assert BitsOf(stored, 0, size)[..i + b] == BitsOf(stored, 0, i + b);
  }

  lemma PartlyChecked(data: seq<byte>, p: nat, refs: seq<RefState>, coding: HintCoding, check: bool,
                      now: seq<RefState>, i: nat)
    requires i <= |refs| == |now| && var after := HintsChecked(data, p, refs, coding, check);
                                     forall k :: 0 <= k < |refs| ==> now[k] == if k < i then after[k] else refs[k]
    ensures Weakened(refs, now)
    ensures i == |refs| ==> now == HintsChecked(data, p, refs, coding, check)
  {
    hide HintAt;
  }

  lemma FoundNext(data: seq<byte>, p: nat, n: nat)
    requires n > 0
    ensures FirstFound(data, p, n) == if BitAt(data, p) then 0 else 1 + FirstFound(data, p + 1, n - 1)
  {
  }

  lemma NamedAt(idx: seq<int>, i: nat)
    requires Named(idx) && i < REFS_PER_FRAME
    ensures |idx| == REFS_PER_FRAME && 0 <= idx[i] < NUM_REF_FRAMES
  {
  }

  lemma NamedStill(idx: seq<int>, i: nat, k: nat)
    requires Named(idx) && i < REFS_PER_FRAME && k < NUM_REF_FRAMES
    ensures |idx| == REFS_PER_FRAME && Named(idx[i := k]) && idx[i := k][..i + 1] == idx[..i] + [k as int]
  {
  }

  /** One more reference of the loop, coded or derived. */
  lemma NextName(data: seq<byte>, p: nat, end: int, gap: Gap, acc: seq<int>)
    requires |acc| < REFS_PER_FRAME && forall i :: 0 <= i < |acc| ==> 0 <= acc[i] < NUM_REF_FRAMES
    ensures Field(data, p, 3) < NUM_REF_FRAMES
    ensures NamesAt(data, p, end, gap, acc) ==
              if p + 3 > end then None
              else var q := gap(5 + |acc|, data, p + 3);
                   if q.None? then None else NamesAt(data, q.value, end, gap, acc + [Field(data, p, 3)])
  {
    hide Field;
    SlotField(data, p);
  }

  lemma NextGap(data: seq<byte>, p: nat, gap: Gap, i: nat)
    requires i < REFS_PER_FRAME
    ensures var q := gap(5 + i, data, p);
            GapsAt(data, p, gap, i) == if q.None? then None else GapsAt(data, q.value, gap, i + 1)
  {
  }

  lemma LastName(data: seq<byte>, p: nat, end: int, gap: Gap, idx: seq<int>)
    requires Named(idx)
    ensures |idx| == REFS_PER_FRAME && NamesAt(data, p, end, gap, idx[..REFS_PER_FRAME]) == Some((idx, p))
    ensures GapsAt(data, p, gap, REFS_PER_FRAME) == Some(p)
  {
    assert idx[..REFS_PER_FRAME] == idx;
  }

  lemma NextHint(data: seq<byte>, p: nat, i: nat, coding: HintCoding)
    ensures HintPlace(p, 0, coding) == p
    ensures HintPlace(p, i + 1, coding) == HintPlace(p, i, coding) + coding.bitsMinus1 + 1
    ensures HintAt(data, p, i, coding) == Field(data, HintPlace(p, i, coding), coding.bitsMinus1 + 1)
    ensures i <= NUM_REF_FRAMES ==> HintPlace(p, i, coding) <= HintPlace(p, NUM_REF_FRAMES, coding)
  {
    hide Field;
    if i <= NUM_REF_FRAMES {
      MulLe(i, NUM_REF_FRAMES, coding.bitsMinus1 + 1);
    }
  }

  lemma SlotOk(refs: seq<RefState>, k: int)
    requires RefsOk(refs) && 0 <= k < |refs|
    ensures refs[k].valid ==> SizeOk(refs[k].size)
  {
  }

  /** What a kind says to the fields behind it does not depend on where they start. */
  lemma SameKind(data: seq<byte>, end: int, sq: Sequence, a: Kind, b: Kind)
    requires a == b.(next := a.next)
    ensures forall p: nat :: OverrideAt(data, p, end, sq, a) == OverrideAt(data, p, end, sq, b)
    ensures forall p: nat, refs :: RefreshAt(data, p, end, sq, a, refs) == RefreshAt(data, p, end, sq, b, refs)
    ensures a.StartsOver() == b.StartsOver()
  {
  }

  /** Inter frames name references, and no others do. */
  lemma FrontNames(data: seq<byte>, end: int, gap: Gap, sq: Sequence, kind: Kind, refs: seq<RefState>)
    requires RefsOk(refs)
    ensures var front := FrontAt(data, end, gap, sq, kind, refs);
            front.Some? ==> front.value.names.Some? == !kind.Intra()
  {
    hide StartAt, RefsAt, SizeAt, SizeByRefsAt;
  }

  lemma ParsingNothing(s: State)
    ensures Parsing(s, s)
  {
  }

  lemma OneBoundary(p: nat, q: nat)
    requires p <= q <= Aligned(p) && q % 8 == 0
    ensures q == Aligned(p)
  {
  }

  lemma ShownAgain(data: seq<byte>, p: nat, end: int, gap: Gap, s: State)
    requires |s.refs| == NUM_REF_FRAMES
    ensures var again := AgainAt(data, p, end, gap, s.refs);
            again.Some? ==> again.value.Again? && again.value.slot < NUM_REF_FRAMES &&
                            ShownRefs(s.refs, WithShown(s, again.value.slot).refs, again.value.slot)
                            && Loaded(s, WithShown(s, again.value.slot))
  {
    SlotField(data, p);
  }

  lemma SameFrame(slot: RefState)
    requires slot.valid
    ensures RefState(true, slot.frameID, slot.size, slot.frameType, slot.orderHint) == slot
  {
  }

  lemma ShownIs(s: State, k: nat, t: State)
    requires k < |s.refs| && t == s.(size := t.size, orderHint := t.orderHint, refs := t.refs)
    requires if s.refs[k].frameType == KEY_FRAME
             then t.size == s.refs[k].size && t.orderHint == s.refs[k].orderHint && t.refs == Everywhere(s.refs[k])
             else t.size == s.size && t.orderHint == s.orderHint && t.refs == s.refs
    ensures t == WithShown(s, k)
  {
  }

  lemma ShownUpdate(refs: seq<RefState>, frame: RefState, flags: uint8)
    requires |refs| == NUM_REF_FRAMES
    ensures flags == 0 ==> UpdatedRefs(refs, flags, frame, NUM_REF_FRAMES) == refs
    ensures flags == ALL_FRAMES ==> UpdatedRefs(refs, flags, frame, NUM_REF_FRAMES) == Everywhere(frame)
  {
    hide Refreshes;
    if flags == 0 {
      NoneRefreshed(refs, frame, NUM_REF_FRAMES);
    } else if flags == ALL_FRAMES {
      forall i | 0 <= i < NUM_REF_FRAMES
        ensures Refreshes(ALL_FRAMES, i)
      {
        AllRefreshed(i);
      }
    }
  }

  lemma AllRefreshed(i: nat)
    requires i < NUM_REF_FRAMES
    ensures Refreshes(ALL_FRAMES, i)
  {
    assert Shr(255, 0) == 255;
    assert Shr(255, 1) == Shr(127, 0) && Shr(255, 2) == Shr(127, 1) == Shr(63, 0);
    assert Shr(255, 3) == Shr(127, 2) == Shr(63, 1) == Shr(31, 0);
    assert Shr(255, 4) == Shr(127, 3) == Shr(63, 2) == Shr(31, 1) == Shr(15, 0);
    assert Shr(255, 5) == Shr(127, 4) == Shr(63, 3) == Shr(31, 2) == Shr(15, 1) == Shr(7, 0);
    assert Shr(255, 6) == Shr(127, 5) == Shr(63, 4) == Shr(31, 3) == Shr(15, 2) == Shr(7, 1) == Shr(3, 0);
    assert Shr(255, 7) == Shr(127, 6) == Shr(63, 5) == Shr(31, 4) == Shr(15, 3) == Shr(7, 2) == Shr(3, 1) == Shr(1, 0);
  }

  lemma {:induction false} NoneRefreshed(refs: seq<RefState>, frame: RefState, n: nat)
    requires n <= |refs|
    ensures UpdatedRefs(refs, 0, frame, n) == refs
  {
    if n > 0 {
      NoneRefreshed(refs, frame, n - 1);
      ZeroShifted(n - 1);
    }
  }

  lemma {:induction false} ZeroShifted(n: nat)
    ensures Shr(0, n) == 0
  {
    if n > 0 {
      ZeroShifted(n - 1);
    }
  }
}
