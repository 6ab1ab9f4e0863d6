/**
 * What a frame header says: the modelled fields of uncompressed_header() (cbs/av1_syntax.go) as functions of
 * the bits, of the slots before it, and of a gap function for the runs of fields that change nothing in this
 * model. Each function yields None exactly when the header cannot be parsed that far.
 */
module Av1Header {
  import opened Common
  import opened Powers
  import opened Bits
  import opened Fields
  import opened OrderHints
  import opened FrameRefs
  import opened SkipMode
  import opened TileInfo
  import opened Av1State

  // Frame types.
  const INTRA_ONLY_FRAME := 2
  const SWITCH_FRAME := 3

  const ALL_FRAMES := 255
  const SUPERRES_NUM := 8
  const SUPERRES_DENOM_MIN := 9

  /** Where the k-th run of fields that are not modelled ends, if it can be read. */
  type Gap = (nat, seq<byte>, nat) -> Option<nat>

  ghost predicate InBounds(gap: Gap) {
    forall k: nat, data: seq<byte>,
         p: nat :: p <= 8 * |data| && gap(k, data, p).Some? ==> p <= gap(k, data, p).value <= 8 * |data|
  }

  // ----- Superres

  /** The width after superres: upscaled * 8 / denom, rounded. */
  function SuperresWidth(upscaled: nat, denom: nat): nat
    requires denom > 0
  {
    (upscaled * SUPERRES_NUM + denom / 2) / denom
  }

  /** No denominator from 8 to 16 widens a frame or makes it vanish; without superres nothing changes. */
  lemma SuperresBounds(upscaled: nat, denom: nat)
    requires upscaled > 0 && 8 <= denom <= 16
    ensures 1 <= SuperresWidth(upscaled, denom) <= upscaled
    ensures denom == 8 ==> SuperresWidth(upscaled, denom) == upscaled
  {
    var x := upscaled * 8 + denom / 2;
    var w: int := x / denom;
    assert x == denom * w + x % denom;
    MulLe(8, denom, upscaled);
    assert denom * upscaled == upscaled * denom;
    assert (upscaled + 1) * denom == upscaled * denom + denom;
    assert denom * w == w * denom;
    MulCancel(w, upscaled + 1, denom);
    MulCancel(0, w + 1, denom);
    assert x >= denom;
    assert w <= 0 ==> denom * w <= 0;
  }

  /** The width is rounded to the nearest number, a half upwards. */
  lemma SuperresRounds(upscaled: nat, denom: nat)
    requires denom > 0
    ensures var error: int := denom * SuperresWidth(upscaled, denom) - 8 * upscaled;
            0 < denom + 2 * error <= 2 * denom
  {
    var x := upscaled * 8 + denom / 2;
    var w: int := x / denom;
    assert x == denom * w + x % denom;
  }

  // ----- The kind of frame

  /** frame_type, show_frame and error_resilient_mode, and where the fields behind them start. */
  datatype Kind = Kind(frameType: nat, showFrame: bool, resilient: bool, next: nat) {
    predicate Intra() {
      frameType == INTRA_ONLY_FRAME || frameType == KEY_FRAME
    }

    /** Every slot is refreshed. */
    predicate Restarts() {
      frameType == SWITCH_FRAME || StartsOver()
    }

    /** A shown key frame. */
    predicate StartsOver() {
      frameType == KEY_FRAME && showFrame
    }
  }

  /** A switch frame and a shown key frame are error resilient; a frame that is not shown has showable_frame. */
  ghost function KindAt(data: seq<byte>, p: nat, end: int, gap: Gap): Option<Kind> {
    if p + 3 > end then None
    else
      match gap(1, data, p + 3)
      case None => None
      case Some(g) =>
        var kind := Kind(Field(data, p, 2), BitAt(data, p + 2), false, if BitAt(data, p + 2) then g else g + 1);
        if kind.next > end then None
        else if kind.Restarts() then Some(kind.(resilient := true))
        else if kind.next + 1 > end then None
        else Some(kind.(resilient := BitAt(data, kind.next), next := kind.next + 1))
  }

  // ----- The slots

  /** The slots after a frame is stored in those its flags name. */
  function UpdatedRefs(refs: seq<RefState>, flags: uint8, frame: RefState, n: nat): (after: seq<RefState>)
    requires n <= |refs|
    ensures |after| == |refs|
    ensures forall i :: 0 <= i < |refs| ==> after[i] == if i < n && Refreshes(flags, i) then frame else refs[i]
  {
    if n == 0 then refs
    else
      var before := UpdatedRefs(refs, flags, frame, n - 1);
      if Refreshes(flags, n - 1) then before[n - 1 := frame] else before
  }

  /** Whether frame id numbering makes a slot unusable (section 7.20 of AV1). */
  function IdTooOld(frameID: nat, current: nat, idLen: nat, diffLen: nat): bool {
    if current > Pow2(diffLen) then frameID > current || frameID < current - Pow2(diffLen)
    else frameID > current && frameID < Pow2(idLen) + current - Pow2(diffLen)
  }

  /** The slot, no longer valid if its id is too far away. */
  function DropOld(slot: RefState, current: nat, ids: (nat, nat)): RefState {
    if IdTooOld(slot.frameID, current, ids.0, ids.1) then slot.(valid := false) else slot
  }

  /** The slots when a shown key frame starts over. */
  function Forgotten(refs: seq<RefState>, restart: bool): (after: seq<RefState>)
    ensures |after| == |refs|
    ensures forall i :: 0 <= i < |refs| ==> after[i] == if restart then refs[i].(valid := false, orderHint := 0)
                                                        else refs[i]
  {
    if restart then seq(|refs|, i requires 0 <= i < |refs| => refs[i].(valid := false, orderHint := 0)) else refs
  }

  /** The slots after frame id numbering, if there is any. */
  function Identified(refs: seq<RefState>, current: nat, ids: Option<(nat, nat)>): (after: seq<RefState>)
    ensures |after| == |refs|
    ensures forall i :: 0 <= i < |refs| ==> after[i] == if ids.Some? then DropOld(refs[i], current, ids.value)
                                                        else refs[i]
  {
    if ids.Some? then seq(|refs|, i requires 0 <= i < |refs| => DropOld(refs[i], current, ids.value)) else refs
  }

  /**
   * Ids are compared on a circle: one is too old when it lies further behind the current one than 2^diffLen, going
   * round past zero if need be.
   */
  lemma IdDistance(id: nat, current: nat, idLen: nat, diffLen: nat)
    requires diffLen < idLen && id < Pow2(idLen) && current < Pow2(idLen)
    ensures IdTooOld(id, current, idLen, diffLen) <==> (current - id) % Pow2(idLen) > Pow2(diffLen)
  {
    hide Shl;
    Pow2Monotone(diffLen, idLen);
    var n := Pow2(idLen);
    if current >= id {
      MultipleMod(n, 0, current - id);
    } else {
      MultipleMod(n, -1, current - id + n);
    }
  }

  /** A slot stays valid under frame id numbering exactly when its id is close enough behind the current one. */
  lemma StaysIdentified(refs: seq<RefState>, current: nat, idLen: nat, diffLen: nat, i: nat)
    requires i < |refs| && diffLen < idLen && refs[i].frameID < Pow2(idLen) && current < Pow2(idLen)
    ensures var after := Identified(refs, current, Some((idLen, diffLen)))[i];
            && (after.valid <==> refs[i].valid && (current - refs[i].frameID) % Pow2(idLen) <= Pow2(diffLen))
            && after.(valid := refs[i].valid) == refs[i]
  {
    hide IdTooOld, Pow2;
    IdDistance(refs[i].frameID, current, idLen, diffLen);
  }

  /** A slot after its order hint was compared with a coded one. */
  function Checked(slot: RefState, coded: nat): RefState {
    if coded != slot.orderHint then slot.(valid := false) else slot
  }

  /** The slots after their order hints were compared with those coded from p on, if they are. */
  ghost function HintsChecked(data: seq<byte>, p: nat, refs: seq<RefState>, coding: HintCoding, check: bool)
    : (after: seq<RefState>)
    ensures |after| == |refs|
    ensures forall i :: 0 <= i < |refs| ==> after[i] == if check then Checked(refs[i], HintAt(data, p, i, coding))
                                                        else refs[i]
  {
    if check then seq(|refs|, i requires 0 <= i < |refs| => Checked(refs[i], HintAt(data, p, i, coding))) else refs
  }

  /** The i-th of the order hints coded from p on. */
  ghost function HintAt(data: seq<byte>, p: nat, i: nat, coding: HintCoding): nat {
    Field(data, HintPlace(p, i, coding), coding.bitsMinus1 + 1)
  }

  function HintPlace(p: nat, i: nat, coding: HintCoding): nat {
    p + i * (coding.bitsMinus1 + 1)
  }

  /** The order hints of the slots are coded, and checked, in error resilient frames that do not refresh every slot. */
  predicate CheckHints(kind: Kind, flags: uint8, coding: HintCoding) {
    (!kind.Intra() || flags != ALL_FRAMES) && coding.enabled && kind.resilient
  }

  /** current_frame_id, behind disable_cdf_update and a gap, and where it ends; zero when ids are not coded. */
  ghost function IdAt(data: seq<byte>, p: nat, end: int, gap: Gap, ids: Option<(nat, nat)>): Option<(nat, nat)> {
    if p + 1 > end then None
    else
      match gap(2, data, p + 1)
      case None => None
      case Some(q) =>
        if ids.None? then Some((0, q))
        else if q + ids.value.0 > end then None
        else Some((Field(data, q, ids.value.0), q + ids.value.0))
  }

  /** frame_size_override_flag and order_hint, and where they end. */
  ghost function OverrideAt(data: seq<byte>, p: nat, end: int, sq: Sequence, kind: Kind): Option<(bool, uint8, nat)> {
    var n := if kind.frameType == SWITCH_FRAME || sq.reducedStill then 0 else 1;
    var m := if sq.hints.enabled then sq.hints.bitsMinus1 + 1 else 0;
    if p + n + m > end then None
    else Some((kind.frameType == SWITCH_FRAME || (n == 1 && BitAt(data, p)),
               if sq.hints.enabled then Wrap8(Field(data, p + n, m)) else 0, p + n + m))
  }

  /** refresh_frame_flags, the slots after the check of their order hints, and where the fields end. */
  ghost function RefreshAt(data: seq<byte>, p: nat, end: int, sq: Sequence, kind: Kind, refs: seq<RefState>)
    : (r: Option<(uint8, seq<RefState>, nat)>)
    ensures r.Some? ==> |r.value.1| == |refs|
  {
    var q := if kind.Restarts() then p else p + 8;
    var flags: uint8 := if kind.Restarts() then ALL_FRAMES else Wrap8(Field(data, p, 8));
    var check := CheckHints(kind, flags, sq.hints);
    var next := if check then HintPlace(q, NUM_REF_FRAMES, sq.hints) else q;
    if next > end then None else Some((flags, HintsChecked(data, q, refs, sq.hints, check), next))
  }

  /** The fields before the references and sizes, and the slots as these fields leave them. */
  datatype Start = Start(id: nat, override: bool, orderHint: uint8, flags: uint8, slots: seq<RefState>, next: nat)

  ghost function StartAt(data: seq<byte>, end: int, gap: Gap, sq: Sequence, kind: Kind, refs: seq<RefState>)
    : (r: Option<Start>)
    ensures r.Some? ==> |r.value.slots| == |refs|
  {
    match IdAt(data, kind.next, end, gap, sq.ids)
    case None => None
    case Some((id, p)) =>
      match OverrideAt(data, p, end, sq, kind)
      case None => None
      case Some((override, hint, q)) =>
        match gap(3, data, q)
        case None => None
        case Some(g) =>
          match RefreshAt(data, g, end, sq, kind, Identified(Forgotten(refs, kind.StartsOver()), id, sq.ids))
          case None => None
          case Some((flags, slots, next)) => Some(Start(id, override, hint, flags, slots, next))
  }

  /** These fields only take references away. */
  lemma StartWeakens(data: seq<byte>, end: int, gap: Gap, sq: Sequence, kind: Kind, refs: seq<RefState>)
    ensures var start := StartAt(data, end, gap, sq, kind, refs);
            start.Some? ==> Weakened(refs, start.value.slots) && (RefsOk(refs) ==> RefsOk(start.value.slots))
  {
    hide IdAt, OverrideAt, IdTooOld, HintAt;
    var start := StartAt(data, end, gap, sq, kind, refs);
    if start.Some? {
      StillOk(refs, start.value.slots);
    }
  }

  lemma StillOk(refs: seq<RefState>, after: seq<RefState>)
    requires Weakened(refs, after)
    ensures |after| == |refs| && (RefsOk(refs) ==> RefsOk(after))
  {
  }

  // ----- The references

  /** idx names seven slots. */
  ghost predicate Named(idx: seq<int>) {
    |idx| == REFS_PER_FRAME && forall i :: 0 <= i < REFS_PER_FRAME ==> 0 <= idx[i] < NUM_REF_FRAMES
  }

  /** The order hints of the slots. */
  function SlotHints(refs: seq<RefState>): (hints: seq<uint8>)
    ensures |hints| == |refs|
  {
    seq(|refs|, i requires 0 <= i < |refs| => refs[i].orderHint)
  }

  /** idx are the references of section 7.8 for the slots and the order hint of the frame. */
  ghost predicate IsDerived(coding: HintCoding, slots: seq<RefState>, orderHint: uint8, last: nat, golden: nat,
                            idx: seq<int>)
    requires |slots| == NUM_REF_FRAMES
  {
    Named(idx) && Derived(ShiftedHints(coding, SlotHints(slots), orderHint), coding.Half(), last, golden, idx)
  }

  lemma DerivedUnique(coding: HintCoding, slots: seq<RefState>, orderHint: uint8, last: nat, golden: nat, a: seq<int>,
                      b: seq<int>)
    requires |slots| == NUM_REF_FRAMES
    requires IsDerived(coding, slots, orderHint, last, golden, a)
    requires IsDerived(coding, slots, orderHint, last, golden, b)
    ensures a == b
  {
    hide Section78;
    var hints, m := ShiftedHints(coding, SlotHints(slots), orderHint), coding.Half();
    var mid, before :| Section78(hints, m, last, golden, mid, before, a);
    var mid', before' :| Section78(hints, m, last, golden, mid', before', b);
    Section78Unique(hints, m, last, golden, mid, before, a, mid', before', b);
  }

  const NO_NAMES: seq<int> := [0, 0, 0, 0, 0, 0, 0]

  /** The references of section 7.8. */
  ghost function DerivedRefs(coding: HintCoding, slots: seq<RefState>, orderHint: uint8, last: nat, golden: nat)
    : (idx: seq<int>)
    requires |slots| == NUM_REF_FRAMES
    ensures Named(idx)
  {
    if exists i :: IsDerived(coding, slots, orderHint, last, golden, i)
    then var i :| IsDerived(coding, slots, orderHint, last, golden, i); i
    else NO_NAMES
  }

  lemma DerivedIs(coding: HintCoding, slots: seq<RefState>, orderHint: uint8, last: nat, golden: nat, idx: seq<int>)
    requires |slots| == NUM_REF_FRAMES && IsDerived(coding, slots, orderHint, last, golden, idx)
    ensures DerivedRefs(coding, slots, orderHint, last, golden) == idx
  {
    hide IsDerived;
    DerivedUnique(coding, slots, orderHint, last, golden, idx, DerivedRefs(coding, slots, orderHint, last, golden));
  }

  /** The references behind those in acc, coded one by one with a gap behind each, and where they end. */
  ghost function NamesAt(data: seq<byte>, p: nat, end: int, gap: Gap, acc: seq<int>): (r: Option<(seq<int>, nat)>)
    requires |acc| <= REFS_PER_FRAME && forall i :: 0 <= i < |acc| ==> 0 <= acc[i] < NUM_REF_FRAMES
    ensures r.Some? ==> Named(r.value.0)
    decreases REFS_PER_FRAME - |acc|
  {
    if |acc| == REFS_PER_FRAME then Some((acc, p))
    else if p + 3 > end then None
    else
      match gap(5 + |acc|, data, p + 3)
      case None => None
      case Some(q) =>
        SlotField(data, p);
        NamesAt(data, q, end, gap, acc + [Field(data, p, 3)])
  }

  lemma SlotField(data: seq<byte>, p: nat)
    ensures Field(data, p, 3) < NUM_REF_FRAMES
  {
    FieldBound(data, p, 3);
    assert Pow2(3) == 8;
  }

  /** The gaps behind the references from the i-th on, when these are derived and not coded. */
  ghost function GapsAt(data: seq<byte>, p: nat, gap: Gap, i: nat): Option<nat>
    requires i <= REFS_PER_FRAME
    decreases REFS_PER_FRAME - i
  {
    if i == REFS_PER_FRAME then Some(p)
    else
      match gap(5 + i, data, p)
      case None => None
      case Some(q) => GapsAt(data, q, gap, i + 1)
  }

  /** The references of an inter frame. With short signaling, last and golden are the slots signalled. */
  datatype Names = Names(short: Option<(nat, nat)>, idx: seq<int>, next: nat)

  /** frame_refs_short_signaling and the slots signalled behind it, if it is set, and where they end. */
  ghost function ShortAt(data: seq<byte>, p: nat, end: int, coding: HintCoding): Option<(Option<(nat, nat)>, nat)> {
    if !coding.enabled then Some((None, p))
    else if p + 1 > end then None
    else if !BitAt(data, p) then Some((None, p + 1))
    else if p + 7 > end then None
    else Some((Some((Field(data, p + 1, 3), Field(data, p + 4, 3))), p + 7))
  }

  /** Either derived as section 7.8 says from two slots signalled, or coded one by one. */
  ghost function RefsAt(data: seq<byte>, p: nat, end: int, gap: Gap, sq: Sequence, start: Start): (r: Option<Names>)
    requires |start.slots| == NUM_REF_FRAMES
    ensures r.Some? ==> Named(r.value.idx)
  {
    match ShortAt(data, p, end, sq.hints)
    case None => None
    case Some((None, q)) =>
      (match NamesAt(data, q, end, gap, [])
       case None => None
       case Some((idx, next)) => Some(Names(None, idx, next)))
    case Some((Some((last, golden)), q)) =>
      match GapsAt(data, q, gap, 0)
      case None => None
      case Some(next) => Some(Names(Some((last, golden)),
                                    DerivedRefs(sq.hints, start.slots, start.orderHint, last, golden), next))
  }

  // ----- The sizes

  /** The denominator of superres, and where it ends. */
  ghost function SuperresAt(data: seq<byte>, p: nat, end: int, enabled: bool): (r: Option<(nat, nat)>)
    ensures r.Some? ==> 8 <= r.value.0 <= 16
  {
    if !enabled then Some((SUPERRES_NUM, p))
    else if p + 1 > end then None
    else if !BitAt(data, p) then Some((SUPERRES_NUM, p + 1))
    else if p + 4 > end then None
    else
      SlotField(data, p + 1);
      Some((Field(data, p + 1, 3) + SUPERRES_DENOM_MIN, p + 4))
  }

  /** Width and height, coded or the largest of the sequence, and where they end. */
  ghost function PlainSizeAt(data: seq<byte>, p: nat, end: int, sq: Sequence, coded: bool): (r: Option<(nat, nat, nat)>)
    ensures r.Some? ==> 1 <= r.value.0 <= MAX_FRAME_SIZE && 1 <= r.value.1 <= MAX_FRAME_SIZE
  {
    var n, m := sq.frameWidthBitsMinus1 + 1, sq.frameHeightBitsMinus1 + 1;
    if !coded then Some((sq.maxFrameWidthMinus1 as int + 1, sq.maxFrameHeightMinus1 as int + 1, p))
    else if p + n + m > end then None
    else Some((Wrap16(Field(data, p, n)) as int + 1, Wrap16(Field(data, p + n, m)) as int + 1, p + n + m))
  }

  /** The render size, coded or that of the frame, and where it ends. */
  ghost function RenderAt(data: seq<byte>, p: nat, end: int, width: nat, height: nat): (r: Option<(nat, nat, nat)>)
    requires 1 <= width <= MAX_FRAME_SIZE && 1 <= height <= MAX_FRAME_SIZE
    ensures r.Some? ==> 1 <= r.value.0 <= MAX_FRAME_SIZE && 1 <= r.value.1 <= MAX_FRAME_SIZE
  {
    if p + 1 > end then None
    else if !BitAt(data, p) then Some((width, height, p + 1))
    else if p + 33 > end then None
    else Some((Wrap16(Field(data, p + 1, 16)) as int + 1, Wrap16(Field(data, p + 17, 16)) as int + 1, p + 33))
  }

  /** frame_size(): width before superres, height, denominator of superres, and where they end. */
  ghost function ScaledAt(data: seq<byte>, p: nat, end: int, sq: Sequence, coded: bool)
    : (r: Option<(nat, nat, nat, nat)>)
    ensures r.Some? ==> 1 <= r.value.0 <= MAX_FRAME_SIZE && 1 <= r.value.1 <= MAX_FRAME_SIZE && 8 <= r.value.2 <= 16
  {
    match PlainSizeAt(data, p, end, sq, coded)
    case None => None
    case Some((width, height, q)) =>
      match SuperresAt(data, q, end, sq.enableSuperres)
      case None => None
      case Some((denom, next)) => Some((width, height, denom, next))
  }

  /** frame_size() and render_size(), and where they end. */
  ghost function SizeAt(data: seq<byte>, p: nat, end: int, sq: Sequence, coded: bool): (r: Option<(Size, nat)>)
    ensures r.Some? ==> SizeOk(r.value.0)
  {
    match ScaledAt(data, p, end, sq, coded)
    case None => None
    case Some((width, height, denom, q)) =>
      match RenderAt(data, q, end, width, height)
      case None => None
      case Some((renderWidth, renderHeight, next)) =>
        SuperresBounds(width, denom);
        Some((Size(width, SuperresWidth(width, denom), height, renderWidth, renderHeight), next))
  }

  /** How many of the n flags from p on are zero before the first that is set. */
  ghost function FirstFound(data: seq<byte>, p: nat, n: nat): (found: nat)
    ensures found <= n && (found < n ==> BitAt(data, p + found))
    ensures forall q :: p <= q < p + found ==> !BitAt(data, q)
    decreases n
  {
    if n == 0 || BitAt(data, p) then 0 else 1 + FirstFound(data, p + 1, n - 1)
  }

  /** The size of a valid slot with superres applied anew, and where that ends. */
  ghost function SlotSizeAt(data: seq<byte>, p: nat, end: int, sq: Sequence, slot: RefState): (r: Option<(Size, nat)>)
    requires slot.valid ==> SizeOk(slot.size)
    ensures r.Some? ==> slot.valid && SizeOk(r.value.0)
  {
    if !slot.valid then None
    else
      match SuperresAt(data, p, end, sq.enableSuperres)
      case None => None
      case Some((denom, next)) =>
        SuperresBounds(slot.size.upscaledWidth, denom);
        Some((slot.size.(frameWidth := SuperresWidth(slot.size.upscaledWidth, denom)), next))
  }

  /** frame_size_with_refs(): the first reference found gives the size; if none is found it is coded. */
  ghost function SizeByRefsAt(data: seq<byte>, p: nat, end: int, sq: Sequence, slots: seq<RefState>, idx: seq<int>,
                              coded: bool)
    : (r: Option<(Size, nat)>)
    requires RefsOk(slots) && Named(idx)
    ensures r.Some? ==> SizeOk(r.value.0)
  {
    var found := FirstFound(data, p, REFS_PER_FRAME);
    if found == REFS_PER_FRAME then
      if p + found > end then None else SizeAt(data, p + found, end, sq, coded)
    else if p + found + 1 > end then None
    else SlotSizeAt(data, p + found + 1, end, sq, slots[idx[found]])
  }

  /** The fields of a frame header up to the sizes. Intra frames name no references. */
  datatype Front = Front(start: Start, names: Option<Names>, size: Size, next: nat) {
    function Idx(): seq<int> {
      if names.Some? then names.value.idx else NO_NAMES
    }
  }

  /**
   * The sizes of an inter frame come from its references if they are overridden in a frame that is not error resilient.
   */
  predicate SizedByRefs(kind: Kind, start: Start) {
    start.override && !kind.resilient
  }

  ghost function InterAt(data: seq<byte>, end: int, gap: Gap, sq: Sequence, kind: Kind, start: Start)
    : (r: Option<Front>)
    requires RefsOk(start.slots)
    ensures r.Some? ==> r.value.start == start && SizeOk(r.value.size) && r.value.names.Some?
    ensures r.Some? ==> Named(r.value.names.value.idx)
  {
    match RefsAt(data, start.next, end, gap, sq, start)
    case None => None
    case Some(names) =>
      match if SizedByRefs(kind, start)
            then SizeByRefsAt(data, names.next, end, sq, start.slots, names.idx, start.override)
            else SizeAt(data, names.next, end, sq, start.override)
      case None => None
      case Some((size, next)) => Some(Front(start, Some(names), size, next))
  }

  ghost function FrontAt(data: seq<byte>, end: int, gap: Gap, sq: Sequence, kind: Kind, refs: seq<RefState>)
    : (r: Option<Front>)
    requires RefsOk(refs)
    ensures r.Some? ==> RefsOk(r.value.start.slots) && SizeOk(r.value.size) && Named(r.value.Idx())
  {
    StartWeakens(data, end, gap, sq, kind, refs);
    match StartAt(data, end, gap, sq, kind, refs)
    case None => None
    case Some(start) =>
      if !kind.Intra() then InterAt(data, end, gap, sq, kind, start)
      else
        match SizeAt(data, start.next, end, sq, start.override)
        case None => None
        case Some((size, next)) => Some(Front(start, None, size, next))
  }

  // ----- Tiles and skip mode

  /** The order hints of the slots that the references name. */
  function RefHints(slots: seq<RefState>, idx: seq<int>): (hints: seq<uint8>)
    requires |slots| == NUM_REF_FRAMES && forall i :: 0 <= i < |idx| ==> 0 <= idx[i] < NUM_REF_FRAMES
    ensures |hints| == |idx|
  {
    seq(|idx|, i requires 0 <= i < |idx| => slots[idx[i]].orderHint)
  }

  /** Skip mode is allowed for these references. */
  ghost predicate SkipAllowed(coding: HintCoding, slots: seq<RefState>, idx: seq<int>, orderHint: uint8)
    requires |slots| == NUM_REF_FRAMES && forall i :: 0 <= i < |idx| ==> 0 <= idx[i] < NUM_REF_FRAMES
  {
    coding.enabled
    && var d := Distances(coding, RefHints(slots, idx), orderHint);
       TwoReferences(d) || HalfCycleClash(d, coding.Half())
  }

  /**
   * reference_select, coded in inter frames; skip_mode_present, coded exactly when skip mode is allowed; and where they
   * end.
   */
  ghost function SkipAt(data: seq<byte>, p: nat, end: int, sq: Sequence, intra: bool, slots: seq<RefState>,
                        idx: seq<int>, orderHint: uint8)
    : Option<(bool, bool, nat)>
    requires |slots| == NUM_REF_FRAMES && forall i :: 0 <= i < |idx| ==> 0 <= idx[i] < NUM_REF_FRAMES
  {
    if intra then Some((false, false, p))
    else if p + 1 > end then None
    else if !(BitAt(data, p) && SkipAllowed(sq.hints, slots, idx, orderHint)) then Some((BitAt(data, p), false, p + 1))
    else if p + 2 > end then None
    else Some((true, BitAt(data, p + 1), p + 2))
  }

  /** The fields behind the sizes. */
  datatype Back = Back(tiles: TileFields, referenceSelect: bool, skipModePresent: bool, next: nat)

  ghost function BackAt(data: seq<byte>, end: int, gap: Gap, sq: Sequence, kind: Kind, front: Front): Option<Back>
    requires RefsOk(front.start.slots) && SizeOk(front.size) && Named(front.Idx())
  {
    GridFits(front.size.frameWidth, front.size.frameHeight, sq.use128);
    match gap(12, data, front.next)
    case None => None
    case Some(p) =>
      match TileInfoAt(data, p, end, GridOf(front.size.frameWidth, front.size.frameHeight, sq.use128))
      case None => None
      case Some(tiles) =>
        match gap(13, data, tiles.next)
        case None => None
        case Some(q) =>
          match SkipAt(data, q, end, sq, kind.Intra(), front.start.slots, front.Idx(), front.start.orderHint)
          case None => None
          case Some((select, skip, t)) =>
            match gap(14, data, t)
            case None => None
            case Some(next) => Some(Back(tiles, select, skip, next))
  }

  // ----- The whole header

  datatype Header = Header(kind: Kind, front: Front, back: Back) {
    /** The frame that goes into the slots refreshed. */
    function Frame(): RefState {
      RefState(true, front.start.id, front.size, kind.frameType, front.start.orderHint)
    }
  }

  ghost function HeaderAt(data: seq<byte>, end: int, gap: Gap, sq: Sequence, kind: Kind, refs: seq<RefState>)
    : (r: Option<Header>)
    requires RefsOk(refs)
    ensures r.Some? ==> r.value.kind == kind && |r.value.front.start.slots| == |refs|
  {
    match FrontAt(data, end, gap, sq, kind, refs)
    case None => None
    case Some(front) =>
      match BackAt(data, end, gap, sq, kind, front)
      case None => None
      case Some(back) => Some(Header(kind, front, back))
  }

  /** A frame header shows the frame of a slot again, or is a header in full. */
  datatype Opening = Again(slot: nat, next: nat) | Full(header: Header) {
    function Next(): nat {
      match this
      case Again(_, next) => next
      case Full(header) => header.back.next
    }
  }

  /** What uncompressed_header() at p says in this state; None exactly when it fails. */
  ghost function OpeningAt(data: seq<byte>, p: nat, end: int, gap: Gap, s: State): (r: Option<Opening>)
    requires RefsOk(s.refs)
    ensures r.Some? ==> if r.value.Again? then r.value.slot < |s.refs|
                        else |r.value.header.front.start.slots| == |s.refs|
  {
    if s.sequence.None? then None
    else if s.sequence.value.reducedStill then FullAt(data, end, gap, s, Kind(KEY_FRAME, true, false, p))
    else if p + 1 > end then None
    else if BitAt(data, p) then AgainAt(data, p + 1, end, gap, s.refs)
    else
      match KindAt(data, p + 1, end, gap)
      case None => None
      case Some(kind) => FullAt(data, end, gap, s, kind)
  }

  ghost function AgainAt(data: seq<byte>, p: nat, end: int, gap: Gap, refs: seq<RefState>): (r: Option<Opening>)
    requires |refs| == NUM_REF_FRAMES
    ensures r.Some? ==> r.value.Again? && r.value.slot < NUM_REF_FRAMES
  {
    SlotField(data, p);
    if p + 3 > end || !refs[Field(data, p, 3)].valid then None
    else
      match gap(0, data, p + 3)
      case None => None
      case Some(next) => Some(Again(Field(data, p, 3), next))
  }

  ghost function FullAt(data: seq<byte>, end: int, gap: Gap, s: State, kind: Kind): (r: Option<Opening>)
    requires RefsOk(s.refs) && s.sequence.Some?
    ensures r.Some? ==> r.value.Full? && |r.value.header.front.start.slots| == |s.refs|
  {
    match HeaderAt(data, end, gap, s.sequence.value, kind, s.refs)
    case None => None
    case Some(header) => Some(Full(header))
  }

  /** The state after a header that succeeds, before it is stored. */
  function WithHeader(s: State, h: Header): State
    requires |h.front.start.slots| == NUM_REF_FRAMES
  {
    s.(size := h.front.size, orderHint := h.front.start.orderHint,
       tileCols := |h.back.tiles.tiling.widths|, tileRows := |h.back.tiles.tiling.heights|,
       refs := UpdatedRefs(h.front.start.slots, h.front.start.flags, h.Frame(), NUM_REF_FRAMES))
  }

  /** The frame in every slot. */
  function Everywhere(frame: RefState): (refs: seq<RefState>)
    ensures |refs| == NUM_REF_FRAMES && forall i :: 0 <= i < NUM_REF_FRAMES ==> refs[i] == frame
  {
    seq(NUM_REF_FRAMES, _ => frame)
  }

  /** The state after the frame of a slot is shown again: a key frame is loaded, and stored in every slot. */
  function WithShown(s: State, slot: nat): State
    requires slot < |s.refs|
  {
    var shown := s.refs[slot];
    if shown.frameType == KEY_FRAME
    then s.(size := shown.size, orderHint := shown.orderHint, refs := Everywhere(shown))
    else s
  }

  /** The state once the header is accepted; what it keeps of the header is as in t. */
  function AfterOpening(s: State, o: Opening, t: State): State
    requires if o.Again? then o.slot < |s.refs| else |o.header.front.start.slots| == NUM_REF_FRAMES
  {
    if o.Again? then WithShown(s, o.slot).(tileNum := 0)
    else WithHeader(s, o.header).(tileNum := 0, seen := true, stored := t.stored, storedBits := t.storedBits)
  }

  // ----- The events of frame headers

  /** The step that a frame header OBU at p takes. */
  ghost function HeaderEvent(data: seq<byte>, p: nat, end: int, gap: Gap, s: State, redundant: bool): Event
    requires Invariant(s) && p <= end
  {
    if !s.seen then
      match OpeningAt(data, p, end, gap, s)
      case None => HeaderFailed
      case Some(Again(slot, next)) => ShownExisting(BitsOf(data, p, Max(next - p, 0)), slot)
      case Some(Full(h)) => Event.Opened(BitsOf(data, p, Max(h.back.next - p, 0)), h.front.start.flags)
    else if redundant then
      var offered := BitsOf(data, p, Min(s.storedBits, end - p));
      Redundant(offered, offered == s.StoredHeader())
    else Idle
  }

  /** The header was accepted. */
  predicate HeaderPasses(e: Event) {
    e.ShownExisting? || e.Opened? || (e.Redundant? && e.accepted)
  }

  /** How many bits a header that was accepted takes. */
  function HeaderBits(e: Event): nat {
    match e
    case ShownExisting(header, _) => |header|
    case Opened(header, _) => |header|
    case Redundant(offered, _) => |offered|
    case _ => 0
  }

  // ----- The events of tile groups

  /** The bits of a tile number. */
  function TileIndexBits(s: State): nat {
    TileLog2(1, s.tileCols) + TileLog2(1, s.tileRows)
  }

  /** It has the fewest bits that can name every column and every row. */
  lemma TileIndexBitsAre(s: State, a: nat, b: nat)
    requires s.tileCols <= Pow2(a) && (a > 0 ==> Pow2(a - 1) < s.tileCols)
    requires s.tileRows <= Pow2(b) && (b > 0 ==> Pow2(b - 1) < s.tileRows)
    ensures TileIndexBits(s) == a + b
  {
    hide TileLog2;
    TileLog2Is(s.tileCols, a);
    TileLog2Is(s.tileRows, b);
  }

  /** The bounds coded at p, n bits each, if they are there and a group with these bounds is accepted. */
  ghost function CodedBounds(data: seq<byte>, p: nat, end: int, n: nat, s: State): (r: Option<(nat, nat)>)
    ensures r.Some? ==> GroupAccepted(s, r.value.0, r.value.1)
  {
    if p + n + n <= end && GroupAccepted(s, Field(data, p, n), Field(data, p + n, n))
    then Some((Field(data, p, n), Field(data, p + n, n)))
    else None
  }

  /** Whether the bounds of a tile group are explicit, the bounds, and where they end. */
  datatype Bounds = Bounds(explicit: bool, start: nat, last: nat, next: nat)

  ghost function BoundsAt(data: seq<byte>, p: nat, end: int, s: State): (r: Option<Bounds>)
    ensures r.Some? ==>
              if r.value.explicit then GroupAccepted(s, r.value.start, r.value.last)
              else r.value.start == 0 && r.value.last == Wrap16(s.NumTiles() - 1)
  {
    var all := Bounds(false, 0, Wrap16(s.NumTiles() - 1), p);
    if s.NumTiles() <= 1 then Some(all)
    else if p + 1 > end then None
    else if !BitAt(data, p) then Some(all.(next := p + 1))
    else
      match CodedBounds(data, p + 1, end, TileIndexBits(s), s)
      case None => None
      case Some((start, last)) => Some(Bounds(true, start, last, p + 1 + 2 * TileIndexBits(s)))
  }

  /** The next byte boundary. */
  function Aligned(p: nat): (q: nat)
    ensures p <= q < p + 8 && q % 8 == 0
  {
    8 * ((p + 7) / 8)
  }

  /** There are only zero bits up to the next byte boundary. */
  ghost predicate AlignsAt(data: seq<byte>, p: nat, end: int) {
    Aligned(p) <= end && forall k :: p <= k < Aligned(p) ==> !BitAt(data, k)
  }

  /** The step that a tile group at p takes. */
  ghost function TileEvent(data: seq<byte>, p: nat, end: int, s: State): Event {
    match BoundsAt(data, p, end, s)
    case None => Idle
    case Some(b) => Tiles(b.explicit, b.start, b.last, AlignsAt(data, b.next, end))
  }

  /** Where the header of a tile group at p ends, if it is accepted. */
  ghost function TileEnd(data: seq<byte>, p: nat, end: int, s: State): Option<nat> {
    match BoundsAt(data, p, end, s)
    case None => None
    case Some(b) => if AlignsAt(data, b.next, end) then Some(Aligned(b.next)) else None
  }
}
