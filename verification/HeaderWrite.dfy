/**
 * A writer for uncompressed_header() (section 5.9.2 of AV1), which writes out the condition of every field, and the
 * proof that the reader takes back whatever it wrote.
 */
module HeaderWrite {
  import opened Common
  import opened Powers
  import opened Bits
  import opened Fields
  import opened OrderHints
  import opened FrameRefs
  import opened TileInfo
  import opened TileWrite
  import opened Av1State
  import opened Av1Header

  // ----- Written bits

  /** code stands at p. */
  ghost predicate Shows(data: seq<byte>, p: nat, code: bits) {
    BitsOf(data, p, |code|) == code
  }

  lemma ShowsParts(data: seq<byte>, p: nat, a: bits, b: bits)
    requires Shows(data, p, a + b)
    ensures Shows(data, p, a) && Shows(data, p + |a|, b)
  {
    hide BitsOf;
    ShownPieces(data, p, a, b);
  }

  lemma ShowsFlag(data: seq<byte>, p: nat, flag: bool, rest: bits)
    requires Shows(data, p, [flag] + rest)
    ensures BitAt(data, p) == flag && Shows(data, p + 1, rest)
  {
    hide BitsOf;
    ShownHead(data, p, flag, rest);
  }

  lemma ShowsNumber(data: seq<byte>, p: nat, v: nat, n: nat, rest: bits)
    requires Shows(data, p, ToBits(v, n) + rest) && v < Pow2(n)
    ensures Field(data, p, n) == v && Shows(data, p + n, rest)
  {
    hide BitsOf, Shl;
    ShownPieces(data, p, ToBits(v, n), rest);
    ValueToBits(v, n);
  }

  lemma NothingBehind(a: bits)
    ensures a + [] == a
  {
  }

  /** What is written for each run of fields that are not modelled. */
  type Runs = nat -> bits

  /** The gaps read these runs back, wherever they stand. */
  ghost predicate Reads(gap: Gap, runs: Runs) {
    forall k: nat, data: seq<byte>, p: nat ::
      p + |runs(k)| <= 8 * |data| && BitsOf(data, p, |runs(k)|) == runs(k) ==> gap(k, data, p) == Some(p + |runs(k)|)
  }

  lemma ReadsRun(gap: Gap, runs: Runs, k: nat, data: seq<byte>, p: nat, rest: bits)
    requires Reads(gap, runs) && Shows(data, p, runs(k) + rest) && p + |runs(k)| + |rest| <= 8 * |data|
    ensures gap(k, data, p) == Some(p + |runs(k)|) && Shows(data, p + |runs(k)|, rest)
  {
    hide BitsOf;
    ShownPieces(data, p, runs(k), rest);
  }

  // ----- Headers to be written

  /** The references of an inter frame: two slots for section 7.8 to start from, or all seven. */
  datatype Choice = Signalled(last: nat, golden: nat) | Listed(idx: seq<int>)

  /** Sizes: those of the reference found, or coded ones. denom is 8 without superres. */
  datatype Sizing =
    | FromSlot(found: nat, denom: nat)
    | Plain(width: nat, height: nat, denom: nat, render: Option<(nat, nat)>)

  datatype Written = Written(frameType: nat, showFrame: bool, showable: bool, resilient: bool, disableCdf: bool,
                             id: nat, override: bool, orderHint: nat, flags: nat, hints: seq<nat>, names: Choice,
                             sizing: Sizing, tiles: TileFields, select: bool, skip: bool) {
    /** Inter frames and switch frames name references. */
    predicate Inter() {
      frameType == 1 || frameType == 3
    }

    predicate ShownKey() {
      frameType == 0 && showFrame
    }

    /** Shown key frames and switch frames refresh every slot and are error resilient without saying so. */
    predicate All() {
      ShownKey() || frameType == 3
    }

    predicate HintsCoded(sq: Sequence) {
      sq.hints.enabled && resilient && (Inter() || flags != 255)
    }

    predicate ByRefs() {
      Inter() && override && !resilient
    }
  }

  // ----- The kind of frame

  predicate KindFits(w: Written, sq: Sequence) {
    && w.frameType < 4 && (w.showFrame ==> !w.showable)
    && if sq.reducedStill then w.ShownKey() && !w.resilient else w.All() ==> w.resilient
  }

  function KindCode(w: Written, runs: Runs): bits {
    var tail := (if w.showFrame then [] else [w.showable]) + if w.All() then [] else [w.resilient];
    ToBits(w.frameType, 2) + ([w.showFrame] + (runs(1) + tail))
  }

  lemma KindReads(data: seq<byte>, p: nat, end: int, gap: Gap, runs: Runs, w: Written, sq: Sequence)
    requires KindFits(w, sq) && !sq.reducedStill && Reads(gap, runs)
    requires Shows(data, p, KindCode(w, runs)) && p + |KindCode(w, runs)| <= end <= 8 * |data|
    ensures KindAt(data, p, end, gap) == Some(Kind(w.frameType, w.showFrame, w.resilient, p + |KindCode(w, runs)|))
  {
    hide Shows, Reads, BitAt, Field, ToBits;
    var tail := (if w.showFrame then [] else [w.showable]) + if w.All() then [] else [w.resilient];
    SmallPowers();
    ShowsNumber(data, p, w.frameType, 2, [w.showFrame] + (runs(1) + tail));
    ShowsFlag(data, p + 2, w.showFrame, runs(1) + tail);
    ReadsRun(gap, runs, 1, data, p + 3, tail);
    var q := p + 3 + |runs(1)|;
    if w.showFrame {
      assert tail == if w.All() then [] else [w.resilient];
    } else {
      ShowsFlag(data, q, w.showable, if w.All() then [] else [w.resilient]);
    }
    if !w.All() {
      NothingBehind([w.resilient]);
      ShowsFlag(data, q + if w.showFrame then 0 else 1, w.resilient, []);
    }
  }

  // ----- Ids, override and order hint

  predicate IdFits(w: Written, sq: Sequence) {
    && (if sq.ids.Some? then w.id < Pow2(sq.ids.value.0) else w.id == 0)
    && (w.frameType == 3 ==> w.override) && (sq.reducedStill ==> !w.override)
    && if sq.hints.enabled then w.orderHint < Pow2(sq.hints.bitsMinus1 + 1) else w.orderHint == 0
  }

  function IdCode(w: Written, sq: Sequence, runs: Runs): bits {
    [w.disableCdf] + (runs(2) + if sq.ids.Some? then ToBits(w.id, sq.ids.value.0) else [])
  }

  lemma IdReads(data: seq<byte>, p: nat, end: int, gap: Gap, runs: Runs, w: Written, sq: Sequence)
    requires IdFits(w, sq) && Reads(gap, runs)
    requires Shows(data, p, IdCode(w, sq, runs)) && p + |IdCode(w, sq, runs)| <= end <= 8 * |data|
    ensures IdAt(data, p, end, gap, sq.ids) == Some((w.id, p + |IdCode(w, sq, runs)|))
  {
    hide Shows, Reads, BitAt, Field, ToBits, Pow2;
    var number := if sq.ids.Some? then ToBits(w.id, sq.ids.value.0) else [];
    ShowsFlag(data, p, w.disableCdf, runs(2) + number);
    ReadsRun(gap, runs, 2, data, p + 1, number);
    if sq.ids.Some? {
      NothingBehind(number);
      ShowsNumber(data, p + 1 + |runs(2)|, w.id, sq.ids.value.0, []);
    }
  }

  function OverrideCode(w: Written, sq: Sequence): bits {
    (if w.frameType == 3 || sq.reducedStill then [] else [w.override])
    + if sq.hints.enabled then ToBits(w.orderHint, sq.hints.bitsMinus1 + 1) else []
  }

  /** The kind of frame that was written. */
  function KindOf(w: Written, next: nat): Kind {
    Kind(w.frameType, w.showFrame, w.resilient, next)
  }

  lemma HintFits(coding: HintCoding, hint: nat)
    requires coding.Valid() && hint < Pow2(coding.bitsMinus1 + 1)
    ensures hint < 256
  {
    FitsByte(coding.bitsMinus1 + 1);
  }

  lemma OverrideReads(data: seq<byte>, p: nat, end: int, w: Written, sq: Sequence, kind: Kind)
    requires IdFits(w, sq) && KindFits(w, sq) && sq.hints.Valid() && kind.frameType == w.frameType
    requires Shows(data, p, OverrideCode(w, sq)) && p + |OverrideCode(w, sq)| <= end
    ensures w.orderHint < 256
    ensures OverrideAt(data, p, end, sq, kind) == Some((w.override, w.orderHint, p + |OverrideCode(w, sq)|))
  {
    hide Shows, BitAt, Field, ToBits, Pow2;
    var number := if sq.hints.enabled then ToBits(w.orderHint, sq.hints.bitsMinus1 + 1) else [];
    var n := if w.frameType == 3 || sq.reducedStill then 0 else 1;
    if n == 1 {
      ShowsFlag(data, p, w.override, number);
    } else {
      assert [] + number == number;
    }
    if sq.hints.enabled {
      HintFits(sq.hints, w.orderHint);
      NothingBehind(number);
      ShowsNumber(data, p + n, w.orderHint, sq.hints.bitsMinus1 + 1, []);
    }
  }

  // ----- Refresh flags and order hints of the slots

  predicate RefreshFits(w: Written, sq: Sequence) {
    && w.flags < 256 && (w.All() ==> w.flags == 255)
    && if w.HintsCoded(sq)
       then |w.hints| == NUM_REF_FRAMES && forall i :: 0 <= i < |w.hints| ==> w.hints[i] < Pow2(sq.hints.bitsMinus1 + 1)
       else w.hints == []
  }

  function HintsCode(hints: seq<nat>, n: nat): (b: bits)
    ensures |b| == |hints| * n
  {
    if hints == [] then [] else ToBits(hints[0], n) + HintsCode(hints[1..], n)
  }

  lemma {:induction false} HintsRead(data: seq<byte>, p: nat, hints: seq<nat>, n: nat, i: nat)
    requires Shows(data, p, HintsCode(hints, n)) && i < |hints| && forall j :: 0 <= j < |hints| ==> hints[j] < Pow2(n)
    ensures Field(data, p + i * n, n) == hints[i]
    decreases |hints|
  {
    hide Shows, Field, Pow2, ToBits;
    ShowsNumber(data, p, hints[0], n, HintsCode(hints[1..], n));
    if i > 0 {
      HintsRead(data, p + n, hints[1..], n, i - 1);
      assert p + n + (i - 1) * n == p + i * n;
    }
  }

  function RefreshCode(w: Written, sq: Sequence): bits {
    (if w.All() then [] else ToBits(w.flags, 8))
    + if w.HintsCoded(sq) then HintsCode(w.hints, sq.hints.bitsMinus1 + 1) else []
  }

  lemma FlagsRead(data: seq<byte>, p: nat, end: int, w: Written, sq: Sequence, rest: bits)
    requires RefreshFits(w, sq) && Shows(data, p, (if w.All() then [] else ToBits(w.flags, 8)) + rest)
    ensures !w.All() ==> Field(data, p, 8) == w.flags
    ensures Shows(data, p + if w.All() then 0 else 8, rest)
  {
    hide Shows, Field, ToBits;
    if w.All() {
      assert [] + rest == rest;
    } else {
      ShlByte(1);
      ShowsNumber(data, p, w.flags, 8, rest);
    }
  }

  /** A slot once the hint coded for it, if any, was compared with its own. */
  function SlotChecked(w: Written, sq: Sequence, slot: RefState, i: nat): RefState {
    if i < |w.hints| && w.hints[i] != slot.orderHint then slot.(valid := false) else slot
  }

  lemma RefreshReads(data: seq<byte>, p: nat, end: int, w: Written, sq: Sequence, kind: Kind, refs: seq<RefState>)
    requires RefreshFits(w, sq) && KindFits(w, sq) && |refs| == NUM_REF_FRAMES
    requires kind.frameType == w.frameType && kind.showFrame == w.showFrame && kind.resilient == w.resilient
    requires Shows(data, p, RefreshCode(w, sq)) && p + |RefreshCode(w, sq)| <= end
    ensures var r := RefreshAt(data, p, end, sq, kind, refs);
            && r.Some? && r.value.0 == w.flags && r.value.2 == p + |RefreshCode(w, sq)|
            && forall i :: 0 <= i < NUM_REF_FRAMES ==> r.value.1[i] == SlotChecked(w, sq, refs[i], i)
  {
    hide Shows, Field, ToBits, Pow2;
    var rest := if w.HintsCoded(sq) then HintsCode(w.hints, sq.hints.bitsMinus1 + 1) else [];
    FlagsRead(data, p, end, w, sq, rest);
    var q := p + if w.All() then 0 else 8;
    if w.HintsCoded(sq) {
      forall i | 0 <= i < NUM_REF_FRAMES
        ensures HintAt(data, q, i, sq.hints) == w.hints[i]
      {
        HintsRead(data, q, w.hints, sq.hints.bitsMinus1 + 1, i);
      }
    }
  }

  // ----- The fields before references and sizes

  /** The ids in the slots are as long as those of the sequence. */
  ghost predicate IdsFit(sq: Sequence, refs: seq<RefState>) {
    sq.ids.Some? ==>
      && sq.ids.value.1 < sq.ids.value.0 <= 32
      && forall i :: 0 <= i < |refs| ==> refs[i].frameID < Pow2(sq.ids.value.0)
  }

  /**
   * What these fields make of slot i: a shown key frame empties it; otherwise it stays valid if its id is close enough
   * behind that of the frame, going round, and the order hint coded for it, if any, is its own.
   */
  function SlotAfter(w: Written, sq: Sequence, slot: RefState, i: nat): RefState {
    var hint: uint8 := if w.ShownKey() then 0 else slot.orderHint;
    var far := sq.ids.Some? && (w.id - slot.frameID) % Pow2(sq.ids.value.0) > Pow2(sq.ids.value.1);
    var wrong := i < |w.hints| && w.hints[i] != hint;
    slot.(valid := slot.valid && !w.ShownKey() && !far && !wrong, orderHint := hint)
  }

  function StartCode(w: Written, sq: Sequence, runs: Runs): bits {
    IdCode(w, sq, runs) + (OverrideCode(w, sq) + (runs(3) + RefreshCode(w, sq)))
  }

  predicate StartFits(w: Written, sq: Sequence) {
    KindFits(w, sq) && IdFits(w, sq) && RefreshFits(w, sq)
  }

  lemma SlotsAfter(w: Written, sq: Sequence, kind: Kind, refs: seq<RefState>, i: nat)
    requires StartFits(w, sq) && IdsFit(sq, refs) && i < |refs| && kind.frameType == w.frameType
    requires kind.showFrame == w.showFrame
    ensures SlotChecked(w, sq, Identified(Forgotten(refs, kind.StartsOver()), w.id, sq.ids)[i], i)
         == SlotAfter(w, sq, refs[i], i)
  {
    hide IdTooOld, Pow2;
    if sq.ids.Some? {
      IdDistance(refs[i].frameID, w.id, sq.ids.value.0, sq.ids.value.1);
    }
  }

  /** The fields before references and sizes are read back, and the slots are what these fields make of them. */
  lemma StartReads(data: seq<byte>, end: int, gap: Gap, runs: Runs, w: Written, sq: Sequence, kind: Kind,
                   refs: seq<RefState>)
    requires StartFits(w, sq) && sq.hints.Valid() && IdsFit(sq, refs) && |refs| == NUM_REF_FRAMES && Reads(gap, runs)
    requires kind == KindOf(w, kind.next) && Shows(data, kind.next, StartCode(w, sq, runs))
    requires kind.next + |StartCode(w, sq, runs)| <= end <= 8 * |data|
    ensures w.orderHint < 256 && w.flags < 256
    ensures var r := StartAt(data, end, gap, sq, kind, refs);
            && r.Some? && |r.value.slots| == NUM_REF_FRAMES
            && r.value == Start(w.id, w.override, w.orderHint, w.flags, r.value.slots,
                                kind.next + |StartCode(w, sq, runs)|)
            && forall i :: 0 <= i < NUM_REF_FRAMES ==> r.value.slots[i] == SlotAfter(w, sq, refs[i], i)
  {
    hide Shows, Reads, IdAt, OverrideAt, RefreshAt, IdCode, OverrideCode, RefreshCode, KindFits, IdFits, RefreshFits,
         SlotChecked, SlotAfter, IdsFit, IdTooOld, Kind.StartsOver, Forgotten, Identified;
    var ids, override, refresh := IdCode(w, sq, runs), OverrideCode(w, sq), RefreshCode(w, sq);
    ShowsParts(data, kind.next, ids, override + (runs(3) + refresh));
    IdReads(data, kind.next, end, gap, runs, w, sq);
    var p := kind.next + |ids|;
    ShowsParts(data, p, override, runs(3) + refresh);
    OverrideReads(data, p, end, w, sq, kind);
    var q := p + |override|;
    ReadsRun(gap, runs, 3, data, q, refresh);
    var cleared := Identified(Forgotten(refs, kind.StartsOver()), w.id, sq.ids);
    RefreshReads(data, q + |runs(3)|, end, w, sq, kind, cleared);
    forall i | 0 <= i < NUM_REF_FRAMES
      ensures SlotChecked(w, sq, cleared[i], i) == SlotAfter(w, sq, refs[i], i)
    {
      SlotsAfter(w, sq, kind, refs, i);
    }
  }

  // ----- References

  predicate ChoiceFits(names: Choice, coding: HintCoding) {
    match names
    case Signalled(last, golden) => coding.enabled && last < NUM_REF_FRAMES && golden < NUM_REF_FRAMES
    case Listed(idx) => |idx| == REFS_PER_FRAME && forall i :: 0 <= i < |idx| ==> 0 <= idx[i] < NUM_REF_FRAMES
  }

  /** Reference i and all behind it, each with a run of fields that are not modelled. */
  function ListCode(idx: seq<int>, runs: Runs, i: nat): bits
    requires i <= |idx| == REFS_PER_FRAME && forall j :: 0 <= j < |idx| ==> 0 <= idx[j]
    decreases REFS_PER_FRAME - i
  {
    if i == REFS_PER_FRAME then [] else ToBits(idx[i], 3) + (runs(5 + i) + ListCode(idx, runs, i + 1))
  }

  /** These runs alone. */
  function RunsCode(runs: Runs, i: nat): bits
    requires i <= REFS_PER_FRAME
    decreases REFS_PER_FRAME - i
  {
    if i == REFS_PER_FRAME then [] else runs(5 + i) + RunsCode(runs, i + 1)
  }

  function NamesCode(names: Choice, coding: HintCoding, runs: Runs): bits
    requires ChoiceFits(names, coding)
  {
    match names
    case Signalled(last, golden) => [true] + (ToBits(last, 3) + (ToBits(golden, 3) + RunsCode(runs, 0)))
    case Listed(idx) => (if coding.enabled then [false] else []) + ListCode(idx, runs, 0)
  }

  lemma NamesStep(data: seq<byte>, p: nat, end: int, gap: Gap, acc: seq<int>, q: nat)
    requires |acc| <= REFS_PER_FRAME && forall i :: 0 <= i < |acc| ==> 0 <= acc[i] < NUM_REF_FRAMES
    ensures |acc| == REFS_PER_FRAME ==> NamesAt(data, p, end, gap, acc) == Some((acc, p))
    ensures Field(data, p, 3) < NUM_REF_FRAMES
    ensures |acc| < REFS_PER_FRAME && p + 3 <= end && gap(5 + |acc|, data, p + 3) == Some(q) ==>
              NamesAt(data, p, end, gap, acc) == NamesAt(data, q, end, gap, acc + [Field(data, p, 3)])
  {
    hide Field;
    SlotField(data, p);
  }

  lemma {:induction false} ListReads(data: seq<byte>, p: nat, end: int, gap: Gap, runs: Runs, idx: seq<int>, i: nat)
    requires i <= |idx| == REFS_PER_FRAME && Reads(gap, runs)
    requires forall j :: 0 <= j < |idx| ==> 0 <= idx[j] < NUM_REF_FRAMES
    requires Shows(data, p, ListCode(idx, runs, i)) && p + |ListCode(idx, runs, i)| <= end <= 8 * |data|
    ensures NamesAt(data, p, end, gap, idx[..i]) == Some((idx, p + |ListCode(idx, runs, i)|))
    decreases REFS_PER_FRAME - i
  {
    hide Shows, Reads, Field, ToBits, Shl, NamesAt;
    NamesStep(data, p, end, gap, idx[..i], p);
    if i == REFS_PER_FRAME {
      assert idx[..i] == idx;
    } else {
      var behind := ListCode(idx, runs, i + 1);
      SmallPowers();
      ShowsNumber(data, p, idx[i], 3, runs(5 + i) + behind);
      ReadsRun(gap, runs, 5 + i, data, p + 3, behind);
      NamesStep(data, p, end, gap, idx[..i], p + 3 + |runs(5 + i)|);
      ListReads(data, p + 3 + |runs(5 + i)|, end, gap, runs, idx, i + 1);
      assert idx[..i + 1] == idx[..i] + [idx[i]];
    }
  }

  lemma {:induction false} RunsRead(data: seq<byte>, p: nat, gap: Gap, runs: Runs, i: nat)
    requires i <= REFS_PER_FRAME && Reads(gap, runs)
    requires Shows(data, p, RunsCode(runs, i)) && p + |RunsCode(runs, i)| <= 8 * |data|
    ensures GapsAt(data, p, gap, i) == Some(p + |RunsCode(runs, i)|)
    decreases REFS_PER_FRAME - i
  {
    hide Shows, Reads;
    if i < REFS_PER_FRAME {
      ReadsRun(gap, runs, 5 + i, data, p, RunsCode(runs, i + 1));
      RunsRead(data, p + |runs(5 + i)|, gap, runs, i + 1);
    }
  }

  /** The references that these names stand for. */
  ghost function NamesOf(names: Choice, coding: HintCoding, slots: seq<RefState>, orderHint: uint8, next: nat): Names
    requires |slots| == NUM_REF_FRAMES
  {
    match names
    case Signalled(last, golden) =>
      Names(Some((last, golden)), DerivedRefs(coding, slots, orderHint, last, golden), next)
    case Listed(idx) => Names(None, idx, next)
  }

  /** The two slots signalled, with short signaling. */
  function ShortOf(names: Choice): Option<(nat, nat)> {
    if names.Signalled? then Some((names.last, names.golden)) else None
  }

  lemma NamesRead(data: seq<byte>, p: nat, end: int, gap: Gap, runs: Runs, names: Choice, sq: Sequence, start: Start)
    requires ChoiceFits(names, sq.hints) && Reads(gap, runs) && |start.slots| == NUM_REF_FRAMES
    requires Shows(data, p, NamesCode(names, sq.hints, runs))
    requires p + |NamesCode(names, sq.hints, runs)| <= end <= 8 * |data|
    ensures RefsAt(data, p, end, gap, sq, start)
         == Some(NamesOf(names, sq.hints, start.slots, start.orderHint, p + |NamesCode(names, sq.hints, runs)|))
  {
    hide Shows, Reads, Field, ToBits, BitAt, NamesAt, GapsAt, ListCode, RunsCode, DerivedRefs;
    match names {
      case Signalled(last, golden) =>
        SmallPowers();
        var behind := RunsCode(runs, 0);
        ShowsFlag(data, p, true, ToBits(last, 3) + (ToBits(golden, 3) + behind));
        ShowsNumber(data, p + 1, last, 3, ToBits(golden, 3) + behind);
        ShowsNumber(data, p + 4, golden, 3, behind);
        RunsRead(data, p + 7, gap, runs, 0);
      case Listed(idx) =>
        var list := ListCode(idx, runs, 0);
        if sq.hints.enabled {
          ShowsFlag(data, p, false, list);
          ListReads(data, p + 1, end, gap, runs, idx, 0);
        } else {
          assert [] + list == list;
          ListReads(data, p, end, gap, runs, idx, 0);
        }
        assert idx[..0] == [];
    }
  }

  // ----- Sizes

  predicate SuperresFits(denom: nat, enabled: bool) {
    if enabled then 8 <= denom <= 16 else denom == 8
  }

  function SuperresCode(denom: nat, enabled: bool): bits
    requires SuperresFits(denom, enabled)
  {
    if !enabled then [] else if denom == 8 then [false] else [true] + ToBits(denom - 9, 3)
  }

  lemma SuperresReads(data: seq<byte>, p: nat, end: int, denom: nat, enabled: bool)
    requires SuperresFits(denom, enabled)
    requires Shows(data, p, SuperresCode(denom, enabled)) && p + |SuperresCode(denom, enabled)| <= end
    ensures SuperresAt(data, p, end, enabled) == Some((denom, p + |SuperresCode(denom, enabled)|))
  {
    hide Shows, BitAt, Field, ToBits;
    SmallPowers();
    if enabled && denom == 8 {
      NothingBehind([false]);
      ShowsFlag(data, p, false, []);
    } else if enabled {
      ShowsFlag(data, p, true, ToBits(denom - 9, 3));
      NothingBehind(ToBits(denom - 9, 3));
      ShowsNumber(data, p + 1, denom - 9, 3, []);
    }
  }

  /** Width and height can be coded, or are the largest of the sequence. */
  predicate PlainFits(width: nat, height: nat, coded: bool, sq: Sequence) {
    && 1 <= width <= MAX_FRAME_SIZE && 1 <= height <= MAX_FRAME_SIZE
    && if coded
       then width <= Pow2(sq.frameWidthBitsMinus1 + 1) && height <= Pow2(sq.frameHeightBitsMinus1 + 1)
       else var w: int, h: int := sq.maxFrameWidthMinus1, sq.maxFrameHeightMinus1; width == w + 1 && height == h + 1
  }

  function PlainCode(width: nat, height: nat, coded: bool, sq: Sequence): bits
    requires PlainFits(width, height, coded, sq)
  {
    if coded then ToBits(width - 1, sq.frameWidthBitsMinus1 + 1) + ToBits(height - 1, sq.frameHeightBitsMinus1 + 1)
    else []
  }

  lemma PlainReads(data: seq<byte>, p: nat, end: int, width: nat, height: nat, coded: bool, sq: Sequence)
    requires PlainFits(width, height, coded, sq)
    requires Shows(data, p, PlainCode(width, height, coded, sq)) && p + |PlainCode(width, height, coded, sq)| <= end
    ensures PlainSizeAt(data, p, end, sq, coded) == Some((width, height, p + |PlainCode(width, height, coded, sq)|))
  {
    hide Shows, Field, ToBits, Pow2;
    if coded {
      var n, m := sq.frameWidthBitsMinus1 + 1, sq.frameHeightBitsMinus1 + 1;
      ShowsNumber(data, p, width - 1, n, ToBits(height - 1, m));
      NothingBehind(ToBits(height - 1, m));
      ShowsNumber(data, p + n, height - 1, m, []);
    }
  }

  predicate RenderFits(render: Option<(nat, nat)>) {
    render.Some? ==> 1 <= render.value.0 <= MAX_FRAME_SIZE && 1 <= render.value.1 <= MAX_FRAME_SIZE
  }

  function RenderCode(render: Option<(nat, nat)>): bits
    requires RenderFits(render)
  {
    match render
    case None => [false]
    case Some((width, height)) => [true] + (ToBits(width - 1, 16) + ToBits(height - 1, 16))
  }

  lemma RenderReads(data: seq<byte>, p: nat, end: int, width: nat, height: nat, render: Option<(nat, nat)>)
    requires RenderFits(render) && 1 <= width <= MAX_FRAME_SIZE && 1 <= height <= MAX_FRAME_SIZE
    requires Shows(data, p, RenderCode(render)) && p + |RenderCode(render)| <= end
    ensures var (w, h) := if render.Some? then render.value else (width, height);
            RenderAt(data, p, end, width, height) == Some((w, h, p + |RenderCode(render)|))
  {
    hide Shows, BitAt, Field, ToBits, Pow2;
    if render.None? {
      NothingBehind([false]);
      ShowsFlag(data, p, false, []);
    } else {
      var w, h := ToBits(render.value.0 - 1, 16), ToBits(render.value.1 - 1, 16);
      SixteenBits();
      ShowsFlag(data, p, true, w + h);
      ShowsNumber(data, p + 1, render.value.0 - 1, 16, h);
      NothingBehind(h);
      ShowsNumber(data, p + 17, render.value.1 - 1, 16, []);
    }
  }

  lemma SixteenBits()
    ensures Pow2(16) == 65536
  {
    ShlByte(1);
    PowerOfSum(8, 8);
  }

  predicate SizeFits(size: Sizing, coded: bool, sq: Sequence) {
    && size.Plain? && PlainFits(size.width, size.height, coded, sq) && SuperresFits(size.denom, sq.enableSuperres)
    && RenderFits(size.render)
  }

  /** frame_size() and render_size(). */
  function SizeCode(size: Sizing, coded: bool, sq: Sequence): bits
    requires SizeFits(size, coded, sq)
  {
    PlainCode(size.width, size.height, coded, sq) + (SuperresCode(size.denom, sq.enableSuperres)
                                                     + RenderCode(size.render))
  }

  /** The sizes that are written out: superres shrinks the width; the render size is that of the frame or its own. */
  function SizeOf(size: Sizing): Size
    requires size.Plain? && size.denom > 0
  {
    var (w, h) := if size.render.Some? then size.render.value else (size.width, size.height);
    Size(size.width, SuperresWidth(size.width, size.denom), size.height, w, h)
  }

  lemma SizeReads(data: seq<byte>, p: nat, end: int, size: Sizing, coded: bool, sq: Sequence)
    requires SizeFits(size, coded, sq)
    requires Shows(data, p, SizeCode(size, coded, sq)) && p + |SizeCode(size, coded, sq)| <= end
    ensures SizeAt(data, p, end, sq, coded) == Some((SizeOf(size), p + |SizeCode(size, coded, sq)|))
  {
    hide Shows, PlainFits, SuperresFits, RenderFits, PlainCode, SuperresCode, RenderCode, PlainSizeAt, SuperresAt,
         RenderAt, SuperresWidth;
    var plain, superres, render := PlainCode(size.width, size.height, coded, sq),
        SuperresCode(size.denom, sq.enableSuperres), RenderCode(size.render);
    ShowsParts(data, p, plain, superres + render);
    ShowsParts(data, p + |plain|, superres, render);
    PlainReads(data, p, end, size.width, size.height, coded, sq);
    SuperresReads(data, p + |plain|, end, size.denom, sq.enableSuperres);
    RenderReads(data, p + |plain| + |superres|, end, size.width, size.height, size.render);
  }

  /** The first reference found is that of index found; seven says that none is. */
  lemma {:induction false} FoundReads(data: seq<byte>, p: nat, found: nat, n: nat, rest: bits)
    requires found <= n && Shows(data, p, ZeroBits(found) + ((if found < n then [true] else []) + rest))
    ensures FirstFound(data, p, n) == found && Shows(data, p + found + if found < n then 1 else 0, rest)
    decreases n
  {
    hide Shows, BitAt;
    var tail := (if found < n then [true] else []) + rest;
    if found > 0 {
      assert ZeroBits(found) + tail == [false] + (ZeroBits(found - 1) + tail);
      ShowsFlag(data, p, false, ZeroBits(found - 1) + tail);
      FoundReads(data, p + 1, found - 1, n - 1, rest);
    } else {
      assert ZeroBits(0) + tail == tail;
      if n > 0 {
        ShowsFlag(data, p, true, rest);
      } else {
        assert tail == rest;
      }
    }
  }

  predicate SizingFits(w: Written, sq: Sequence) {
    if w.ByRefs() && w.sizing.FromSlot?
    then w.sizing.found < REFS_PER_FRAME && SuperresFits(w.sizing.denom, sq.enableSuperres)
    else SizeFits(w.sizing, w.override, sq)
  }

  function SizingCode(w: Written, sq: Sequence): bits
    requires SizingFits(w, sq)
  {
    if !w.ByRefs() then SizeCode(w.sizing, w.override, sq)
    else
      match w.sizing
      case FromSlot(found, denom) => ZeroBits(found) + ([true] + SuperresCode(denom, sq.enableSuperres))
      case Plain(_, _, _, _) => ZeroBits(REFS_PER_FRAME) + ([] + SizeCode(w.sizing, w.override, sq))
  }

  /** The sizes of the frame: those written out, or those of the slot found with superres applied anew. */
  function FrameSizeOf(w: Written, slots: seq<RefState>, idx: seq<int>): Size
    requires w.sizing.denom > 0 && |slots| == NUM_REF_FRAMES && Named(idx)
    requires w.sizing.FromSlot? ==> w.sizing.found < REFS_PER_FRAME
    requires w.sizing.FromSlot? ==> slots[idx[w.sizing.found]].size.upscaledWidth >= 0
  {
    match w.sizing
    case FromSlot(found, denom) =>
      var size := slots[idx[found]].size;
      size.(frameWidth := SuperresWidth(size.upscaledWidth, denom))
    case Plain(_, _, _, _) => SizeOf(w.sizing)
  }

  lemma SizingReads(data: seq<byte>, p: nat, end: int, w: Written, sq: Sequence, slots: seq<RefState>, idx: seq<int>)
    requires SizingFits(w, sq) && RefsOk(slots) && Named(idx)
    requires w.sizing.FromSlot? ==> w.ByRefs() && slots[idx[w.sizing.found]].valid
    requires Shows(data, p, SizingCode(w, sq)) && p + |SizingCode(w, sq)| <= end
    ensures var r := if w.ByRefs() then SizeByRefsAt(data, p, end, sq, slots, idx, w.override)
                     else SizeAt(data, p, end, sq, w.override);
            r == Some((FrameSizeOf(w, slots, idx), p + |SizingCode(w, sq)|))
  {
    hide Shows, SizeCode, SuperresCode, SizeAt, SuperresAt, FirstFound, SuperresWidth;
    if !w.ByRefs() {
      SizeReads(data, p, end, w.sizing, w.override, sq);
    } else if w.sizing.FromSlot? {
      FoundReads(data, p, w.sizing.found, REFS_PER_FRAME, SuperresCode(w.sizing.denom, sq.enableSuperres));
      SuperresReads(data, p + w.sizing.found + 1, end, w.sizing.denom, sq.enableSuperres);
    } else {
      FoundReads(data, p, REFS_PER_FRAME, REFS_PER_FRAME, SizeCode(w.sizing, w.override, sq));
      SizeReads(data, p + REFS_PER_FRAME, end, w.sizing, w.override, sq);
    }
  }

  // ----- Tiles and skip mode

  /** The fields of tile_info() without their places. */
  function Unplaced(f: TileFields): TileFields {
    f.(next := 0, tiling := f.tiling.(next := 0))
  }

  function Placed(f: TileFields, tiles: nat, next: nat): TileFields {
    f.(next := next, tiling := f.tiling.(next := tiles))
  }

  lemma PlacedAlike(g: Grid, f: TileFields, tiles: nat, next: nat)
    requires Fits(g) && WritableFields(g, f)
    ensures WritableFields(g, Placed(f, tiles, next)) && Unplaced(Placed(f, tiles, next)) == Unplaced(f)
    ensures TileInfoCode(g, Placed(f, tiles, next)) == TileInfoCode(g, f)
    ensures OptionsCode(Placed(f, tiles, next)) == OptionsCode(f)
  {
    hide LogCode, SizesCode, Codable, UniformSizes, MaxTileHeight, MinLog2Cols, MinLog2Rows, MaxLog2, TileLog2, Widest,
         Fits, Pow2, ToBits;
  }

  lemma TilesRead(data: seq<byte>, p: nat, end: int, g: Grid, f: TileFields)
    requires Fits(g) && WritableFields(g, f) && Shows(data, p, TileInfoCode(g, f))
    requires p + |TileInfoCode(g, f)| + 1 <= end
    ensures var r := TileInfoAt(data, p, end, g);
            r.Some? && Unplaced(r.value) == Unplaced(f) && r.value.next == p + |TileInfoCode(g, f)|
  {
    hide TileInfoAt, OptionsCode, Fits, WritableFields, BitsOf, Unplaced;
    var n := |TileInfoCode(g, f)|;
    OptionsWithin(g, f);
    var f' := Placed(f, p + n - |OptionsCode(f)|, p + n);
    PlacedAlike(g, f, p + n - |OptionsCode(f)|, p + n);
    TileInfoRoundTrip(data, p, end, g, f');
  }

  lemma OptionsWithin(g: Grid, f: TileFields)
    requires Fits(g) && WritableFields(g, f)
    ensures |OptionsCode(f)| <= |TileInfoCode(g, f)|
  {
    hide ColumnsCode, RowsCode, Writable, Fits;
  }

  predicate SkipFits(w: Written, allowed: bool) {
    (w.select ==> w.Inter()) && (w.skip ==> w.select && allowed)
  }

  /** reference_select in inter frames; skip_mode_present when that is set and skip mode is allowed. */
  function SkipCode(w: Written, allowed: bool): bits {
    if !w.Inter() then [] else [w.select] + if w.select && allowed then [w.skip] else []
  }

  lemma SkipReads(data: seq<byte>, p: nat, end: int, w: Written, sq: Sequence, slots: seq<RefState>, idx: seq<int>,
                  orderHint: uint8)
    requires |slots| == NUM_REF_FRAMES && Named(idx)
    requires var allowed := SkipAllowed(sq.hints, slots, idx, orderHint);
             SkipFits(w, allowed) && Shows(data, p, SkipCode(w, allowed)) && p + |SkipCode(w, allowed)| <= end
    ensures SkipAt(data, p, end, sq, !w.Inter(), slots, idx, orderHint)
         == Some((w.select, w.skip, p + |SkipCode(w, SkipAllowed(sq.hints, slots, idx, orderHint))|))
  {
    hide Shows, BitAt, SkipAllowed;
    var allowed := SkipAllowed(sq.hints, slots, idx, orderHint);
    if w.Inter() {
      ShowsFlag(data, p, w.select, if w.select && allowed then [w.skip] else []);
      if w.select && allowed {
        NothingBehind([w.skip]);
        ShowsFlag(data, p + 1, w.skip, []);
      }
    }
  }

  // ----- The whole header

  /** The slots once the fields before references and sizes have done their part. */
  function SlotsOf(w: Written, sq: Sequence, refs: seq<RefState>): (slots: seq<RefState>)
    requires |refs| == NUM_REF_FRAMES
    ensures |slots| == NUM_REF_FRAMES
    ensures forall i :: 0 <= i < NUM_REF_FRAMES ==> slots[i] == SlotAfter(w, sq, refs[i], i)
  {
    seq(NUM_REF_FRAMES, i requires 0 <= i < NUM_REF_FRAMES => SlotAfter(w, sq, refs[i], i))
  }

  lemma SlotsStayOk(w: Written, sq: Sequence, refs: seq<RefState>)
    requires RefsOk(refs)
    ensures RefsOk(SlotsOf(w, sq, refs))
  {
    hide SizeOk;
  }

  /** Everything about the header but its tiles, and what these depend on. */
  ghost predicate FrontFits(w: Written, sq: Sequence, refs: seq<RefState>)
    requires |refs| == NUM_REF_FRAMES
  {
    && StartFits(w, sq) && sq.hints.Valid() && IdsFit(sq, refs) && w.orderHint < 256
    && (w.Inter() ==> ChoiceFits(w.names, sq.hints)) && SizingFits(w, sq) && w.sizing.denom > 0
    && (w.sizing.FromSlot? ==> w.ByRefs() && SlotsOf(w, sq, refs)[IdxOf(w, sq, refs)[w.sizing.found]].valid)
  }

  /** The seven references, and none in an intra frame. */
  ghost function IdxOf(w: Written, sq: Sequence, refs: seq<RefState>): (idx: seq<int>)
    requires |refs| == NUM_REF_FRAMES && w.orderHint < 256 && (w.Inter() ==> ChoiceFits(w.names, sq.hints))
    ensures Named(idx)
  {
    if w.Inter() then NamesOf(w.names, sq.hints, SlotsOf(w, sq, refs), w.orderHint, 0).idx else NO_NAMES
  }

  ghost function FrameOf(w: Written, sq: Sequence, refs: seq<RefState>): (size: Size)
    requires RefsOk(refs) && FrontFits(w, sq, refs)
    ensures SizeOk(size)
  {
    SlotsStayOk(w, sq, refs);
    WrittenSizeOk(w, sq, SlotsOf(w, sq, refs), IdxOf(w, sq, refs));
    FrameSizeOf(w, SlotsOf(w, sq, refs), IdxOf(w, sq, refs))
  }

  lemma WrittenSizeOk(w: Written, sq: Sequence, slots: seq<RefState>, idx: seq<int>)
    requires SizingFits(w, sq) && RefsOk(slots) && Named(idx) && w.sizing.denom > 0
    requires w.sizing.FromSlot? ==> w.ByRefs() && slots[idx[w.sizing.found]].valid
    ensures SizeOk(FrameSizeOf(w, slots, idx))
  {
    hide SuperresWidth;
    SuperresBounds(if w.sizing.Plain? then w.sizing.width else slots[idx[w.sizing.found]].size.upscaledWidth,
                   w.sizing.denom);
  }

  ghost function FrameGrid(w: Written, sq: Sequence, refs: seq<RefState>): (g: Grid)
    requires RefsOk(refs) && FrontFits(w, sq, refs)
    ensures Fits(g)
  {
    var size := FrameOf(w, sq, refs);
    GridFits(size.frameWidth, size.frameHeight, sq.use128);
    GridOf(size.frameWidth, size.frameHeight, sq.use128)
  }

  ghost predicate MaySkip(w: Written, sq: Sequence, refs: seq<RefState>)
    requires RefsOk(refs) && FrontFits(w, sq, refs)
  {
    SkipAllowed(sq.hints, SlotsOf(w, sq, refs), IdxOf(w, sq, refs), w.orderHint)
  }

  /** A header that can be written for these slots. */
  ghost predicate HeaderWritable(w: Written, sq: Sequence, refs: seq<RefState>)
    requires RefsOk(refs)
  {
    FrontFits(w, sq, refs) && WritableFields(FrameGrid(w, sq, refs), w.tiles) && SkipFits(w, MaySkip(w, sq, refs))
  }

  ghost function FrontCode(w: Written, sq: Sequence, refs: seq<RefState>, runs: Runs): bits
    requires RefsOk(refs) && FrontFits(w, sq, refs)
  {
    StartCode(w, sq, runs) + ((if w.Inter() then NamesCode(w.names, sq.hints, runs) else []) + SizingCode(w, sq))
  }

  ghost function BackCode(w: Written, sq: Sequence, refs: seq<RefState>, runs: Runs): bits
    requires RefsOk(refs) && HeaderWritable(w, sq, refs)
  {
    runs(12) + (TileInfoCode(FrameGrid(w, sq, refs), w.tiles) + (runs(13) + (SkipCode(w, MaySkip(w, sq, refs))
                                                                             + runs(14))))
  }

  /** uncompressed_header(): a reduced still picture has no fields for its kind. */
  ghost function HeaderCode(w: Written, sq: Sequence, refs: seq<RefState>, runs: Runs): bits
    requires RefsOk(refs) && HeaderWritable(w, sq, refs)
  {
    (if sq.reducedStill then [] else [false] + KindCode(w, runs))
    + (FrontCode(w, sq, refs, runs) + BackCode(w, sq, refs, runs))
  }

  lemma FrontReads(data: seq<byte>, end: int, gap: Gap, runs: Runs, w: Written, sq: Sequence, kind: Kind,
                   refs: seq<RefState>)
    requires RefsOk(refs) && FrontFits(w, sq, refs) && Reads(gap, runs) && kind == KindOf(w, kind.next)
    requires Shows(data, kind.next, FrontCode(w, sq, refs, runs))
    requires kind.next + |FrontCode(w, sq, refs, runs)| <= end <= 8 * |data|
    ensures w.flags < 256
    ensures var r := FrontAt(data, end, gap, sq, kind, refs);
            && r.Some? && r.value.next == kind.next + |FrontCode(w, sq, refs, runs)|
            && r.value.start == Start(w.id, w.override, w.orderHint, w.flags, SlotsOf(w, sq, refs), r.value.start.next)
            && (r.value.names.Some? <==> w.Inter()) && r.value.Idx() == IdxOf(w, sq, refs)
            && (w.Inter() ==> r.value.names.value.short == ShortOf(w.names))
            && r.value.size == FrameOf(w, sq, refs)
  {
    hide Shows, Reads, StartCode, NamesCode, SizingCode, StartAt, RefsAt, SizeAt, SizeByRefsAt, StartFits, IdsFit,
         ChoiceFits, SizingFits, RefsOk, SlotAfter, FrameSizeOf, Named, DerivedRefs;
    var names := if w.Inter() then NamesCode(w.names, sq.hints, runs) else [];
    var first, sizing := StartCode(w, sq, runs), SizingCode(w, sq);
    ShowsParts(data, kind.next, first, names + sizing);
    HasEight(refs);
    FrontIsKind(w, sq, refs);
    StartReads(data, end, gap, runs, w, sq, kind, refs);
    var start := StartAt(data, end, gap, sq, kind, refs).value;
    assert start.slots == SlotsOf(w, sq, refs);
    SlotsStayOk(w, sq, refs);
    ShowsParts(data, start.next, names, sizing);
    if w.Inter() {
      NamesRead(data, start.next, end, gap, runs, w.names, sq, start);
    }
    SizingReads(data, start.next + |names|, end, w, sq, start.slots, IdxOf(w, sq, refs));
  }

  lemma HasEight(refs: seq<RefState>)
    requires RefsOk(refs)
    ensures |refs| == NUM_REF_FRAMES
  {
  }

  lemma BackReads(data: seq<byte>, end: int, gap: Gap, runs: Runs, w: Written, sq: Sequence, kind: Kind,
                  refs: seq<RefState>, front: Front)
    requires RefsOk(refs) && HeaderWritable(w, sq, refs) && Reads(gap, runs) && kind == KindOf(w, kind.next)
    requires front.start.slots == SlotsOf(w, sq, refs) && front.start.orderHint == w.orderHint
    requires front.size == FrameOf(w, sq, refs) && front.Idx() == IdxOf(w, sq, refs)
    requires Shows(data, front.next, BackCode(w, sq, refs, runs))
    requires front.next + |BackCode(w, sq, refs, runs)| + 1 <= end <= 8 * |data|
    ensures RefsOk(front.start.slots)
    ensures var r := BackAt(data, end, gap, sq, kind, front);
            && r.Some? && Unplaced(r.value.tiles) == Unplaced(w.tiles)
            && r.value == Back(r.value.tiles, w.select, w.skip, front.next + |BackCode(w, sq, refs, runs)|)
  {
    hide Shows, Reads, FrontFits, RefsOk, SizeOk, SkipAllowed, SkipAt, TileInfoAt, TileInfoCode, SkipCode, Unplaced,
         WritableFields, SkipFits, Front.Idx, IdxOf, FrameOf, SlotsOf, GridOf, Fits, Named;
    HasEight(refs);
    FrontIsKind(w, sq, refs);
    SlotsStayOk(w, sq, refs);
    var tiles, skip := TileInfoCode(FrameGrid(w, sq, refs), w.tiles), SkipCode(w, MaySkip(w, sq, refs));
    var behind := runs(13) + (skip + runs(14));
    ReadsRun(gap, runs, 12, data, front.next, tiles + behind);
    var p := front.next + |runs(12)|;
    ShowsParts(data, p, tiles, behind);
    TilesRead(data, p, end, FrameGrid(w, sq, refs), w.tiles);
    ReadsRun(gap, runs, 13, data, p + |tiles|, skip + runs(14));
    var q := p + |tiles| + |runs(13)|;
    ShowsParts(data, q, skip, runs(14));
    SkipReads(data, q, end, w, sq, front.start.slots, front.Idx(), front.start.orderHint);
    NothingBehind(runs(14));
    ReadsRun(gap, runs, 14, data, q + |skip|, []);
  }

  /** What a header read says is what was written. */
  ghost predicate Says(h: Header, w: Written, sq: Sequence, refs: seq<RefState>)
    requires RefsOk(refs) && HeaderWritable(w, sq, refs)
  {
    && h.kind == KindOf(w, h.kind.next) && w.flags < 256
    && h.front.start == Start(w.id, w.override, w.orderHint, w.flags, SlotsOf(w, sq, refs), h.front.start.next)
    && (h.front.names.Some? <==> w.Inter()) && h.front.Idx() == IdxOf(w, sq, refs)
    && (w.Inter() ==> h.front.names.value.short == ShortOf(w.names))
    && h.front.size == FrameOf(w, sq, refs) && Unplaced(h.back.tiles) == Unplaced(w.tiles)
    && h.back.referenceSelect == w.select && h.back.skipModePresent == w.skip
  }

  /**
   * A frame header reads back whatever was written: for every sequence, every content of the slots and every header
   * that can be written for them, in front of at least one more bit.
   */
  lemma HeaderRoundTrip(data: seq<byte>, p: nat, end: int, gap: Gap, runs: Runs, w: Written, s: State)
    requires RefsOk(s.refs) && s.sequence.Some? && HeaderWritable(w, s.sequence.value, s.refs) && Reads(gap, runs)
    requires Shows(data, p, HeaderCode(w, s.sequence.value, s.refs, runs))
    requires p + |HeaderCode(w, s.sequence.value, s.refs, runs)| + 1 <= end <= 8 * |data|
    ensures var r := OpeningAt(data, p, end, gap, s);
            && r.Some? && r.value.Full? && Says(r.value.header, w, s.sequence.value, s.refs)
            && r.value.Next() == p + |HeaderCode(w, s.sequence.value, s.refs, runs)|
  {
    hide Shows, Reads, RefsOk, KindCode, FrontCode, BackCode, KindAt, FrontAt, BackAt, FrontFits, BitAt, SkipFits,
         WritableFields, Unplaced, IdxOf, FrameOf, FrameGrid, MaySkip, SlotsOf;
    var sq := s.sequence.value;
    var front, back := FrontCode(w, sq, s.refs, runs), BackCode(w, sq, s.refs, runs);
    HasEight(s.refs);
    FrontIsKind(w, sq, s.refs);
    var q := p;
    if sq.reducedStill {
      assert [] + (front + back) == front + back;
    } else {
      assert [false] + KindCode(w, runs) + (front + back) == [false] + (KindCode(w, runs) + (front + back));
      ShowsFlag(data, p, false, KindCode(w, runs) + (front + back));
      ShowsParts(data, p + 1, KindCode(w, runs), front + back);
      KindReads(data, p + 1, end, gap, runs, w, sq);
      q := p + 1 + |KindCode(w, runs)|;
    }
    ShowsParts(data, q, front, back);
    var kind := KindOf(w, q);
    FrontReads(data, end, gap, runs, w, sq, kind, s.refs);
    BackReads(data, end, gap, runs, w, sq, kind, s.refs, FrontAt(data, end, gap, sq, kind, s.refs).value);
  }

  lemma FrontIsKind(w: Written, sq: Sequence, refs: seq<RefState>)
    requires |refs| == NUM_REF_FRAMES && FrontFits(w, sq, refs)
    ensures KindFits(w, sq) && w.orderHint < 256
    ensures sq.reducedStill ==> w.frameType == 0 && w.showFrame && !w.resilient
  {
  }

  // ----- The state a header leads to

  /** The flag of slot i is the i-th bit of refresh_frame_flags from its end. */
  lemma RefreshBit(flags: uint8, i: nat)
    requires i < NUM_REF_FRAMES
    ensures Refreshes(flags, i) <==> ToBits(flags, 8)[7 - i]
  {
    hide ToBits, Shr, Shl;
    var b := ToBits(flags, 8);
    ShlByte(1);
    ValueToBits(flags, 8);
    ValueShr(b, i);
    assert b[..8 - i] == b[..7 - i] + [b[7 - i]];
    ValueSnoc(b[..7 - i], b[7 - i]);
  }

  /** A slot after the whole header: the frame, or what the header made of it. */
  ghost function SlotThen(w: Written, sq: Sequence, refs: seq<RefState>, i: nat): RefState
    requires RefsOk(refs) && HeaderWritable(w, sq, refs) && w.flags < 256 && i < NUM_REF_FRAMES
  {
    if ToBits(w.flags, 8)[7 - i] then RefState(true, w.id, FrameOf(w, sq, refs), w.frameType, w.orderHint)
    else SlotAfter(w, sq, refs[i], i)
  }

  /** The state after a header that was written: its sizes, order hint and tiles, and the frame in the slots flagged. */
  lemma HeaderLeads(s: State, h: Header, w: Written)
    requires RefsOk(s.refs) && s.sequence.Some? && HeaderWritable(w, s.sequence.value, s.refs)
    requires Says(h, w, s.sequence.value, s.refs)
    ensures var sq, t := s.sequence.value, WithHeader(s, h);
            && t == s.(size := FrameOf(w, sq, s.refs), orderHint := w.orderHint,
                       tileCols := |w.tiles.tiling.widths|, tileRows := |w.tiles.tiling.heights|, refs := t.refs)
            && |t.refs| == NUM_REF_FRAMES
            && forall i :: 0 <= i < NUM_REF_FRAMES ==> t.refs[i] == SlotThen(w, sq, s.refs, i)
  {
    hide FrameOf, IdxOf, SlotAfter, HeaderWritable, Refreshes, ToBits;
    forall i | 0 <= i < NUM_REF_FRAMES
      ensures Refreshes(w.flags, i) <==> ToBits(w.flags, 8)[7 - i]
    {
      RefreshBit(w.flags, i);
    }
  }

  /**
   * A header that shows the frame of a slot again: it names the slot, a key frame is loaded into every slot, and any
   * other frame changes nothing.
   */
  lemma AgainRoundTrip(data: seq<byte>, p: nat, end: int, gap: Gap, runs: Runs, slot: nat, s: State)
    requires RefsOk(s.refs) && s.sequence.Some? && !s.sequence.value.reducedStill && Reads(gap, runs)
    requires slot < NUM_REF_FRAMES && s.refs[slot].valid
    requires var code := [true] + (ToBits(slot, 3) + runs(0));
             Shows(data, p, code) && p + |code| <= end <= 8 * |data|
    ensures OpeningAt(data, p, end, gap, s) == Some(Again(slot, p + 4 + |runs(0)|))
    ensures var t, shown := WithShown(s, slot), s.refs[slot];
            if shown.frameType == 0
            then && t == s.(size := shown.size, orderHint := shown.orderHint, refs := t.refs)
                 && |t.refs| == NUM_REF_FRAMES && forall i :: 0 <= i < NUM_REF_FRAMES ==> t.refs[i] == shown
            else t == s
  {
    hide Shows, Reads, BitAt, Field, ToBits, Shl;
    SmallPowers();
    NothingBehind(runs(0));
    ShowsFlag(data, p, true, ToBits(slot, 3) + runs(0));
    ShowsNumber(data, p + 1, slot, 3, runs(0));
    ReadsRun(gap, runs, 0, data, p + 4, []);
  }

  // ----- The smallest header

  const SMALL_SEQUENCE := Sequence(false, false, false, 5, 5, 63, 63, HintCoding(false, 0), None)

  /** A shown key frame of 64x64 pixels in one tile. */
  const SMALL_FRAME :=
    Written(0, true, false, true, false, 0, false, 0, 255, [], Listed([]), Plain(64, 64, 8, None),
            TileFields(true, Tiling(0, 0, [0], [0], 0), 0, None, 0), false, false)

  lemma SmallTiles()
    ensures var g := GridOf(64, 64, false); Fits(g) && g == Grid(1, 1, 64, 2304)
    ensures WritableFields(GridOf(64, 64, false), SMALL_FRAME.tiles)
    ensures TileInfoCode(GridOf(64, 64, false), SMALL_FRAME.tiles) == [true]
  {
    hide TileLog2;
    var g := GridOf(64, 64, false);
    TileLog2AtMost(64, 1, 0);
    TileLog2AtMost(1, 1, 0);
    TileLog2AtMost(2304, 1, 0);
    CeilShiftIs(1, 0);
    assert UniformSizes(1, 0) == [0];
  }

  /** Its header has eight bits: not shown again, key frame, shown, no flag set but uniform spacing. */
  lemma SmallHeaderExample()
    ensures HeaderWritable(SMALL_FRAME, SMALL_SEQUENCE, NoRefs())
    ensures HeaderCode(SMALL_FRAME, SMALL_SEQUENCE, NoRefs(), _ => [])
         == [false, false, false, true, false, false, false, true]
  {
    hide TileInfoCode, WritableFields, GridOf, Fits;
    SmallTiles();
    SmallSize();
    assert ToBits(0, 2) == [false, false];
  }

  lemma SmallSize()
    ensures FrontFits(SMALL_FRAME, SMALL_SEQUENCE, NoRefs())
    ensures FrameOf(SMALL_FRAME, SMALL_SEQUENCE, NoRefs()) == Size(64, 64, 64, 64, 64)
  {
  }
}
