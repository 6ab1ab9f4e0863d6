/**
 * The NAL splitter of cbs/h2645.go: findNextStartCode, getNALSize, h2645PacketSplit and h2645AddNALs.
 */
module NalSplit {
  import opened Common
  import opened Powers
  import opened Bits
  import opened BitReading
  import opened Rbsp

  datatype Codec = H264 | H265

  /** Why a unit is listed but never decomposed. */
  datatype Skip = NotSkipped | BadNalHeader | LayerID63 | HevcLayer | Empty

  /** The header fields of a NAL unit, as far as they were parsed. */
  datatype Header = Header(typ: nat, refIDC: nat, layerID: nat, temporalID: nat, skip: Skip)

  datatype NalRec = NalRec(header: Header, offset: nat, prefix: nat, raw: nat, rbsp: seq<byte>, epb: seq<int>)

  /** nalRec as a unit of the fragment. */
  datatype Unit = Unit(header: Header, offset: nat, prefixSize: nat, rawSize: nat, rbsp: seq<byte>, epb: seq<int>)

  const HEVC_NAL_VPS := 32
  const HEVC_NAL_PPS := 34

  // ----- NAL unit headers

  /** Sections 7.3.1 of H.264 and 7.3.1.2 of H.265. */
  ghost function HeaderOf(codec: Codec, rbsp: seq<byte>): Header {
    if BitAt(rbsp, 0) then Header(0, 0, 0, 0, BadNalHeader)
    else match codec
         case H264 => Header(Value(BitsOf(rbsp, 3, 5)), Value(BitsOf(rbsp, 1, 2)), 0, 0, NotSkipped)
         case H265 =>
           var typ, layer, tid := Value(BitsOf(rbsp, 1, 6)), Value(BitsOf(rbsp, 7, 6)), Value(BitsOf(rbsp, 13, 3));
           if tid == 0 then Header(typ, 0, layer, 0, BadNalHeader)
           else Header(typ, 0, layer, tid - 1, if layer == 63 then LayerID63 else NotSkipped)
  }

  /** The H.264 header as arithmetic on its byte. */
  lemma H264HeaderOnBytes(b: seq<byte>)
    requires |b| >= 1
    ensures HeaderOf(H264, b)
         == if b[0] >= 128 then Header(0, 0, 0, 0, BadNalHeader) else Header(b[0] % 32, b[0] / 32, 0, 0, NotSkipped)
  {
    hide BitAt, BitsOf, Value, Shr, Shl;
    SmallPowers();
    SmallShifts(b[0]);
    ByteBit(b, 0, 0);
    ByteField(b, 0, 1, 2);
    ByteField(b, 0, 3, 5);
  }

  lemma H265Fields(b: seq<byte>)
    requires |b| >= 2
    ensures (BitAt(b, 0) <==> b[0] >= 128) && Value(BitsOf(b, 1, 6)) == b[0] / 2 % 64
    ensures Value(BitsOf(b, 13, 3)) == b[1] % 8
  {
    hide BitAt, BitsOf, Value, Shr, Shl;
    SmallPowers();
    SmallShifts(b[0]);
    SmallShifts(b[1]);
    ByteBit(b, 0, 0);
    ByteField(b, 0, 1, 6);
    ByteField(b, 1, 5, 3);
  }

  lemma LayerField(b: seq<byte>)
    requires |b| >= 2
    ensures Value(BitsOf(b, 7, 6)) == 32 * (b[0] % 2) + b[1] / 8
  {
    hide BitAt, BitsOf, Value, Shr, Shl;
    SmallPowers();
    SmallShifts(b[0]);
    SmallShifts(b[1]);
    ByteField(b, 0, 7, 1);
    ByteField(b, 1, 0, 5);
    BitsOfSplit(b, 7, 1, 5);
    ValueConcat(BitsOf(b, 7, 1), BitsOf(b, 8, 5));
    ShlIsProduct(Value(BitsOf(b, 7, 1)), 5);
  }

  /** The H.265 header as arithmetic on its two bytes: type, layer, and the temporal id plus one. */
  lemma H265HeaderOnBytes(b: seq<byte>)
    requires |b| >= 2
    ensures var typ, layer, tid := b[0] / 2, 32 * (b[0] % 2) + b[1] / 8, b[1] % 8;
            HeaderOf(H265, b)
            == if b[0] >= 128 then Header(0, 0, 0, 0, BadNalHeader)
               else if tid == 0 then Header(typ, 0, layer, 0, BadNalHeader)
               else Header(typ, 0, layer, tid - 1, if layer == 63 then LayerID63 else NotSkipped)
  {
    hide BitAt, BitsOf, Value;
    H265Fields(b);
    LayerField(b);
  }

  /** A header of one byte is bad: its temporal id plus one reads as zero. */
  lemma H265HeaderTooShort(b: seq<byte>)
    requires |b| < 2
    ensures HeaderOf(H265, b).skip == BadNalHeader
  {
    hide BitAt, BitsOf, Value;
    BitsPastEnd(b, 13, 3);
    ValueZeros(3);
  }

  method ParseNALHeader(codec: Codec, rbsp: seq<byte>) returns (header: Header)
    ensures header == HeaderOf(codec, rbsp)
  {
    var hr := new BitReader(rbsp);
    var forbidden := hr.GetBit();
    if forbidden != 0 {
      return Header(0, 0, 0, 0, BadNalHeader);
    }
    match codec {
      case H264 =>
        var refIDC := hr.GetBits(2);
        var typ := hr.GetBits(5);
        return Header(typ, refIDC, 0, 0, NotSkipped);
      case H265 =>
        var typ := hr.GetBits(6);
        var layerID := hr.GetBits(6);
        var tid: int;
        tid := hr.GetBits(3);
        tid := tid - 1;
        if tid < 0 {
          return Header(typ, 0, layerID, 0, BadNalHeader);
        }
        return Header(typ, 0, layerID, tid, if layerID == 63 then LayerID63 else NotSkipped);
    }
  }

  // ----- One step of the splitter

  /** The slice buf[a..b], by its elements. */
  function Window(buf: seq<byte>, a: nat, b: nat): (w: seq<byte>)
    requires a <= b <= |buf|
    ensures |w| == b - a
    ensures forall k :: 0 <= k < |w| ==> w[k] == buf[a + k]
  {
    seq(b - a, k requires 0 <= k < b - a => buf[a + k])
  }

  lemma WindowPrefix(buf: seq<byte>, a: nat, b: nat, n: nat)
    requires a <= a + n <= b <= |buf|
    ensures Window(buf, a, b)[..n] == Window(buf, a, a + n)
  {
  }

  lemma WindowIsSlice(buf: seq<byte>, a: nat, b: nat)
    requires a <= b <= |buf|
    ensures Window(buf, a, b) == buf[a..b]
  {
  }

  /** Bytes to skip to get past the next start code of s; all of s when none ends before its last byte. */
  function StartSkip(s: seq<byte>): nat {
    Min(FirstHit(s, 0, 1, 1) + 3, |s|)
  }

  method FindNextStartCode(buf: seq<byte>, avail: nat) returns (skip: nat)
    requires avail <= |buf|
    ensures skip == StartSkip(buf[..avail])
  {
    ghost var s := buf[..avail];
    FirstHitSpec(s, 0, 1, 1);
    if avail <= 3 {
      return avail;
    }
    var i: nat := 0;
    while i + 3 < avail
      invariant i + 3 <= avail && NoHit(s, 0, i, 1, 1)
    {
      if buf[i] == 0 && buf[i + 1] == 0 && buf[i + 2] == 1 {
        FirstHitIs(s, 0, i, 1, 1);
        return i + 3;
      }
      i := i + 1;
    }
    return i + 3;
  }

  /** The number that n bytes write, most significant first. */
  function BigEndian(buf: seq<byte>, n: nat): nat
    requires n <= |buf|
  {
    if n == 0 then 0 else Shl(BigEndian(buf, n - 1), 8) + buf[n - 1]
  }

  /** The size of the length-prefixed NAL unit that starts buf, if the buffer can hold it. */
  function NalSize(buf: seq<byte>, nalLengthSize: nat): Result<nat> {
    if |buf| <= nalLengthSize then Err
    else if 0 < BigEndian(buf, nalLengthSize) <= |buf| - nalLengthSize then Ok(BigEndian(buf, nalLengthSize))
    else Err
  }

  method GetNALSize(nalLengthSize: nat, buf: seq<byte>) returns (size: Result<nat>)
    ensures size == NalSize(buf, nalLengthSize)
  {
    if 0 >= |buf| - nalLengthSize {
      return Err;
    }
    var nalsize := 0;
    var i := 0;
    while i < nalLengthSize
      invariant 0 <= i <= nalLengthSize && nalsize == BigEndian(buf, i)
    {
      nalsize := Shl(nalsize, 8) + buf[i];
      i := i + 1;
    }
    if nalsize <= 0 || nalsize > |buf| - nalLengthSize {
      return Err;
    }
    return Ok(nalsize);
  }

  /** What the splitter finds at pos: the end, bytes to skip up to next, or a unit in buf[start..next]. */
  datatype Step = Stop(ok: bool) | Resync | Nal(start: nat, prefix: nat, next: nat)

  function NextStep(buf: seq<byte>, nalLengthSize: nat, pos: nat, next: nat, found: bool): (step: Step)
    requires pos <= next <= |buf|
    ensures step.Resync? ==> pos < next
    ensures step.Nal? ==> pos < step.start < step.next <= |buf| && next <= step.next && step.prefix == step.start - pos
  {
    if |buf| - pos < 4 then Stop(true)
    else if pos == next then
      match NalSize(Window(buf, pos, |buf|), nalLengthSize)
      case Err => Stop(false)
      case Ok(size) => Nal(pos + nalLengthSize, nalLengthSize, pos + nalLengthSize + size)
    else
      var skip := StartSkip(Window(buf, pos, next));
      if pos + skip == |buf| then Stop(found)
      else if pos + skip == next then Resync
      else Nal(pos + skip, skip, next)
  }

  /** The unit in buf[start..next], extracted. */
  ghost function RecordOf(buf: seq<byte>, codec: Codec, start: nat, prefix: nat, next: nat): (r: NalRec)
    requires start <= next <= |buf|
    ensures r.offset == start && r.prefix == prefix && r.raw <= next - start
  {
    var src := Window(buf, start, next);
    var n := Consumed(src);
    var rbsp := Unescape(src, n);
    NalRec(HeaderOf(codec, rbsp), start, prefix, n, rbsp, Epbs(src, n))
  }

  /** All records from pos on, after those in nals, and whether the fragment was accepted. */
  ghost function SplitFrom(buf: seq<byte>, codec: Codec, nalLengthSize: nat, pos: nat, next: nat, nals: seq<NalRec>)
    : (seq<NalRec>, bool)
    requires pos <= next <= |buf|
    decreases |buf| - pos
  {
    match NextStep(buf, nalLengthSize, pos, next, nals != [])
    case Stop(ok) => (nals, ok)
    case Resync => SplitFrom(buf, codec, nalLengthSize, next, next, nals)
    case Nal(start, prefix, next') =>
      var rec := RecordOf(buf, codec, start, prefix, next');
      SplitFrom(buf, codec, nalLengthSize, start + rec.raw, next', Collect(nals, rec))
  }

  /** A unit that is empty or all zeros is dropped before its header is looked at. */
  ghost function Collect(nals: seq<NalRec>, rec: NalRec): seq<NalRec> {
    if StrippedLength(rec.rbsp) == 0 then nals else nals + [rec]
  }

  /** Splitting a whole buffer, in length-prefixed mode or by start codes. */
  ghost function Split(buf: seq<byte>, codec: Codec, nalLengthSize: nat, isNALFF: bool): (seq<NalRec>, bool) {
    SplitFrom(buf, codec, nalLengthSize, 0, if isNALFF then 0 else |buf|, [])
  }

  // ----- The source's loop

  method StripTrailingZeros(rbsp: seq<byte>) returns (size: nat)
    ensures size == StrippedLength(rbsp)
  {
    size := |rbsp|;
    while size > 0 && rbsp[size - 1] == 0
      invariant size <= |rbsp|
      invariant forall i :: size <= i < |rbsp| ==> rbsp[i] == 0
    {
      size := size - 1;
    }
    StrippedLengthUnique(rbsp, size);
  }

  /**
   * The first half of the loop body: where the next unit starts and the most it can hold. resynced
   * records the warning "exceeded next NALFF position".
   */
  method FindUnit(buf: seq<byte>, nalLengthSize: nat, at: nat, nextAVC: nat, found: bool)
    returns (step: Step, resynced: bool)
    requires at <= nextAVC <= |buf| && |buf| - at >= 4
    ensures step == NextStep(buf, nalLengthSize, at, nextAVC, found)
    ensures !resynced
  {
    var pos := at;
    var length := |buf|;
    resynced := false;
    if pos == nextAVC {
      assert buf[pos..] == Window(buf, pos, length);
      var nalsize := GetNALSize(nalLengthSize, buf[pos..]);
      if nalsize.Err? {
        return Stop(false), resynced;
      }
      return Nal(pos + nalLengthSize, nalLengthSize, pos + nalLengthSize + nalsize.value), resynced;
    }
    if pos > nextAVC {
      resynced := true;
    }
    assert buf[pos..][..nextAVC - pos] == Window(buf, pos, nextAVC);
    var bufIndex := FindNextStartCode(buf[pos..], nextAVC - pos);
    pos := pos + bufIndex;
    if pos > length {
      pos := length;
    }
    if length - pos == 0 {
      return Stop(found), resynced;
    }
    if pos >= nextAVC {
      return Resync, resynced;
    }
    return Nal(pos, bufIndex, pos + Min(length - pos, nextAVC - pos)), resynced;
  }

  /** The second half: extract the unit and, unless it is all zeros, parse its header and list it. */
  method ReadUnit(buf: seq<byte>, codec: Codec, start: nat, prefix: nat, next: nat, nals: seq<NalRec>)
    returns (listed: seq<NalRec>, consumed: nat)
    requires start <= next <= |buf|
    ensures listed == Collect(nals, RecordOf(buf, codec, start, prefix, next))
    ensures consumed == RecordOf(buf, codec, start, prefix, next).raw
  {
    WindowIsSlice(buf, start, next);
    var rbsp, epb;
    rbsp, epb, consumed := ExtractRBSP(buf[start..next]);
    var stripped := StripTrailingZeros(rbsp);
    if |rbsp| == 0 || stripped == 0 {
      return nals, consumed;
    }
    var header := ParseNALHeader(codec, rbsp);
    listed := nals + [NalRec(header, start, prefix, consumed, rbsp, epb)];
  }

  /**
   * h2645PacketSplit. It ends on every buffer, each round getting closer to the end, and never runs past
   * the end of a length-prefixed unit: the re-syncing warning is unreachable.
   */
  method PacketSplit(buf: seq<byte>, codec: Codec, nalLengthSize: nat, isNALFF: bool)
    returns (nals: seq<NalRec>, ok: bool, resynced: bool)
    ensures (nals, ok) == Split(buf, codec, nalLengthSize, isNALFF)
    ensures !resynced
  {
    hide NextStep, RecordOf, Collect;
    nals, resynced := [], false;
    var length := |buf|;
    var pos: nat := 0;
    var nextAVC: nat := if isNALFF then 0 else length;
    while length - pos >= 4
      invariant pos <= nextAVC <= length && !resynced
      invariant SplitFrom(buf, codec, nalLengthSize, pos, nextAVC, nals) == Split(buf, codec, nalLengthSize, isNALFF)
      decreases length - pos
    {
      var step, warned := FindUnit(buf, nalLengthSize, pos, nextAVC, nals != []);
      resynced := resynced || warned;
      match step {
        case Stop(accepted) =>
          return nals, accepted, resynced;
        case Resync =>
          // no unit is left before the next length field
          pos := nextAVC;
        case Nal(start, prefix, next) =>
          var consumed;
          nals, consumed := ReadUnit(buf, codec, start, prefix, next, nals);
          pos, nextAVC := start + consumed, next;
      }
    }
    ShortTail(buf, nalLengthSize, pos, nextAVC, nals != []);
    return nals, true, resynced;
  }

  lemma ShortTail(buf: seq<byte>, nalLengthSize: nat, pos: nat, next: nat, found: bool)
    requires pos <= next <= |buf| && |buf| - pos < 4
    ensures NextStep(buf, nalLengthSize, pos, next, found) == Stop(true)
  {
  }

  // ----- Units of the fragment

  /** HEVC units of a higher layer other than parameter sets are skipped. */
  predicate LayerFiltered(codec: Codec, header: Header) {
    codec == H265 && header.layerID > 0 && (header.typ < HEVC_NAL_VPS || header.typ > HEVC_NAL_PPS)
  }

  /** The unit a record becomes: filtered, empty, or with its trailing zeros removed. */
  function UnitOf(codec: Codec, nal: NalRec, baseOffset: nat): Unit {
    var unit := Unit(nal.header, baseOffset + nal.offset, nal.prefix, nal.raw, nal.rbsp, nal.epb);
    var size := StrippedLength(nal.rbsp);
    if nal.header.skip != NotSkipped then unit
    else if LayerFiltered(codec, nal.header) then unit.(header := nal.header.(skip := HevcLayer))
    else if size == 0 then unit.(header := nal.header.(skip := Empty))
    else unit.(rbsp := nal.rbsp[..size])
  }

  /**
   * A unit of H.265 whose header is fine but of a higher layer is marked and kept as it is, unless it is of type 32, 33
   * or 34. Of all other units with a fine header the trailing zeros are removed. A skipped unit stays as it is.
   */
  lemma LayersFiltered(nal: NalRec, baseOffset: nat)
    ensures var h, unit := nal.header, UnitOf(H265, nal, baseOffset);
            && unit.offset == baseOffset + nal.offset && unit.prefixSize == nal.prefix && unit.rawSize == nal.raw
            && unit.epb == nal.epb && unit.header.(skip := h.skip) == h
            && (h.skip != NotSkipped ==> unit.header == h && unit.rbsp == nal.rbsp)
            && (h.skip == NotSkipped && h.layerID > 0 && h.typ !in {32, 33, 34} ==>
                  unit.header.skip == HevcLayer && unit.rbsp == nal.rbsp)
            && (h.skip == NotSkipped && (h.layerID == 0 || h.typ in {32, 33, 34}) ==>
                  if forall k :: 0 <= k < |nal.rbsp| ==> nal.rbsp[k] == 0 then unit.header.skip == Empty
                  else && unit.header == h && unit.rbsp <= nal.rbsp && unit.rbsp != []
                       && unit.rbsp[|unit.rbsp| - 1] != 0
                       && forall k :: |unit.rbsp| <= k < |nal.rbsp| ==> nal.rbsp[k] == 0)
  {
  }

  /** The units of the first n records. */
  function UnitsOf(codec: Codec, nals: seq<NalRec>, n: nat, baseOffset: nat): (units: seq<Unit>)
    requires n <= |nals|
    ensures |units| == n
  {
    if n == 0 then [] else UnitsOf(codec, nals, n - 1, baseOffset) + [UnitOf(codec, nals[n - 1], baseOffset)]
  }

  /** h2645AddNALs: appends a unit for every record, in order. */
  method AddNALs(before: seq<Unit>, codec: Codec, nals: seq<NalRec>, baseOffset: nat) returns (units: seq<Unit>)
    ensures units == before + UnitsOf(codec, nals, |nals|, baseOffset)
  {
    units := before;
    var i := 0;
    while i < |nals|
      invariant 0 <= i <= |nals|
      invariant units == before + UnitsOf(codec, nals, i, baseOffset)
    {
      var nal := nals[i];
      var unit := Unit(nal.header, baseOffset + nal.offset, nal.prefix, nal.raw, nal.rbsp, nal.epb);
      if unit.header.skip == NotSkipped {
        if LayerFiltered(codec, nal.header) {
          unit := unit.(header := nal.header.(skip := HevcLayer));
        } else {
          var size := StripTrailingZeros(nal.rbsp);
          if size == 0 {
            unit := unit.(header := nal.header.(skip := Empty));
          } else {
            unit := unit.(rbsp := nal.rbsp[..size]);
          }
        }
      }
      assert unit == UnitOf(codec, nal, baseOffset);
      units := units + [unit];
      i := i + 1;
    }
  }

  // ----- What every buffer's records satisfy

  /** rec lies in buf[from..] behind its prefix, and was extracted from there. */
  ghost predicate Placed(buf: seq<byte>, codec: Codec, from: nat, rec: NalRec) {
    && from + rec.prefix <= rec.offset
    && exists next :: rec.offset <= next <= |buf| && rec == RecordOf(buf, codec, rec.offset, rec.prefix, next)
  }

  ghost function EndOf(nals: seq<NalRec>, n: nat): nat
    requires n <= |nals|
  {
    if n == 0 then 0 else nals[n - 1].offset + nals[n - 1].raw
  }

  /** The records do not overlap and come in the order of the buffer. */
  ghost predicate InOrder(buf: seq<byte>, codec: Codec, nals: seq<NalRec>) {
    forall i :: 0 <= i < |nals| ==> Placed(buf, codec, EndOf(nals, i), nals[i])
  }

  lemma CollectKeepsOrder(buf: seq<byte>, codec: Codec, nals: seq<NalRec>, rec: NalRec)
    requires InOrder(buf, codec, nals) && Placed(buf, codec, EndOf(nals, |nals|), rec)
    ensures var nals' := Collect(nals, rec);
            InOrder(buf, codec, nals') && EndOf(nals', |nals'|) <= rec.offset + rec.raw
  {
    hide Placed, StrippedLength;
    var nals' := Collect(nals, rec);
    forall i | 0 <= i < |nals|
      ensures EndOf(nals', i) == EndOf(nals, i)
    {
    }
    assert Placed(buf, codec, EndOf(nals, |nals|), rec) ==> EndOf(nals, |nals|) <= rec.offset + rec.raw by {
      PlacedAfter(buf, codec, EndOf(nals, |nals|), rec);
    }
  }

  lemma PlacedAfter(buf: seq<byte>, codec: Codec, from: nat, rec: NalRec)
    ensures Placed(buf, codec, from, rec) ==> from <= rec.offset + rec.raw
  {
  }

  lemma UnitKeepsOrder(buf: seq<byte>, codec: Codec, nals: seq<NalRec>, start: nat, prefix: nat, next: nat)
    requires InOrder(buf, codec, nals) && EndOf(nals, |nals|) + prefix <= start <= next <= |buf|
    ensures var rec := RecordOf(buf, codec, start, prefix, next);
            var nals' := Collect(nals, rec);
            InOrder(buf, codec, nals') && EndOf(nals', |nals'|) <= start + rec.raw <= |buf|
  {
    hide RecordOf, InOrder, EndOf, Collect;
    CollectKeepsOrder(buf, codec, nals, RecordOf(buf, codec, start, prefix, next));
  }

  lemma {:induction false} SplitFromInOrder(buf: seq<byte>, codec: Codec, nalLengthSize: nat, pos: nat, next: nat,
                                            nals: seq<NalRec>)
    requires pos <= next <= |buf| && InOrder(buf, codec, nals) && EndOf(nals, |nals|) <= pos
    ensures InOrder(buf, codec, SplitFrom(buf, codec, nalLengthSize, pos, next, nals).0)
    decreases |buf| - pos
  {
    hide NextStep, RecordOf, Collect, InOrder, EndOf;
    match NextStep(buf, nalLengthSize, pos, next, nals != []) {
      case Stop(ok) =>
      case Resync =>
        SplitFromInOrder(buf, codec, nalLengthSize, next, next, nals);
      case Nal(start, prefix, next') =>
        var rec := RecordOf(buf, codec, start, prefix, next');
        UnitKeepsOrder(buf, codec, nals, start, prefix, next');
        SplitFromInOrder(buf, codec, nalLengthSize, start + rec.raw, next', Collect(nals, rec));
    }
  }

  /** rec holds exactly the bytes it consumed: with the 03 bytes put back, it rebuilds them. */
  ghost predicate Faithful(buf: seq<byte>, rec: NalRec) {
    && rec.offset + rec.raw <= |buf|
    && Reinsert(rec.rbsp, rec.epb) == Window(buf, rec.offset, rec.offset + rec.raw)
    && MarksZeroPairs(rec.rbsp, rec.epb)
  }

  lemma RecordIsFaithful(buf: seq<byte>, codec: Codec, start: nat, prefix: nat, next: nat)
    requires start <= next <= |buf|
    ensures Faithful(buf, RecordOf(buf, codec, start, prefix, next))
  {
    var src := Window(buf, start, next);
    ExtractionIsLossless(src);
    WindowPrefix(buf, start, next, Consumed(src));
  }

  /**
   * On every buffer, in both modes and for both codecs: the records come in order, do not overlap, and
   * each rebuilds its own bytes of the buffer.
   */
  lemma SplitIsFaithful(buf: seq<byte>, codec: Codec, nalLengthSize: nat, isNALFF: bool)
    ensures var nals := Split(buf, codec, nalLengthSize, isNALFF).0;
            forall i :: 0 <= i < |nals| ==> EndOf(nals, i) + nals[i].prefix <= nals[i].offset && Faithful(buf, nals[i])
  {
    hide RecordOf, SplitFrom, Faithful;
    var nals := Split(buf, codec, nalLengthSize, isNALFF).0;
    SplitFromInOrder(buf, codec, nalLengthSize, 0, if isNALFF then 0 else |buf|, []);
    forall i | 0 <= i < |nals|
      ensures EndOf(nals, i) + nals[i].prefix <= nals[i].offset && Faithful(buf, nals[i])
    {
      assert Placed(buf, codec, EndOf(nals, i), nals[i]);
      var next :| nals[i].offset <= next <= |buf| &&
      nals[i] == RecordOf(buf, codec, nals[i].offset, nals[i].prefix, next);
      RecordIsFaithful(buf, codec, nals[i].offset, nals[i].prefix, next);
    }
  }
}
