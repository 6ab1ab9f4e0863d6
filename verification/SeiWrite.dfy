/** SEI NAL units: sei() of cbs/h264_syntax.go, a writer for them, and round trips. */
module SeiWrite {
  import opened Common
  import opened Powers
  import opened Bits
  import opened BitReading
  import opened Fields
  import opened Leb128
  import opened Sei
  import opened NalSplit
  import opened AnnexB

  // ----- The reader

  /** The messages of an SEI NAL unit; nothing when it is refused. */
  ghost function SeiOf(rbsp: seq<byte>, describe: Descriptors): Option<seq<Message>> {
    if |rbsp| == 0 || BitAt(rbsp, 0) || Field(rbsp, 3, 5) != NAL_SEI then None
    else
      match MessagesFrom(rbsp, 8, describe, [])
      case None => None
      case Some((messages, q)) => if q + 8 <= 8 * |rbsp| && ByteFrom(rbsp, q) == 128 then Some(messages) else None
  }

  /** nalUnitHeader for SEI. */
  method NalUnitHeader(r: BitReader) returns (ok: bool)
    requires r.pos == 0 && r.end == 8 * |r.data|
    modifies r`pos
    ensures ok <==> |r.data| > 0 && !BitAt(r.data, 0) && Field(r.data, 3, 5) == NAL_SEI
    ensures ok ==> r.pos == 8
  {
    hide BitAt, Field;
    OneBitField(r.data, 0);
    ok := ReadFixed(r, 1, 0);
    if !ok {
      return;
    }
    var refIdc := ReadBits(r, 2);
    var typ := ReadBits(r, 5);
    return refIdc.Ok? && typ.Ok? && typ.value == NAL_SEI;
  }

  /** sei(): on data that end in a nonzero byte, as the splitter leaves them, success means that every bit was read. */
  method ReadSei(rbsp: seq<byte>, describe: Descriptors) returns (messages: Option<seq<Message>>, endPos: nat)
    requires forall typ: nat :: describe(typ).Some? ==> Within(describe(typ).value)
    ensures messages == SeiOf(rbsp, describe)
    ensures messages.Some? && rbsp[|rbsp| - 1] != 0 ==> endPos == 8 * |rbsp|
  {
    hide BitAt, Field, MessagesFrom, ByteFrom, TrailsAt;
    var r := new BitReader(rbsp);
    endPos := 0;
    var ok := NalUnitHeader(r);
    if !ok {
      return None, endPos;
    }
    messages := SeiMessageList(r, describe);
    if messages.None? {
      return None, endPos;
    }
    ghost var q := r.pos;
    TrailsByte(rbsp, q);
    ok := RbspTrailingBits(r);
    endPos := r.pos;
    if !ok {
      return None, endPos;
    }
  }

  // ----- The writer

  datatype RawMessage = RawMessage(typ: uint32, payload: seq<byte>)

  /** ff_byte for every 255, then the rest. */
  function FfBytes(v: nat): (s: seq<byte>)
    ensures |s| > 0
  {
    if v >= 255 then [255] + FfBytes(v - 255) else [v]
  }

  function MessageBytes(m: RawMessage): seq<byte> {
    FfBytes(m.typ) + (FfBytes(|m.payload|) + m.payload)
  }

  /** The messages from i on, and the stop bit. */
  function ListBytes(messages: seq<RawMessage>, i: nat): (s: seq<byte>)
    requires i <= |messages|
    ensures |s| > 0
    decreases |messages| - i
  {
    if i == |messages| then [128] else MessageBytes(messages[i]) + ListBytes(messages, i + 1)
  }

  function SeiHeader(refIdc: nat): (b: bits)
    ensures |b| == 8
  {
    [false] + ToBits(refIdc, 2) + ToBits(NAL_SEI, 5)
  }

  /** An SEI NAL unit. */
  function SeiBytes(refIdc: nat, messages: seq<RawMessage>): seq<byte> {
    [ByteOf(SeiHeader(refIdc))] + ListBytes(messages, 0)
  }

  /** Messages that a writer can write and that no descriptor claims. */
  ghost predicate Plain(messages: seq<RawMessage>, describe: Descriptors) {
    forall m :: m in messages ==> describe(m.typ).None? && |m.payload| < TWO_TO_THE_32
  }

  // ----- Reading what was written

  lemma {:induction false} FfInverts(data: seq<byte>, k: nat, v: nat)
    requires HoldsAt(data, k, FfBytes(v))
    ensures FfCoded(data, 8 * k, 8 * |data|) == Some((v, 8 * (k + |FfBytes(v)|)))
    decreases v
  {
    hide ByteFrom;
    ByteFromAligned(data, k);
    if v >= 255 {
      assert data[k] == FfBytes(v)[0] == 255;
      HoldsParts(data, k, [255], FfBytes(v - 255));
      FfInverts(data, k + 1, v - 255);
      assert 8 * (k + 1) == 8 * k + 8;
    } else {
      assert data[k] == FfBytes(v)[0] == v;
    }
  }

  lemma CountInverts(data: seq<byte>, k: nat, v: uint32)
    requires HoldsAt(data, k, FfBytes(v))
    ensures Counted(0, FfCoded(data, 8 * k, 8 * |data|)) == Some((v, 8 * (k + |FfBytes(v)|)))
  {
    hide FfCoded;
    FfInverts(data, k, v);
  }

  /** A written message with something behind it is read back. */
  lemma MessageInverts(data: seq<byte>, k: nat, m: RawMessage, describe: Descriptors)
    requires HoldsAt(data, k, MessageBytes(m)) && k + |MessageBytes(m)| < |data|
    requires describe(m.typ).None? && |m.payload| < TWO_TO_THE_32
    ensures NextMessage(data, 8 * k, describe)
         == Some((Message(m.typ, |m.payload|, 0, [], Some(m.payload)), 8 * (k + |MessageBytes(m)|)))
  {
    hide FfCoded, Counted, FfBytes;
    var a, b := FfBytes(m.typ), FfBytes(|m.payload|);
    HoldsParts(data, k, a, b + m.payload);
    HoldsParts(data, k + |a|, b, m.payload);
    CountInverts(data, k, m.typ);
    CountInverts(data, k + |a|, |m.payload|);
    var at := k + |a| + |b|;
    assert data[at..at + |m.payload|] == m.payload;
    assert 8 * at / 8 == at;
  }

  lemma {:induction false} ListLength(messages: seq<RawMessage>, i: nat)
    requires i < |messages|
    ensures |ListBytes(messages, i)| >= 3
  {
  }

  /** Between two messages there is more; behind the last one there is only the stop bit. */
  lemma MoreUntilStop(data: seq<byte>, k: nat, messages: seq<RawMessage>, i: nat)
    requires i <= |messages| && HoldsAt(data, k, ListBytes(messages, i)) && k + |ListBytes(messages, i)| == |data|
    ensures MoreAt(data, 8 * k) <==> i < |messages|
  {
    hide BitAt;
    if i < |messages| {
      ListLength(messages, i);
    } else {
      StopByte(data, k);
      ByteFromAligned(data, k);
    }
  }

  ghost predicate Read(list: seq<Message>, messages: seq<RawMessage>, n: nat)
    requires n <= |messages|
  {
    |list| == n && forall i :: 0 <= i < n ==> IsMessage(list[i], messages[i])
  }

  ghost predicate IsMessage(m: Message, w: RawMessage) {
    m.payloadType == w.typ && m.payloadSize == |w.payload| && m.extensionBitLength == 0 && m.raw == Some(w.payload)
  }

  lemma {:induction false} ListInverts(data: seq<byte>, k: nat, messages: seq<RawMessage>, i: nat,
                                       describe: Descriptors, list: seq<Message>)
    requires i < |messages| && Plain(messages, describe) && Read(list, messages, i)
    requires HoldsAt(data, k, ListBytes(messages, i)) && k + |ListBytes(messages, i)| == |data|
    ensures var r := MessagesFrom(data, 8 * k, describe, list);
            r.Some? && Read(r.value.0, messages, |messages|) && r.value.1 == 8 * |data| - 8 && data[|data| - 1] == 128
    decreases |messages| - i
  {
    hide NextMessage, MoreAt, MessageBytes, HoldsAt;
    var m, rest := messages[i], ListBytes(messages, i + 1);
    var next := k + |MessageBytes(m)|;
    assert m in messages;
    HoldsParts(data, k, MessageBytes(m), rest);
    MessageInverts(data, k, m, describe);
    MoreUntilStop(data, next, messages, i + 1);
    if i + 1 < |messages| {
      ListInverts(data, next, messages, i + 1, describe, list + [Message(m.typ, |m.payload|, 0, [], Some(m.payload))]);
    } else {
      StopHeld(data, next);
    }
  }

  lemma StopHeld(data: seq<byte>, k: nat)
    requires HoldsAt(data, k, [128]) && k + 1 == |data|
    ensures data[|data| - 1] == 128
  {
    assert data[k] == [128 as byte][0];
  }

  lemma HeaderRead(refIdc: nat, data: seq<byte>)
    requires refIdc < 4 && |data| > 0 && data[0] == ByteOf(SeiHeader(refIdc))
    ensures !BitAt(data, 0) && Field(data, 3, 5) == NAL_SEI
  {
    hide ToBits, Value, BitsOf, BitAt, ByteOf;
    var b := SeiHeader(refIdc);
    ShownBit(data, 0, b, 0);
    ShownByte(data, 0, b, 3, 5);
    assert b[3..8] == ToBits(NAL_SEI, 5);
    FiveBits();
  }

  lemma FiveBits()
    ensures Value(ToBits(NAL_SEI, 5)) == NAL_SEI
  {
    hide ToBits, Value;
    ShlFour(1);
    assert Pow2(5) == Pow2(4) + Pow2(4);
    ValueToBits(NAL_SEI, 5);
  }

  /** The header byte of an SEI unit, of type 6. */
  lemma SeiByte(data: seq<byte>)
    requires |data| > 0 && !BitAt(data, 0) && Field(data, 3, 5) == NAL_SEI
    ensures data[0] % 32 == 6 && data[0] < 128
  {
    hide BitAt, BitsOf, Value, Shr, Shl;
    SmallPowers();
    SmallShifts(data[0]);
    ByteBit(data, 0, 0);
    ByteField(data, 0, 3, 5);
  }

  /** Any nonempty list of messages without a syntax of their own, written as an SEI NAL unit, is read back. */
  lemma SeiRoundTrip(refIdc: nat, messages: seq<RawMessage>, describe: Descriptors)
    requires refIdc < 4 && |messages| > 0 && Plain(messages, describe)
    ensures var list := SeiOf(SeiBytes(refIdc, messages), describe);
            list.Some? && Read(list.value, messages, |messages|)
    ensures var s := SeiBytes(refIdc, messages);
            Listed(H264, s) && s[|s| - 1] == 128 && s[0] < 128 && s[0] % 32 == 6
  {
    hide BitAt, Field, MessagesFrom, ByteFrom, ByteOf, ListBytes, SeiHeader, IsMessage, Plain, HeaderOf;
    var data := SeiBytes(refIdc, messages);
    assert HoldsAt(data, 0, data);
    HoldsParts(data, 0, [ByteOf(SeiHeader(refIdc))], ListBytes(messages, 0));
    HeaderRead(refIdc, data);
    SeiByte(data);
    ListInverts(data, 1, messages, 0, describe, []);
    ByteFromAligned(data, |data| - 1);
    H264Listed(data);
  }

  // ----- From messages through a byte stream and back

  /** The SEI NAL units that carry each of the lists. */
  function SeiUnits(lists: seq<seq<RawMessage>>): (units: seq<seq<byte>>)
    ensures |units| == |lists|
    ensures forall i :: 0 <= i < |lists| ==> units[i] == SeiBytes(0, lists[i])
  {
    seq(|lists|, i requires 0 <= i < |lists| => SeiBytes(0, lists[i]))
  }

  /**
   * End to end: any lists of messages, each written as an SEI NAL unit, escaped and put into an Annex B byte
   * stream with any zeros around, come back from splitting, de-escaping and parsing that stream.
   */
  lemma SeiThroughByteStream(lists: seq<seq<RawMessage>>, describe: Descriptors, gaps: seq<nat>, lead: nat)
    requires |lists| == |gaps| > 0 && forall i :: 0 <= i < |lists| ==> |lists[i]| > 0 && Plain(lists[i], describe)
    ensures var (nals, ok) := Split(ByteStream(SeiUnits(lists), gaps, lead), H264, 0, false);
            var units := UnitsOf(H264, nals, |nals|, 0);
            && ok && |units| == |lists|
            && forall i :: 0 <= i < |lists| ==>
                 var list := SeiOf(units[i].rbsp, describe);
                 list.Some? && Read(list.value, lists[i], |lists[i]|)
  {
    hide SeiOf, SeiBytes, ByteStream, Split, UnitsOf, Listed, Plain, HeaderOf;
    var payloads := SeiUnits(lists);
    forall i | 0 <= i < |lists|
      ensures Listed(H264, payloads[i])
      ensures var list := SeiOf(payloads[i], describe);
              list.Some? && Read(list.value, lists[i], |lists[i]|)
    {
      SeiRoundTrip(0, lists[i], describe);
    }
    ByteStreamRoundTrip(H264, payloads, gaps, lead);
  }
}
