/**
 * SEI framing: moreRBSPData of cbs/reader.go, seiMessage and seiMessageList of cbs/sei.go, and sei() of
 * cbs/h264_syntax.go (section 7.3.2.3 of ITU-T H.264). Payloads with a syntax of their own are read by an
 * arbitrary function that stays within its payload.
 */
module Sei {
  import opened Common
  import opened Powers
  import opened Bits
  import opened BitReading
  import opened ExpGolomb
  import opened Fields
  import opened Leb128
  import opened Trailing

  const NAL_SEI := 6

  // ----- moreRBSPData

  /** A one bit at position q or later. */
  ghost predicate OneFrom(data: seq<byte>, q: nat) {
    exists p :: q <= p && BitAt(data, p)
  }

  lemma {:induction false} ValueZeroIff(b: bits)
    ensures Value(b) == 0 <==> forall k :: 0 <= k < |b| ==> !b[k]
  {
    ToBitsValue(b);
    ValueZeros(|b|);
    ToBitsValue(ZeroBits(|b|));
    if forall k :: 0 <= k < |b| ==> !b[k] {
      assert b == ZeroBits(|b|);
    }
  }

  lemma FieldZeroIff(data: seq<byte>, p: nat, n: nat)
    ensures Field(data, p, n) == 0 <==> forall q :: p <= q < p + n ==> !BitAt(data, q)
  {
    hide Value, BitAt;
    var b := BitsOf(data, p, n);
    ValueZeroIff(b);
    forall k | 0 <= k < n
      ensures b[k] == BitAt(data, p + k)
    {
      BitsOfAt(data, p, n, k);
    }
    assert forall q :: p <= q < p + n ==> BitAt(data, q) == b[q - p] by {
      forall q | p <= q < p + n
        ensures BitAt(data, q) == b[q - p]
      {
        assert b[q - p] == BitAt(data, p + (q - p));
      }
    }
  }

  /** maxUintBits(n - 1) keeps all but the first of n bits. */
  lemma MaskedField(data: seq<byte>, p: nat, n: nat)
    requires n > 0
    ensures Field(data, p, n) == (if BitAt(data, p) then Pow2(n - 1) else 0) + Field(data, p + 1, n - 1)
    ensures Field(data, p + 1, n - 1) < Pow2(n - 1)
  {
    hide BitAt, BitsOf;
    BitsOfHead(data, p, n);
    ValueCons(BitAt(data, p), BitsOf(data, p + 1, n - 1));
    ValueBound(BitsOf(data, p + 1, n - 1));
  }

  /** v & maxUintBits(n): the remainder modulo 2^n. */
  function Masked(v: nat, n: nat): nat {
    v % Pow2(n)
  }

  lemma MaskIs(high: nat, low: nat, n: nat)
    requires low < Pow2(n) && (high == 0 || high == Pow2(n))
    ensures Masked(high + low, n) == low
  {
    hide Shl;
    var m := Pow2(n);
    if high == m {
      assert (m + low) % m == low by {
        RemainderOnce(m, low);
      }
    }
  }

  lemma RemainderOnce(m: nat, low: nat)
    requires low < m
    ensures (m + low) % m == low
  {
    var q := (m + low) / m;
    assert m + low == m * q + (m + low) % m;
    MulCancel(0, q, m);
    assert q >= 2 ==> m * q >= m * 2;
    assert q == 1;
  }

  /** Whether there is more data before the trailing bits. */
  method MoreRBSPData(r: BitReader) returns (more: bool)
    requires r.end == 8 * |r.data|
    ensures more <==> r.end - r.pos > 8 || (r.pos < r.end && exists q :: r.pos < q < r.end && BitAt(r.data, q))
  {
    hide BitAt, Pow2;
    var bitsLeft := r.BitsLeft();
    if bitsLeft > 8 {
      return true;
    }
    if bitsLeft <= 0 {
      return false;
    }
    MaskedField(r.data, r.pos, bitsLeft);
    FieldZeroIff(r.data, r.pos + 1, bitsLeft - 1);
    MaskIs(if BitAt(r.data, r.pos) then Pow2(bitsLeft - 1) else 0, Field(r.data, r.pos + 1, bitsLeft - 1),
           bitsLeft - 1);
    var v := r.Peek(r.pos, bitsLeft);
    return Masked(v, bitsLeft - 1) != 0;
  }

  lemma LastByteHasOne(data: seq<byte>)
    requires |data| > 0 && data[|data| - 1] != 0
    ensures exists q: nat :: 8 * |data| - 8 <= q < 8 * |data| && BitAt(data, q)
  {
    hide BitAt, Value, BitsOf;
    ByteFromAligned(data, |data| - 1);
    FieldZeroIff(data, 8 * (|data| - 1), 8);
  }

  lemma PastTheEnd(data: seq<byte>, q: nat)
    ensures BitAt(data, q) ==> q < 8 * |data|
  {
  }

  /** On data that end in a nonzero byte there is more exactly when the position is before the last one bit. */
  lemma MoreMeansBeforeLastOne(data: seq<byte>, pos: nat)
    requires |data| > 0 && data[|data| - 1] != 0
    ensures (8 * |data| - pos > 8 || (pos < 8 * |data| && exists q :: pos < q < 8 * |data| && BitAt(data, q)))
            <==> OneFrom(data, pos + 1)
  {
    hide BitAt;
    LastByteHasOne(data);
    forall q: nat
      ensures BitAt(data, q) ==> q < 8 * |data|
    {
      PastTheEnd(data, q);
    }
  }

  // ----- One message

  /**
   * Reads a payload that starts at a position and ends at another: where it stopped, and whether it saw an extension.
   */
  type PayloadReader = (seq<byte>, nat, nat) -> Option<(nat, bool)>

  ghost predicate Within(read: PayloadReader) {
    forall data: seq<byte>, p: nat,
         end: nat :: p <= end && read(data, p, end).Some? ==> p <= read(data, p, end).value.0 <= end
  }

  /** The last one bit before end is at k. */
  ghost predicate LastOne(data: seq<byte>, k: nat, end: nat) {
    k < end && BitAt(data, k) && forall j :: k < j < end ==> !BitAt(data, j)
  }

  /** There is a one bit from position from on, before end. */
  ghost predicate OneBefore(data: seq<byte>, from: int, end: nat) {
    exists k: nat :: from <= k && LastOne(data, k, end)
  }

  /** bits.TrailingZeros32. */
  function TrailingZeros(v: nat): (n: nat)
    requires v > 0
  {
    if v % 2 == 1 then 0 else 1 + TrailingZeros(v / 2)
  }

  /** The zeros at the end of a field are those behind its last one bit. */
  lemma {:induction false} TrailingZerosAre(data: seq<byte>, p: nat, n: nat)
    requires Field(data, p, n) > 0
    ensures TrailingZeros(Field(data, p, n)) < n
    ensures LastOne(data, p + n - 1 - TrailingZeros(Field(data, p, n)), p + n)
    decreases n
  {
    hide BitAt;
    if n > 0 {
      var half := Field(data, p, n - 1);
      LastBit(data, p, n);
      if !BitAt(data, p + n - 1) {
        assert Field(data, p, n) / 2 == half && Field(data, p, n) % 2 == 0;
        TrailingZerosAre(data, p, n - 1);
      }
    }
  }

  lemma LastBit(data: seq<byte>, p: nat, n: nat)
    requires n > 0
    ensures Field(data, p, n) == Field(data, p, n - 1) + Field(data, p, n - 1) + BitNumber(BitAt(data, p + n - 1))
    ensures Field(data, p, 0) == 0
  {
    hide BitAt;
    ValueSnoc(BitsOf(data, p, n - 1), BitAt(data, p + n - 1));
  }

  /** n extension bits as bytes, the last of which may hold fewer than eight. */
  ghost function ExtensionBytes(data: seq<byte>, p: nat, n: nat): (s: seq<byte>)
    ensures |s| == (n + 7) / 8
    ensures forall i :: 0 <= i < |s| ==> s[i] == Wrap8(Field(data, p + 8 * i, Min(n - 8 * i, 8)))
  {
    seq((n + 7) / 8, i requires 0 <= i < (n + 7) / 8 => Wrap8(Field(data, p + 8 * i, Min(n - 8 * i, 8))))
  }

  method ReadExtension(r: BitReader, n: nat) returns (s: seq<byte>)
    requires r.pos + n <= r.end
    modifies r`pos
    ensures s == ExtensionBytes(r.data, old(r.pos), n) && r.pos == old(r.pos) + n
  {
    hide BitsOf, Value;
    s := [];
    ghost var p := r.pos;
    var bl: int := n;
    while bl > 0
      invariant bl == Max(n - 8 * |s|, 0) && r.pos == p + n - bl
      invariant |s| <= (n + 7) / 8
      invariant forall i :: 0 <= i < |s| ==> s[i] == Wrap8(Field(r.data, p + 8 * i, Min(n - 8 * i, 8)))
    {
      var length := Min(bl, 8);
      var v := ReadBits(r, length);
      assert r.pos == p + 8 * |s| + length;
      s := s + [Wrap8(v.value)];
      bl := bl - length;
    }
  }

  /** After the payload: extension bits, a one bit, and zeros up to the end of the payload. */
  method ReadPayloadTrailer(r: BitReader) returns (ok: bool, extension: nat, data: seq<byte>)
    requires r.pos <= r.end <= 8 * |r.data| && r.end % 8 == 0
    modifies r`pos
    ensures ok <==> OneBefore(r.data, Max(old(r.pos), r.end - 8), r.end)
    ensures ok ==> r.pos == r.end && LastOne(r.data, old(r.pos) + extension, r.end)
    ensures ok ==> data == ExtensionBytes(r.data, old(r.pos), extension)
  {
    hide BitAt, Field, LastOne, OneBefore;
    ghost var p := r.pos;
    extension, data := 0, [];
    var bitsLeft := r.BitsLeft();
    var tmp := new BitReader.Copy(r);
    if bitsLeft > 8 {
      tmp.SkipBits(bitsLeft - 8);
    }
    var n := Min(bitsLeft, 8);
    TrailerWindow(r.data, tmp.pos, n, r.end);
    FieldIs(r.data, tmp.pos, n);
    var trailingBits := tmp.GetBits(n);
    if trailingBits == 0 {
      return false, extension, data;
    }
    var trailingZeroBits := TrailingZeros(trailingBits);
    extension := bitsLeft - 1 - trailingZeroBits;
    LastOneIs(r.data, p + extension, r.end);
    if extension > 0 {
      data := ReadExtension(r, extension);
    }
    OneBitField(r.data, r.pos);
    ok := ReadFixed(r, 1, 1);
    while r.pos % 8 != 0
      invariant ok && p + extension < r.pos <= r.end
      decreases r.end - r.pos
    {
      OneBitField(r.data, r.pos);
      ok := ReadFixed(r, 1, 0);
    }
    AlignedIn(r.pos, p + extension, r.end);
  }

  lemma FieldIs(data: seq<byte>, p: nat, n: nat)
    ensures Field(data, p, n) == Value(BitsOf(data, p, n))
  {
  }

  lemma LastOneIs(data: seq<byte>, k: nat, end: nat)
    requires LastOne(data, k, end)
    ensures BitAt(data, k) && forall j :: k < j < end ==> !BitAt(data, j)
    ensures forall j: nat :: LastOne(data, j, end) ==> j == k
  {
    hide BitAt;
  }

  lemma AlignedIn(pos: nat, k: nat, end: nat)
    requires pos % 8 == 0 && end % 8 == 0 && k < pos <= end <= k + 8
    ensures pos == end
  {
  }

  /** The last n bits hold a one exactly when they are not all zero. */
  lemma TrailerWindow(data: seq<byte>, p: nat, n: nat, end: nat)
    requires end == p + n
    ensures Field(data, p, n) > 0 <==> OneBefore(data, p, end)
    ensures Field(data, p, n) > 0 ==>
              var z := TrailingZeros(Field(data, p, n));
              z < n && LastOne(data, p + n - 1 - z, end)
  {
    hide BitAt, Field;
    FieldZeroIff(data, p, n);
    if Field(data, p, n) > 0 {
      TrailingZerosAre(data, p, n);
    }
  }

  /** SEIRawMessage. A payload without a syntax of its own is kept as raw bytes. */
  datatype Message = Message(payloadType: uint32, payloadSize: uint32, extensionBitLength: nat,
                             extensionData: seq<byte>,
                             raw: Option<seq<byte>>)

  /** A message whose payload starts at bit p and ends at end; nothing when it is refused. */
  ghost function MessageOf(data: seq<byte>, p: nat, end: nat, typ: uint32, size: uint32, desc: Option<PayloadReader>)
    : Option<Message>
    requires p % 8 == 0 && end == p + 8 * size <= 8 * |data|
  {
    match desc
    case None => Some(Message(typ, size, 0, [], Some(data[p / 8..p / 8 + size])))
    case Some(read) =>
      match read(data, p, end)
      case None => None
      case Some((q, extended)) =>
        if q % 8 == 0 && !extended && q == end then Some(Message(typ, size, 0, [], None))
        else if OneBefore(data, Max(q, end - 8), end) then
          var n := ExtensionLength(data, q, end);
          Some(Message(typ, size, n, ExtensionBytes(data, q, n), None))
        else None
  }

  /** How many bits lie between q and the last one bit before end. */
  ghost function ExtensionLength(data: seq<byte>, q: nat, end: nat): (n: nat)
    requires OneBefore(data, q, end)
    ensures LastOne(data, q + n, end)
  {
    var k: nat :| q <= k && LastOne(data, k, end);
    k - q
  }

  lemma OneBeforeWeaker(data: seq<byte>, a: int, b: int, end: nat)
    requires OneBefore(data, a, end) && b <= a
    ensures OneBefore(data, b, end)
  {
  }

  /**
   * seiMessage, on a reader whose end is that of the payload. Whatever reads the payload, a message that
   * succeeds consumes exactly the bits its size announces.
   */
  method SeiMessage(r: BitReader, desc: Option<PayloadReader>, typ: uint32, size: uint32)
    returns (message: Option<Message>)
    requires r.pos % 8 == 0 && r.end == r.pos + 8 * size <= 8 * |r.data|
    requires desc.Some? ==> Within(desc.value)
    modifies r`pos
    ensures message == MessageOf(r.data, old(r.pos), r.end, typ, size, desc)
    ensures message.Some? ==> r.pos == r.end
  {
    hide LastOne, OneBefore, BitAt, Field;
    match desc {
      case None =>
        var data := ReadByteString(r, size);
        return Some(Message(typ, size, 0, [], Some(data)));
      case Some(read) =>
        var res := read(r.data, r.pos, r.end);
        if res.None? {
          return None;
        }
        var (q, extended) := res.value;
        r.SkipBits(q - r.pos);
        if r.pos % 8 != 0 || extended || r.pos < r.end {
          var ok, n, data := ReadPayloadTrailer(r);
          if !ok {
            return None;
          }
          OneBeforeWeaker(r.data, Max(q, r.end - 8), q, r.end);
          LastOneIs(r.data, q + n, r.end);
          return Some(Message(typ, size, n, data, None));
        }
        return Some(Message(typ, size, 0, [], None));
    }
  }

  // ----- The message list

  /** A number coded as bytes of ff that count 255 each and a last byte: the number and the position behind it. */
  ghost function FfCoded(data: seq<byte>, p: nat, end: nat): (r: Option<(nat, nat)>)
    ensures r.Some? ==> p + 8 <= r.value.1 <= end && r.value.1 % 8 == p % 8
    decreases end - p
  {
    if p + 8 > end then None
    else if ByteFrom(data, p) != 255 then Some((ByteFrom(data, p), p + 8))
    else match FfCoded(data, p + 8, end)
         case None => None
         case Some((v, q)) => Some((v + 255, q))
  }

  /** What is still to come, on top of what was counted so far in 32 bits. */
  ghost function Counted(v: uint32, rest: Option<(nat, nat)>): Option<(uint32, nat)> {
    if rest.None? then None else Some((Wrap32(v + rest.value.0), rest.value.1))
  }

  lemma CountMore(v: uint32, rest: Option<(nat, nat)>)
    ensures Counted(Wrap32(v + 255), rest)
         == Counted(v, if rest.None? then None else Some((rest.value.0 + 255, rest.value.1)))
  {
  }

  lemma NextFf(data: seq<byte>, p: nat, end: nat, v: uint32)
    ensures var b := ByteFrom(data, p);
            Counted(v, FfCoded(data, p, end)) ==
            if p + 8 > end then None
            else if b == 255 then Counted(Wrap32(v + 255), FfCoded(data, p + 8, end))
            else Some((Wrap32(v + b), p + 8))
  {
    hide Wrap32, ByteFrom;
    CountMore(v, FfCoded(data, p + 8, end));
  }

  method ReadFfCoded(r: BitReader) returns (res: Option<uint32>)
    requires r.pos <= r.end
    modifies r`pos
    ensures var c := Counted(0, FfCoded(r.data, old(r.pos), r.end));
            if c.None? then res.None? else res == Some(c.value.0) && r.pos == c.value.1
  {
    hide BitsOf, Value, Wrap32, Counted, FfCoded;
    var v: uint32 := 0;
    ByteFromIs(r.data, r.pos);
    NextFf(r.data, r.pos, r.end, v);
    var next := r.Peek(r.pos, 8);
    while next == 255
      invariant next == ByteFrom(r.data, r.pos) && r.pos <= r.end
      invariant Counted(v, FfCoded(r.data, r.pos, r.end)) == Counted(0, FfCoded(r.data, old(r.pos), r.end))
      decreases r.end - r.pos
    {
      NextFf(r.data, r.pos, r.end, v);
      var ok := ReadFixed(r, 8, 255);
      if !ok {
        return None;
      }
      v := Wrap32(v + 255);
      ByteFromIs(r.data, r.pos);
      next := r.Peek(r.pos, 8);
    }
    NextFf(r.data, r.pos, r.end, v);
    var last := ReadUnsigned(r, 8, 0, 254);
    if last.Err? {
      return None;
    }
    return Some(Wrap32(v + last.value));
  }

  /** Descriptors of the payload types that have a syntax of their own. */
  type Descriptors = nat -> Option<PayloadReader>

  /** One message with its type and size, and the position behind it. */
  ghost function NextMessage(data: seq<byte>, p: nat, describe: Descriptors): (r: Option<(Message, nat)>)
    requires p % 8 == 0
    ensures r.Some? ==> p + 16 <= r.value.1 && r.value.1 + 8 <= 8 * |data| && r.value.1 % 8 == 0
  {
    var end := 8 * |data|;
    match Counted(0, FfCoded(data, p, end))
    case None => None
    case Some((typ, q)) =>
      match Counted(0, FfCoded(data, q, end))
      case None => None
      case Some((size, at)) =>
        if size + 1 > (end - at) / 8 then None
        else
          match MessageOf(data, at, at + 8 * size, typ, size, describe(typ))
          case None => None
          case Some(m) => Some((m, at + 8 * size))
  }

  /** More messages follow: the condition of MoreRBSPData. */
  ghost predicate MoreAt(data: seq<byte>, pos: nat) {
    8 * |data| - pos > 8 || (pos < 8 * |data| && exists q :: pos < q < 8 * |data| && BitAt(data, q))
  }

  /** The messages from bit p on, after those in messages, and the position behind the last. */
  ghost function MessagesFrom(data: seq<byte>, p: nat, describe: Descriptors, messages: seq<Message>)
    : Option<(seq<Message>, nat)>
    requires p % 8 == 0
    decreases 8 * |data| - p
  {
    match NextMessage(data, p, describe)
    case None => None
    case Some((m, q)) =>
      if MoreAt(data, q) then MessagesFrom(data, q, describe, messages + [m]) else Some((messages + [m], q))
  }

  method ReadMessage(r: BitReader, describe: Descriptors) returns (message: Option<Message>)
    requires r.pos % 8 == 0 && r.pos <= r.end == 8 * |r.data|
    requires forall typ: nat :: describe(typ).Some? ==> Within(describe(typ).value)
    modifies r`pos
    ensures var next := NextMessage(r.data, old(r.pos), describe);
            if next.None? then message.None? else message == Some(next.value.0) && r.pos == next.value.1
  {
    hide Counted, FfCoded, MessageOf;
    CountedBounds(r.data, r.pos, r.end);
    var payloadType := ReadFfCoded(r);
    if payloadType.None? {
      return None;
    }
    CountedBounds(r.data, r.pos, r.end);
    var payloadSize := ReadFfCoded(r);
    if payloadSize.None? {
      return None;
    }
    var size: nat := payloadSize.value;
    if size + 1 > r.BitsLeft() / 8 {
      return None;
    }
    var payloadReader := new BitReader.Sub(r, 8 * size);
    message := SeiMessage(payloadReader, describe(payloadType.value), payloadType.value, payloadSize.value);
    r.SkipBits(8 * size);
  }

  lemma CountedBounds(data: seq<byte>, p: nat, end: nat)
    ensures var c := Counted(0, FfCoded(data, p, end));
            c.Some? ==> p + 8 <= c.value.1 <= end && c.value.1 % 8 == p % 8
  {
  }

  /** seiMessageList. */
  method SeiMessageList(r: BitReader, describe: Descriptors) returns (messages: Option<seq<Message>>)
    requires r.pos % 8 == 0 && r.pos <= r.end == 8 * |r.data|
    requires forall typ: nat :: describe(typ).Some? ==> Within(describe(typ).value)
    modifies r`pos
    ensures var list := MessagesFrom(r.data, old(r.pos), describe, []);
            if list.None? then messages.None? else messages == Some(list.value.0) && r.pos == list.value.1
    ensures messages.Some? ==> r.pos % 8 == 0 && r.pos + 8 <= r.end && !MoreAt(r.data, r.pos)
  {
    hide NextMessage, BitAt;
    var list := [];
    ghost var p := r.pos;
    while true
      invariant r.pos % 8 == 0 && r.pos <= r.end
      invariant MessagesFrom(r.data, r.pos, describe, list) == MessagesFrom(r.data, p, describe, [])
      decreases r.end - r.pos
    {
      var message := ReadMessage(r, describe);
      if message.None? {
        return None;
      }
      list := list + [message.value];
      var more := MoreRBSPData(r);
      if !more {
        return Some(list);
      }
    }
  }

  // ----- The whole NAL unit

  /** The end of the byte that holds bit p. */
  function ByteEnd(p: nat): (q: nat)
    ensures p < q <= p + 8 && q % 8 == 0
  {
    8 * (p / 8) + 8
  }

  /** A one at p and zeros up to the end of its byte, all of them present. */
  ghost predicate TrailsAt(data: seq<byte>, p: nat, end: int) {
    ByteEnd(p) <= end && BitAt(data, p) && forall k :: p < k < ByteEnd(p) ==> !BitAt(data, k)
  }

  /** rbsp_trailing_bits(), from any position. */
  method RbspTrailingBits(r: BitReader) returns (ok: bool)
    modifies r`pos
    ensures ok <==> TrailsAt(r.data, old(r.pos), r.end)
    ensures ok ==> r.pos == ByteEnd(old(r.pos))
  {
    hide Field, BitAt, ByteEnd;
    ghost var p := r.pos;
    ghost var q := ByteEnd(p);
    OneBitField(r.data, r.pos);
    ok := ReadFixed(r, 1, 1);
    if !ok {
      return;
    }
    while r.pos % 8 != 0
      invariant p < r.pos <= q && r.pos <= r.end && BitAt(r.data, p) && forall k :: p < k < r.pos ==> !BitAt(r.data, k)
      decreases r.end - r.pos
    {
      OneBitField(r.data, r.pos);
      ok := ReadFixed(r, 1, 0);
      if !ok {
        return;
      }
    }
    OneByteEnd(p, r.pos);
  }

  lemma OneByteEnd(p: nat, q: nat)
    requires p < q <= ByteEnd(p) && q % 8 == 0
    ensures q == ByteEnd(p)
  {
  }

  /** On a byte boundary that is the byte 80. */
  lemma TrailsByte(data: seq<byte>, p: nat)
    requires p % 8 == 0
    ensures TrailsAt(data, p, 8 * |data|) <==> p + 8 <= 8 * |data| && ByteFrom(data, p) == 128
  {
    hide ByteFrom, BitAt;
    if p < 8 * |data| {
      StopByte(data, p / 8);
    }
  }

  lemma StopByte(data: seq<byte>, k: nat)
    requires k < |data|
    ensures ByteFrom(data, 8 * k) == 128
       <==> BitAt(data, 8 * k) && forall j :: 8 * k < j < 8 * k + 8 ==> !BitAt(data, j)
  {
    hide ByteFrom, BitAt;
    ByteFromAligned(data, k);
    TopBitOnly(data, k);
  }
}
