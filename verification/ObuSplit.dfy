/** OBU headers and splitFragment of cbs/av1.go (sections 5.3 and 7.5 of AV1, low-overhead format). */
module ObuSplit {
  import opened Common
  import opened Powers
  import opened Bits
  import opened BitReading
  import opened Fields
  import opened Leb128

  const MAX_FRAGMENT := 0x7fff_ffff / 8

  datatype ObuHeader = ObuHeader(typ: nat, extension: bool, hasSize: bool, temporalID: nat, spatialID: nat)

  datatype Unit = Unit(typ: nat, offset: nat, rawSize: nat, rbsp: seq<byte>, temporalID: nat, spatialID: nat)

  // ----- The header

  /**
   * obu_header() at the start of data: the header and where it ends, unless it is cut short or a reserved bit is set.
   */
  ghost function HeaderOf(data: seq<byte>): Option<ObuHeader> {
    var extension := BitAt(data, 5);
    if |data| < 1 || BitAt(data, 0) || BitAt(data,
                                             7) || (extension && (|data| < 2 || Field(data, 13, 3) != 0)) then None
    else Some(ObuHeader(Field(data, 1, 4), extension, BitAt(data, 6),
                        if extension then Field(data, 8, 3) else 0, if extension then Field(data, 11, 2) else 0))
  }

  lemma FirstByte(data: seq<byte>)
    requires |data| > 0
    ensures BitAt(data, 0) <==> data[0] >= 128
    ensures BitAt(data, 5) <==> data[0] / 4 % 2 == 1
    ensures BitAt(data, 6) <==> data[0] / 2 % 2 == 1
    ensures BitAt(data, 7) <==> data[0] % 2 == 1
  {
    hide BitAt, Shr;
    SmallShifts(data[0]);
    ByteBit(data, 0, 0);
    ByteBit(data, 0, 5);
    ByteBit(data, 0, 6);
    ByteBit(data, 0, 7);
  }

  lemma TypeField(data: seq<byte>)
    requires |data| > 0
    ensures Field(data, 1, 4) == data[0] / 8 % 16
  {
    hide BitsOf, Value, Shr, Shl;
    SmallPowers();
    SmallShifts(data[0]);
    ByteField(data, 0, 1, 4);
  }

  lemma SecondByte(data: seq<byte>)
    requires |data| > 1
    ensures Field(data, 8, 3) == data[1] / 32 && Field(data, 11, 2) == data[1] / 8 % 4
    ensures Field(data, 13, 3) == data[1] % 8
  {
    hide BitsOf, Value, Shr, Shl;
    SmallPowers();
    SmallShifts(data[1]);
    ByteField(data, 1, 0, 3);
    ByteField(data, 1, 3, 2);
    ByteField(data, 1, 5, 3);
  }

  /** obu_header() as arithmetic on its bytes. */
  lemma HeaderOnBytes(data: seq<byte>)
    ensures HeaderOf(data)
         == if |data| == 0 || data[0] >= 128 || data[0] % 2 == 1 then None
            else if data[0] / 4 % 2 == 0 then Some(ObuHeader(data[0] / 8, false, data[0] / 2 % 2 == 1, 0, 0))
            else if |data| == 1 || data[1] % 8 != 0 then None
            else Some(ObuHeader(data[0] / 8, true, data[0] / 2 % 2 == 1, data[1] / 32, data[1] / 8 % 4))
  {
    hide BitAt, Field;
    if |data| > 0 {
      FirstByte(data);
      TypeField(data);
    }
    if |data| > 1 {
      SecondByte(data);
    }
  }

  function HeaderBytes(h: ObuHeader): nat {
    if h.extension then 2 else 1
  }

  /** obuHeader, on a reader at the start of its data. */
  method ReadObuHeader(r: BitReader) returns (header: Option<ObuHeader>)
    requires r.pos == 0 && r.end == 8 * |r.data|
    modifies r`pos
    ensures header == HeaderOf(r.data)
    ensures header.Some? ==> r.pos == 8 * HeaderBytes(header.value)
  {
    hide Field, BitAt;
    OneBitField(r.data, 0);
    OneBitField(r.data, 7);
    var ok := ReadFixed(r, 1, 0);
    if !ok {
      return None;
    }
    var typ := ReadBits(r, 4);
    if typ.Err? {
      return None;
    }
    var extension := ReadFlag(r);
    if extension.Err? {
      return None;
    }
    var hasSize := ReadFlag(r);
    if hasSize.Err? {
      return None;
    }
    ok := ReadFixed(r, 1, 0);
    if !ok {
      return None;
    }
    if !extension.value {
      return Some(ObuHeader(typ.value, false, hasSize.value, 0, 0));
    }
    header := ReadExtension(r, typ.value, hasSize.value);
  }

  method ReadExtension(r: BitReader, typ: nat, hasSize: bool) returns (header: Option<ObuHeader>)
    requires r.pos == 8 && r.end == 8 * |r.data|
    modifies r`pos
    ensures header == if |r.data| < 2 || Field(r.data, 13, 3) != 0 then None
                      else Some(ObuHeader(typ, true, hasSize, Field(r.data, 8, 3), Field(r.data, 11, 2)))
    ensures header.Some? ==> r.pos == 16
  {
    hide Field;
    var temporalID := ReadBits(r, 3);
    if temporalID.Err? {
      return None;
    }
    var spatialID := ReadBits(r, 2);
    if spatialID.Err? {
      return None;
    }
    var ok := ReadFixed(r, 3, 0);
    if !ok {
      return None;
    }
    return Some(ObuHeader(typ, true, hasSize, temporalID.value, spatialID.value));
  }

  // ----- One OBU

  /** The header of the OBU that starts data, and its length with the header; nothing when it is invalid or too long. */
  ghost function ObuOf(data: seq<byte>): Option<(ObuHeader, nat)> {
    match HeaderOf(data)
    case None => None
    case Some(h) =>
      if !h.hasSize then Some((h, |data|))
      else
        match ParseLeb(data, 8 * HeaderBytes(h), 8 * |data|)
        case Ended => None
        case Leb(size, q) => if q / 8 + size <= |data| then Some((h, q / 8 + size)) else None
  }

  /** The part of the splitter's round that runs under its own recover: header and length. */
  method MeasureObu(data: seq<byte>) returns (obu: Option<(ObuHeader, nat)>)
    requires |data| > 0
    ensures obu == ObuOf(data)
  {
    hide ParseLeb, HeaderOf;
    HeaderFits(data);
    var r := new BitReader(data);
    var header := ReadObuHeader(r);
    if header.None? {
      return None;
    }
    var obuSize: nat;
    if header.value.hasSize {
      NoSizeByte(data, r.pos);
      if r.BitsLeft() < 8 {
        return None;
      }
      var leb := ReadLeb128(r);
      if leb.Err? {
        return None;
      }
      obuSize := leb.value;
    } else {
      obuSize := |data| - 1 - (if header.value.extension then 1 else 0);
    }
    var obuLength := r.pos / 8 + obuSize;
    if |data| < obuLength {
      return None;
    }
    return Some((header.value, obuLength));
  }

  lemma HeaderFits(data: seq<byte>)
    ensures HeaderOf(data).Some? ==> HeaderBytes(HeaderOf(data).value) <= |data|
  {
  }

  lemma NoSizeByte(data: seq<byte>, p: nat)
    ensures p + 8 > 8 * |data| ==> ParseLeb(data, p, 8 * |data|).Ended?
  {
  }

  // ----- The splitter

  function UnitOf(data: seq<byte>, off: nat, h: ObuHeader, length: nat): Unit
    requires off + length <= |data|
  {
    Unit(h.typ, off, length, data[off..off + length], h.temporalID, h.spatialID)
  }

  lemma ObuNotEmpty(data: seq<byte>)
    requires ObuOf(data).Some? && |data| > 0
    ensures 1 <= ObuOf(data).value.1 <= |data|
    ensures HeaderBytes(HeaderOf(data).value) <= ObuOf(data).value.1
  {
    hide HeaderOf, LebFrom;
    HeaderFits(data);
    var h := HeaderOf(data).value;
    if h.hasSize {
      var n := LebShows(data, 8 * HeaderBytes(h), 8 * |data|, MAX_LEB_BYTES);
      WholeBytes(HeaderBytes(h), n);
    }
  }

  lemma WholeBytes(k: nat, n: nat)
    ensures (8 * k + 8 * n) / 8 == k + n
  {
  }

  /** The units from off on, after those found so far, and whether the packet was split without error. */
  ghost function UnitsFrom(data: seq<byte>, off: nat, units: seq<Unit>): (seq<Unit>, bool)
    requires off <= |data|
    decreases |data| - off
  {
    if off == |data| then (units, true)
    else
      match ObuOf(data[off..])
      case None => (units, false)
      case Some((h, length)) =>
        ObuNotEmpty(data[off..]);
        UnitsFrom(data, off + length, units + [UnitOf(data, off, h, length)])
  }

  /** What a configuration record in front of the OBUs means for the splitter. */
  datatype Start = Refused | Nothing | At(off: nat)

  /** AV1CodecConfigurationRecord: its first bit is set, and version 1 has four bytes before the OBUs. */
  function StartOf(data: seq<byte>, header: bool): Start {
    if !header || |data| == 0 || data[0] < 128 then At(0)
    else if data[0] != 129 || |data| < 4 then Refused
    else if |data| == 4 then Nothing
    else At(4)
  }

  ghost function Split(data: seq<byte>, header: bool): (seq<Unit>, bool) {
    if |data| > MAX_FRAGMENT then ([], false)
    else match StartOf(data, header)
         case Refused => ([], false)
         case Nothing => ([], true)
         case At(off) => if off <= |data| then UnitsFrom(data, off, []) else ([], true)
  }

  /**
   * A packet of 2^28 bytes or more is refused, and so is a configuration record of another version or cut short. Any
   * other packet is split from its first byte, or behind the four bytes of such a record.
   */
  lemma RefusedAtOnce(data: seq<byte>, header: bool)
    ensures var n, record := |data|, header && |data| > 0 && data[0] >= 128;
            if n > 0x0fff_ffff || (record && (data[0] != 129 || n < 4)) then Split(data, header) == ([], false)
            else Split(data, header) == UnitsFrom(data, if record then 4 else 0, [])
  {
    hide ObuOf;
  }

  method SplitFragment(data: seq<byte>, header: bool) returns (units: seq<Unit>, ok: bool)
    ensures (units, ok) == Split(data, header)
  {
    hide ObuOf;
    units := [];
    if MAX_FRAGMENT < |data| {
      return units, false;
    }
    var size, off := |data|, 0;
    if header && size > 0 && data[0] >= 128 {
      var configRecordVersion := data[0] - 128;
      if configRecordVersion != 1 {
        return units, false;
      }
      if size <= 4 {
        return units, size == 4;
      }
      off := 4;
      size := size - 4;
    }
    while size > 0
      invariant size >= 0 && off >= 0 && off + size == |data|
      invariant UnitsFrom(data, off, units) == Split(data, header)
      decreases size
    {
      assert data[off..off + size] == data[off..];
      var obu := MeasureObu(data[off..off + size]);
      if obu.None? {
        return units, false;
      }
      ObuNotEmpty(data[off..]);
      var length := obu.value.1;
      units := units + [UnitOf(data, off, obu.value.0, length)];
      off := off + length;
      size := size - length;
    }
    return units, true;
  }

  // ----- A unit is parsed alike inside the packet and on its own

  lemma PrefixByteFrom(s: seq<byte>, t: seq<byte>, p: nat)
    requires s <= t && p + 8 <= 8 * |s|
    ensures ByteFrom(s, p) == ByteFrom(t, p)
  {
    PrefixBits(s, t, p, 8);
  }

  lemma {:induction false} PrefixLeb(s: seq<byte>, t: seq<byte>, p: nat, n: nat)
    requires s <= t && LebFrom(t, p, 8 * |t|, n).Leb? && LebFrom(t, p, 8 * |t|, n).pos <= 8 * |s|
    ensures LebFrom(s, p, 8 * |s|, n) == LebFrom(t, p, 8 * |t|, n)
    decreases n
  {
    hide ByteFrom;
    if n > 0 {
      var k := LebShows(t, p, 8 * |t|, n);
      PrefixByteFrom(s, t, p);
      if ByteFrom(t, p) >= 128 {
        PrefixLeb(s, t, p + 8, n - 1);
      }
    }
  }

  lemma PrefixHeader(s: seq<byte>, t: seq<byte>)
    requires s <= t && HeaderOf(t).Some? && HeaderBytes(HeaderOf(t).value) <= |s|
    ensures HeaderOf(s) == HeaderOf(t)
  {
    hide BitAt, BitsOf, Value;
    PrefixBit(s, t, 0);
    PrefixBit(s, t, 5);
    PrefixBit(s, t, 6);
    PrefixBit(s, t, 7);
    PrefixBits(s, t, 1, 4);
    if BitAt(t, 5) {
      PrefixBits(s, t, 8, 3);
      PrefixBits(s, t, 11, 2);
      PrefixBits(s, t, 13, 3);
    }
  }

  /** The bytes of an OBU, cut out of the packet, are the same OBU and fill it exactly. */
  lemma ObuAlone(data: seq<byte>)
    requires ObuOf(data).Some? && |data| > 0
    ensures var (h, length) := ObuOf(data).value;
            length <= |data| && ObuOf(data[..length]) == Some((h, length))
  {
    hide HeaderOf, LebFrom;
    ObuNotEmpty(data);
    var (h, length) := ObuOf(data).value;
    var s := data[..length];
    PrefixHeader(s, data);
    if h.hasSize {
      var n := LebShows(data, 8 * HeaderBytes(h), 8 * |data|, MAX_LEB_BYTES);
      WholeBytes(HeaderBytes(h), n);
      PrefixLeb(s, data, 8 * HeaderBytes(h), MAX_LEB_BYTES);
    }
  }

  // ----- Tiling

  /** Unit i of the packet: the bytes it names, which are one whole OBU with the ids it carries. */
  ghost predicate IsUnit(data: seq<byte>, unit: Unit) {
    && unit.rawSize > 0 && unit.offset + unit.rawSize <= |data|
    && unit.rbsp == data[unit.offset..unit.offset + unit.rawSize]
    && match ObuOf(unit.rbsp)
       case Some((h, length)) =>
         length == |unit.rbsp| && unit.typ == h.typ && unit.temporalID == h.temporalID && unit.spatialID == h.spatialID
       case None => false
  }

  /** The units cover data from start to end without a gap or an overlap. */
  ghost predicate Tile(data: seq<byte>, units: seq<Unit>, start: nat, end: nat) {
    && (forall i :: 0 <= i < |units| ==> IsUnit(data, units[i]))
    && (forall i :: 0 <= i < |units| - 1 ==> units[i + 1].offset == units[i].offset + units[i].rawSize)
    && (if units == [] then start == end
        else units[0].offset == start && units[|units| - 1].offset + units[|units| - 1].rawSize == end)
  }

  /** The units cover the packet from start up to some point not before from, and all of it when whole. */
  ghost predicate Covers(data: seq<byte>, units: seq<Unit>, start: nat, from: nat, whole: bool) {
    exists end: nat :: from <= end <= |data| && Tile(data, units, start, end) && (whole ==> end == |data|)
  }

  lemma TileMore(data: seq<byte>, units: seq<Unit>, start: nat, off: nat)
    requires Tile(data, units, start, off) && off < |data| && ObuOf(data[off..]).Some?
    ensures var (h, length) := ObuOf(data[off..]).value;
            off + length <= |data| && Tile(data, units + [UnitOf(data, off, h, length)], start, off + length)
  {
    hide ObuOf;
    var rest := data[off..];
    ObuNotEmpty(rest);
    ObuAlone(rest);
    var (h, length) := ObuOf(rest).value;
    assert rest[..length] == data[off..off + length];
    assert IsUnit(data, UnitOf(data, off, h, length));
  }

  lemma {:induction false} UnitsTile(data: seq<byte>, start: nat, off: nat, units: seq<Unit>)
    requires off <= |data| && Tile(data, units, start, off)
    ensures var (all, ok) := UnitsFrom(data, off, units);
            Covers(data, all, start, off, ok)
    decreases |data| - off
  {
    hide ObuOf, Tile, UnitOf;
    if off < |data| && ObuOf(data[off..]).Some? {
      var (h, length) := ObuOf(data[off..]).value;
      TileMore(data, units, start, off);
      ObuNotEmpty(data[off..]);
      UnitsTile(data, start, off + length, units + [UnitOf(data, off, h, length)]);
    } else {
      assert Covers(data, units, start, off, off == |data|);
    }
  }

  /**
   * On success the units tile the packet exactly, from its first OBU to its last byte: each is a nonempty,
   * complete OBU and starts where the one before it ends. On an error they still tile what came before it.
   */
  lemma SplitTiles(data: seq<byte>, header: bool)
    ensures var (units, ok) := Split(data, header);
            && (ok && units == [] ==> |data| == 0 || StartOf(data, header).Nothing?)
            && (units != [] ==> StartOf(data, header).At? && Covers(data, units, StartOf(data, header).off, 0, ok))
  {
    hide ObuOf;
    if |data| <= MAX_FRAGMENT && StartOf(data, header).At? && StartOf(data, header).off <= |data| {
      var off := StartOf(data, header).off;
      assert Tile(data, [], off, off);
      UnitsTile(data, off, off, []);
    }
  }
}
