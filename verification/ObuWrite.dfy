/** A writer of OBUs in the low-overhead format, and the proof that the splitter inverts it. */
module ObuWrite {
  import opened Common
  import opened Powers
  import opened Bits
  import opened Fields
  import opened Leb128
  import opened ObuSplit

  /** An OBU to be written. layers are the temporal and spatial id; sizeLen bytes hold its size, none if zero. */
  datatype Obu = Obu(typ: nat, layers: Option<(nat, nat)>, sizeLen: nat, payload: seq<byte>) {
    ghost predicate Valid() {
      && typ < 16 && (layers.Some? ==> layers.value.0 < 8 && layers.value.1 < 4)
      && sizeLen <= MAX_LEB_BYTES && |payload| < TWO_TO_THE_32
      && (sizeLen > 0 ==> |payload| < Pow2(7 * sizeLen))
    }

    function Header(): ObuHeader {
      ObuHeader(typ, layers.Some?, sizeLen > 0,
                if layers.Some? then layers.value.0 else 0, if layers.Some? then layers.value.1 else 0)
    }

    function HeaderBits(): (b: bits)
      ensures |b| == 8
    {
      [false] + ToBits(typ, 4) + [layers.Some?, sizeLen > 0, false]
    }

    function LayerBits(): (b: bits)
      ensures |b| == 8
    {
      if layers.None? then ZeroBits(8) else ToBits(layers.value.0, 3) + ToBits(layers.value.1, 2) + ToBits(0, 3)
    }

    function HeadBytes(): (s: seq<byte>)
      ensures |s| == HeaderBytes(Header())
    {
      [ByteOf(HeaderBits())] + if layers.Some? then [ByteOf(LayerBits())] else []
    }

    function Bytes(): (s: seq<byte>) {
      HeadBytes() + ((if sizeLen > 0 then LebBytes(|payload|, sizeLen) else []) + payload)
    }
  }

  lemma HeaderBitsAre(o: Obu)
    requires o.Valid()
    ensures var b := o.HeaderBits();
            !b[0] && b[1..5] == ToBits(o.typ, 4) && b[5] == o.layers.Some? && b[6] == (o.sizeLen > 0) && !b[7]
  {
  }

  lemma LayerBitsAre(o: Obu)
    requires o.Valid() && o.layers.Some?
    ensures var b := o.LayerBits();
            b[0..3] == ToBits(o.layers.value.0, 3) && b[3..5] == ToBits(o.layers.value.1, 2) && b[5..8] == ToBits(0, 3)
  {
  }

  lemma SmallFields(typ: nat, t: nat, s: nat)
    requires typ < 16 && t < 8 && s < 4
    ensures Value(ToBits(typ, 4)) == typ && Value(ToBits(t, 3)) == t && Value(ToBits(s, 2)) == s
    ensures Value(ToBits(0, 3)) == 0
  {
    hide ToBits, Value;
    ShlFour(1);
    assert Pow2(2) == 4 && Pow2(3) == 8;
    ValueToBits(typ, 4);
    ValueToBits(t, 3);
    ValueToBits(s, 2);
    ValueToBits(0, 3);
  }

  /** The header that was written is the header that is read. */
  lemma HeaderShown(o: Obu, data: seq<byte>)
    requires o.Valid() && o.HeadBytes() <= data
    ensures HeaderOf(data) == Some(o.Header())
  {
    hide ToBits, Value, BitsOf, BitAt, ByteOf, Obu.HeaderBits, Obu.LayerBits;
    var b := o.HeaderBits();
    assert data[0] == o.HeadBytes()[0];
    HeaderBitsAre(o);
    ShownBit(data, 0, b, 0);
    ShownBit(data, 0, b, 5);
    ShownBit(data, 0, b, 6);
    ShownBit(data, 0, b, 7);
    ShownByte(data, 0, b, 1, 4);
    SmallFields(o.typ, 0, 0);
    if o.layers.Some? {
      LayersShown(o, data);
    }
  }

  lemma LayersShown(o: Obu, data: seq<byte>)
    requires o.Valid() && o.layers.Some? && o.HeadBytes() <= data
    ensures Field(data, 8, 3) == o.layers.value.0 && Field(data, 11, 2) == o.layers.value.1 && Field(data, 13, 3) == 0
  {
    hide ToBits, Value, BitsOf, BitAt, ByteOf, Obu.HeaderBits, Obu.LayerBits;
    var b := o.LayerBits();
    assert data[1] == o.HeadBytes()[1];
    LayerBitsAre(o);
    ShownByte(data, 1, b, 0, 3);
    ShownByte(data, 1, b, 3, 2);
    ShownByte(data, 1, b, 5, 3);
    SmallFields(o.typ, o.layers.value.0, o.layers.value.1);
  }

  /** Bytes in the data are shown at their bit positions. */
  lemma BytesShown(data: seq<byte>, k: nat, s: seq<byte>)
    requires k + |s| <= |data| && data[k..k + |s|] == s
    ensures ShowsBytes(data, 8 * k, s)
  {
    forall j | 0 <= j < |s|
      ensures ByteFrom(data, 8 * k + 8 * j) == s[j]
    {
      ByteFromAligned(data, k + j);
      assert 8 * (k + j) == 8 * k + 8 * j;
      assert data[k..k + |s|][j] == data[k + j];
    }
  }

  /** The size that was written is the size that is read, and the position behind it. */
  lemma SizeReads(o: Obu, data: seq<byte>)
    requires o.Valid() && o.sizeLen > 0 && o.Bytes() <= data
    ensures var k := HeaderBytes(o.Header());
            ParseLeb(data, 8 * k, 8 * |data|) == Leb(|o.payload|, 8 * (k + o.sizeLen)) && k + o.sizeLen <= |data|
  {
    hide ToBits, Value, BitsOf, BitAt, LebFrom, ByteFrom, Obu.HeadBytes, LebBytes;
    var k := |o.HeadBytes()|;
    var s := LebBytes(|o.payload|, o.sizeLen);
    assert data[k..k + |s|] == o.Bytes()[k..k + |s|] == s;
    BytesShown(data, k, s);
    LebInverts(data, 8 * k, 8 * |data|, |o.payload|, o.sizeLen, MAX_LEB_BYTES);
  }

  /** An OBU with something behind it, or nothing if its size is not written, is measured as it was written. */
  lemma ObuReads(o: Obu, rest: seq<byte>)
    requires o.Valid() && (o.sizeLen > 0 || rest == [])
    ensures ObuOf(o.Bytes() + rest) == Some((o.Header(), |o.Bytes()|))
  {
    hide ToBits, Value, BitsOf, BitAt, HeaderOf, ParseLeb, ByteFrom, Obu.HeadBytes, LebBytes;
    var data := o.Bytes() + rest;
    HeaderShown(o, data);
    if o.sizeLen > 0 {
      SizeReads(o, data);
      WholeBytes(HeaderBytes(o.Header()), o.sizeLen);
    }
  }

  // ----- A packet

  /** The OBUs from i on, one behind the other. */
  function Join(obus: seq<Obu>, i: nat): (s: seq<byte>)
    requires i <= |obus|
    decreases |obus| - i
  {
    if i == |obus| then [] else obus[i].Bytes() + Join(obus, i + 1)
  }

  /** Only the last OBU may leave its size out. */
  ghost predicate Writable(obus: seq<Obu>) {
    && (forall i :: 0 <= i < |obus| ==> obus[i].Valid())
    && (forall i :: 0 <= i < |obus| - 1 ==> obus[i].sizeLen > 0)
  }

  /** The first n units are the first n OBUs. */
  ghost predicate Returned(units: seq<Unit>, obus: seq<Obu>, n: nat)
    requires n <= |obus|
  {
    && |units| == n
    && forall i :: 0 <= i < n ==> IsReturned(units[i], obus[i])
  }

  ghost predicate IsReturned(unit: Unit, o: Obu) {
    && unit.rbsp == o.Bytes() && unit.rawSize == |o.Bytes()| && unit.typ == o.typ
    && unit.temporalID == o.Header().temporalID && unit.spatialID == o.Header().spatialID
  }

  lemma NextObu(data: seq<byte>, off: nat, obus: seq<Obu>, i: nat)
    requires i < |obus| && Writable(obus) && off <= |data| && data[off..] == Join(obus, i)
    ensures var o := obus[i];
            && off + |o.Bytes()| <= |data|
            && ObuOf(data[off..]) == Some((o.Header(), |o.Bytes()|))
            && IsReturned(UnitOf(data, off, o.Header(), |o.Bytes()|), o)
            && data[off + |o.Bytes()|..] == Join(obus, i + 1)
            && |o.Bytes()| > 0
  {
    hide ObuOf, Obu.HeadBytes, LebBytes, Obu.Valid;
    var o, rest := obus[i], Join(obus, i + 1);
    ObuReads(o, rest);
    assert data[off..] == o.Bytes() + rest;
    assert data[off..off + |o.Bytes()|] == data[off..][..|o.Bytes()|];
    assert data[off + |o.Bytes()|..] == data[off..][|o.Bytes()|..];
  }

  lemma {:induction false} JoinSplits(data: seq<byte>, off: nat, obus: seq<Obu>, i: nat, units: seq<Unit>)
    requires i <= |obus| && Writable(obus) && off <= |data| && data[off..] == Join(obus, i) && Returned(units, obus, i)
    ensures var (all, ok) := UnitsFrom(data, off, units);
            ok && Returned(all, obus, |obus|)
    decreases |obus| - i
  {
    hide ObuOf, UnitOf, IsReturned, Obu.Bytes, Writable;
    if i < |obus| {
      var o := obus[i];
      NextObu(data, off, obus, i);
      JoinSplits(data, off + |o.Bytes()|, obus, i + 1, units + [UnitOf(data, off, o.Header(), |o.Bytes()|)]);
    }
  }

  lemma JoinStarts(obus: seq<Obu>)
    requires Writable(obus) && |obus| > 0
    ensures |Join(obus, 0)| > 0 && Join(obus, 0)[0] < 128
  {
    hide Obu.Bytes, Value, ToBits;
    var o := obus[0];
    assert o.Valid();
    FirstByte(o);
  }

  lemma FirstByte(o: Obu)
    requires o.Valid()
    ensures |o.Bytes()| > 0 && o.Bytes()[0] < 128
  {
    hide Value, ToBits;
    var b := o.HeaderBits();
    HeaderBitsAre(o);
    assert b == [b[0]] + b[1..];
    ValueCons(b[0], b[1..]);
    ValueBound(b[1..]);
    SevenBits();
    assert o.Bytes()[0] == ByteOf(b);
  }

  lemma SevenBits()
    ensures Pow2(7) == 128
  {
    ShlSeven(1);
  }

  /**
   * The splitter inverts the writer: OBUs written one behind the other, bare or behind the four bytes of a
   * configuration record in extradata, come back as exactly those OBUs, in order.
   */
  lemma SplitInverts(record: seq<byte>, obus: seq<Obu>, header: bool)
    requires Writable(obus) && |record + Join(obus, 0)| <= MAX_FRAGMENT
    requires record == [] || (header && |record| == 4 && record[0] == 129)
    ensures var (units, ok) := Split(record + Join(obus, 0), header);
            ok && Returned(units, obus, |obus|)
  {
    hide ObuOf, Writable, Join;
    var data := record + Join(obus, 0);
    var off := |record|;
    if |obus| > 0 {
      JoinStarts(obus);
    } else {
      NoObus(obus);
    }
    assert data[off..] == Join(obus, 0);
    JoinSplits(data, off, obus, 0, []);
  }

  lemma NoObus(obus: seq<Obu>)
    requires obus == []
    ensures Join(obus, 0) == []
  {
  }
}
