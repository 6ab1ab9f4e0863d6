/**
 * Round trips through the NAL splitter: Annex B of ITU-T H.264 (start codes) and length-prefixed units.
 */
module AnnexB {
  import opened Common
  import opened Powers
  import opened Bits
  import opened Rbsp
  import opened Escape
  import opened NalSplit

  // ----- Zero bytes after a payload change neither its bits nor its header

  lemma {:induction false} ZeroByteBits(n: nat, i: nat)
    requires i < n
    ensures !ToBits(0, n)[i]
  {
    if i > 0 {
      ZeroByteBits(n - 1, i - 1);
    }
  }

  lemma PaddedBit(p: seq<byte>, k: nat, q: nat)
    ensures BitAt(p + Zeros(k), q) == BitAt(p, q)
  {
    var padded := p + Zeros(k);
    var j, off := BytePosition(q);
    if j < |padded| {
      BitOfStream(padded, j, off);
      if j < |p| {
        BitOfStream(p, j, off);
      } else {
        ZeroByteBits(8, off);
      }
    }
  }

  lemma {:induction false} PaddedBits(p: seq<byte>, k: nat, q: nat, n: nat)
    ensures BitsOf(p + Zeros(k), q, n) == BitsOf(p, q, n)
  {
    if n > 0 {
      PaddedBits(p, k, q, n - 1);
      PaddedBit(p, k, q + n - 1);
    }
  }

  lemma PaddedHeader(codec: Codec, p: seq<byte>, k: nat)
    ensures HeaderOf(codec, p + Zeros(k)) == HeaderOf(codec, p)
  {
    PaddedBit(p, k, 0);
    match codec {
      case H264 =>
        PaddedBits(p, k, 3, 5);
        PaddedBits(p, k, 1, 2);
      case H265 =>
        PaddedBits(p, k, 1, 6);
        PaddedBits(p, k, 7, 6);
        PaddedBits(p, k, 13, 3);
    }
  }

  lemma PaddedStrips(p: seq<byte>, k: nat)
    requires Carriable(p)
    ensures StrippedLength(p + Zeros(k)) == |p| && (p + Zeros(k))[..|p|] == p
  {
    StrippedLengthUnique(p + Zeros(k), |p|);
  }

  // ----- One unit

  /** A payload the splitter can hand on: it can be carried and its header is neither bad nor filtered. */
  ghost predicate Listed(codec: Codec, p: seq<byte>) {
    var header := HeaderOf(codec, p);
    Carriable(p) && header.skip == NotSkipped && !LayerFiltered(codec, header)
  }

  /** An H.264 payload is listed exactly when its first bit, forbidden_zero_bit, is zero. */
  lemma H264Listed(p: seq<byte>)
    requires Carriable(p)
    ensures Listed(H264, p) <==> !BitAt(p, 0)
  {
  }

  /**
   * An H.265 payload is listed exactly when it has both bytes of a header with a clear first bit and a temporal id, and
   * belongs to layer 0, or is a parameter set of a layer other than 63.
   */
  lemma H265Listed(p: seq<byte>)
    requires Carriable(p)
    ensures Listed(H265, p)
       <==> && |p| >= 2 && p[0] < 128 && p[1] % 8 != 0
            && var typ, layer := p[0] / 2, 32 * (p[0] % 2) + p[1] / 8;
               layer != 63 && (layer == 0 || typ in {32, 33, 34})
  {
    hide HeaderOf;
    if |p| >= 2 {
      H265HeaderOnBytes(p);
    } else {
      H265HeaderTooShort(p);
    }
  }

  /** A video parameter set of H.265. */
  lemma ParameterSetExample()
    ensures var p: seq<byte> := [0x40, 0x01, 0x0c];
            Carriable(p) && Listed(H265, p) && HeaderOf(H265, p) == Header(32, 0, 0, 0, NotSkipped)
  {
    hide Listed, HeaderOf;
    var p: seq<byte> := [0x40, 0x01, 0x0c];
    H265HeaderOnBytes(p);
    H265Listed(p);
  }

  /** rec holds payload p: its header, and its bytes once trailing zeros are stripped. */
  ghost predicate Carries(codec: Codec, rec: NalRec, p: seq<byte>) {
    && rec.header == HeaderOf(codec, p)
    && StrippedLength(rec.rbsp) == |p| && rec.rbsp[..|p|] == p
  }

  lemma RecordCarries(buf: seq<byte>, codec: Codec, start: nat, prefix: nat, next: nat, p: seq<byte>, k: nat)
    requires start <= next <= |buf| && Listed(codec, p) && StartsWith(Window(buf, start, next), p, k)
    ensures var rec := RecordOf(buf, codec, start, prefix, next);
            Carries(codec, rec, p) && rec.raw == |Escaped(p)| + k
  {
    ExtractInvertsEscape(Window(buf, start, next), p, k);
    PaddedHeader(codec, p, k);
    PaddedStrips(p, k);
  }

  ghost predicate AllCarried(codec: Codec, nals: seq<NalRec>, payloads: seq<seq<byte>>, n: nat)
    requires n <= |payloads|
  {
    |nals| == n && forall i :: 0 <= i < n ==> Carries(codec, nals[i], payloads[i])
  }

  lemma AnotherCarried(codec: Codec, nals: seq<NalRec>, payloads: seq<seq<byte>>, n: nat, rec: NalRec)
    requires n < |payloads| && AllCarried(codec, nals, payloads, n)
    requires Listed(codec, payloads[n]) && Carries(codec, rec, payloads[n])
    ensures AllCarried(codec, Collect(nals, rec), payloads, n + 1)
  {
  }

  // ----- Pieces of a buffer

  /** s stands in buf at pos. */
  ghost predicate HoldsAt(buf: seq<byte>, pos: nat, s: seq<byte>) {
    pos + |s| <= |buf| && forall k :: pos <= k < pos + |s| ==> buf[k] == s[k - pos]
  }

  lemma HoldsParts(buf: seq<byte>, pos: nat, a: seq<byte>, b: seq<byte>)
    requires HoldsAt(buf, pos, a + b)
    ensures HoldsAt(buf, pos, a) && HoldsAt(buf, pos + |a|, b)
  {
    var s := a + b;
    forall k | pos + |a| <= k < pos + |s|
      ensures buf[k] == b[k - (pos + |a|)]
    {
      assert s[k - pos] == b[k - (pos + |a|)];
    }
  }

  /** The escaped payload and gap zeros at pos, with a start code or the end of the window at limit behind them. */
  lemma PiecesStart(buf: seq<byte>, pos: nat, limit: nat, p: seq<byte>, gap: nat)
    requires HoldsAt(buf, pos, Escaped(p)) && HoldsAt(buf, pos + |Escaped(p)|, Zeros(gap))
    requires pos + |Escaped(p)| + gap <= limit <= |buf|
    requires pos + |Escaped(p)| + gap == limit
             || (limit == |buf| && Hit(buf, pos + |Escaped(p)| + gap, 1, 1))
    ensures StartsWith(Window(buf, pos, limit), p, gap)
  {
    var e, w := Escaped(p), Window(buf, pos, limit);
    assert forall k :: 0 <= k < |e| ==> w[k] == e[k];
    assert w[..|e|] == e;
  }

  // ----- Annex B

  const START_CODE: seq<byte> := [0, 0, 1]

  /** Everything from the start code of payload i on: start code, escaped payload, zeros, and the rest. */
  function Units(payloads: seq<seq<byte>>, gaps: seq<nat>, i: nat): (s: seq<byte>)
    requires i <= |payloads| == |gaps|
    decreases |payloads| - i
  {
    if i == |payloads| then []
    else START_CODE + (Escaped(payloads[i]) + (Zeros(gaps[i]) + Units(payloads, gaps, i + 1)))
  }

  /** An Annex B byte stream: lead zeros, then each payload behind a start code, with gaps[i] zeros after it. */
  function ByteStream(payloads: seq<seq<byte>>, gaps: seq<nat>, lead: nat): seq<byte>
    requires |payloads| == |gaps|
  {
    Zeros(lead) + Units(payloads, gaps, 0)
  }

  /** buf ends with the units from i on, starting at pos. */
  ghost predicate UnitsAt(buf: seq<byte>, pos: nat, payloads: seq<seq<byte>>, gaps: seq<nat>, i: nat)
    requires i <= |payloads| == |gaps|
  {
    HoldsAt(buf, pos, Units(payloads, gaps, i)) && pos + |Units(payloads, gaps, i)| == |buf|
  }

  /** The pieces of the unit at pos, and the units behind it. */
  lemma UnitPieces(buf: seq<byte>, pos: nat, payloads: seq<seq<byte>>, gaps: seq<nat>, i: nat)
    requires i < |payloads| == |gaps| && UnitsAt(buf, pos, payloads, gaps, i)
    ensures var e := Escaped(payloads[i]);
            && HoldsAt(buf, pos, START_CODE)
            && HoldsAt(buf, pos + 3, e)
            && HoldsAt(buf, pos + 3 + |e|, Zeros(gaps[i]))
            && UnitsAt(buf, pos + 3 + |e| + gaps[i], payloads, gaps, i + 1)
  {
    hide HoldsAt, Escaped;
    var e, z, rest := Escaped(payloads[i]), Zeros(gaps[i]), Units(payloads, gaps, i + 1);
    HoldsParts(buf, pos, START_CODE, e + (z + rest));
    HoldsParts(buf, pos + 3, e, z + rest);
    HoldsParts(buf, pos + 3 + |e|, z, rest);
  }

  lemma StartCodeHits(buf: seq<byte>, pos: nat)
    requires HoldsAt(buf, pos, START_CODE)
    ensures pos + 3 <= |buf| && Hit(buf, pos, 1, 1)
  {
    assert START_CODE[0] == START_CODE[1] == 0 && START_CODE[2] == 1;
  }

  lemma StartOrEnd(buf: seq<byte>, pos: nat, payloads: seq<seq<byte>>, gaps: seq<nat>, i: nat)
    requires i <= |payloads| == |gaps| && UnitsAt(buf, pos, payloads, gaps, i)
    ensures pos == |buf| || Hit(buf, pos, 1, 1)
  {
    if i < |payloads| {
      UnitPieces(buf, pos, payloads, gaps, i);
      StartCodeHits(buf, pos);
    }
  }

  lemma UnitStarts(buf: seq<byte>, pos: nat, payloads: seq<seq<byte>>, gaps: seq<nat>, i: nat)
    requires i < |payloads| == |gaps| && UnitsAt(buf, pos, payloads, gaps, i)
    ensures pos + 3 + |Escaped(payloads[i])| <= |buf| && Hit(buf, pos, 1, 1)
    ensures StartsWith(Window(buf, pos + 3, |buf|), payloads[i], gaps[i])
    ensures UnitsAt(buf, pos + 3 + |Escaped(payloads[i])| + gaps[i], payloads, gaps, i + 1)
  {
    UnitPieces(buf, pos, payloads, gaps, i);
    StartCodeHits(buf, pos);
    StartOrEnd(buf, pos + 3 + |Escaped(payloads[i])| + gaps[i], payloads, gaps, i + 1);
    PiecesStart(buf, pos + 3, |buf|, payloads[i], gaps[i]);
  }

  /** lead zeros and a start code with something behind it: the splitter finds a unit right after the start code. */
  lemma SkipsStartCode(buf: seq<byte>, pos: nat, lead: nat, found: bool)
    requires pos + lead + 3 < |buf| && Hit(buf, pos + lead, 1, 1) && HoldsAt(buf, pos, Zeros(lead))
    ensures NextStep(buf, 0, pos, |buf|, found) == Nal(pos + lead + 3, lead + 3, |buf|)
  {
    var w := Window(buf, pos, |buf|);
    assert forall k :: 0 <= k < lead ==> w[k] == Zeros(lead)[k];
    assert w[lead] == 0 && w[lead + 1] == 0 && w[lead + 2] == 1;
    FirstHitIs(w, 0, lead, 1, 1);
  }

  /** One round of the splitter on an Annex B stream. */
  lemma ByteStreamStep(buf: seq<byte>, codec: Codec, pos: nat, lead: nat, payloads: seq<seq<byte>>, gaps: seq<nat>,
                       i: nat, found: bool)
    requires i < |payloads| == |gaps| && Listed(codec, payloads[i])
    requires HoldsAt(buf, pos, Zeros(lead)) && UnitsAt(buf, pos + lead, payloads, gaps, i)
    ensures pos + lead + 3 < |buf| && NextStep(buf, 0, pos, |buf|, found) == Nal(pos + lead + 3, lead + 3, |buf|)
    ensures var rec := RecordOf(buf, codec, pos + lead + 3, lead + 3, |buf|);
            Carries(codec, rec, payloads[i])
            && UnitsAt(buf, pos + lead + 3 + rec.raw, payloads, gaps, i + 1)
  {
    hide NextStep, RecordOf, HeaderOf, Carries, Units, Escaped, UnitsAt, HoldsAt, StartsWith;
    UnitStarts(buf, pos + lead, payloads, gaps, i);
    SkipsStartCode(buf, pos, lead, found);
    RecordCarries(buf, codec, pos + lead + 3, lead + 3, |buf|, payloads[i], gaps[i]);
  }

  lemma ByteStreamEnds(buf: seq<byte>, codec: Codec, pos: nat, payloads: seq<seq<byte>>, gaps: seq<nat>,
                       nals: seq<NalRec>)
    requires |payloads| == |gaps| && UnitsAt(buf, pos, payloads, gaps, |payloads|)
    ensures SplitFrom(buf, codec, 0, pos, |buf|, nals) == (nals, true)
  {
  }

  lemma {:induction false} ByteStreamSplits(buf: seq<byte>, codec: Codec, pos: nat, lead: nat,
                                            payloads: seq<seq<byte>>, gaps: seq<nat>,
                                            i: nat, nals: seq<NalRec>)
    requires i <= |payloads| == |gaps| && forall p :: p in payloads ==> Listed(codec, p)
    requires HoldsAt(buf, pos, Zeros(lead)) && UnitsAt(buf, pos + lead, payloads, gaps, i)
    requires AllCarried(codec, nals, payloads, i)
    requires i == |payloads| ==> lead == 0
    ensures var (all, ok) := SplitFrom(buf, codec, 0, pos, |buf|, nals);
            ok && AllCarried(codec, all, payloads, |payloads|)
    decreases |payloads| - i
  {
    hide NextStep, RecordOf, HeaderOf, Carries, Listed, Units, Escaped, AllCarried, UnitsAt, Collect;
    if i == |payloads| {
      ByteStreamEnds(buf, codec, pos, payloads, gaps, nals);
    } else {
      ByteStreamStep(buf, codec, pos, lead, payloads, gaps, i, nals != []);
      var rec := RecordOf(buf, codec, pos + lead + 3, lead + 3, |buf|);
      AnotherCarried(codec, nals, payloads, i, rec);
      ByteStreamSplits(buf, codec, pos + lead + 3 + rec.raw, 0, payloads, gaps, i + 1, Collect(nals, rec));
    }
  }

  // ----- Length-prefixed units

  /** v as n bytes, most significant first. */
  function LengthField(v: nat, n: nat): (s: seq<byte>)
    ensures |s| == n
    decreases n
  {
    if n == 0 then [] else LengthField(v / 256, n - 1) + [v % 256]
  }

  lemma {:induction false} BigEndianAgree(a: seq<byte>, b: seq<byte>, n: nat)
    requires n <= |a| && n <= |b| && forall k :: 0 <= k < n ==> a[k] == b[k]
    ensures BigEndian(a, n) == BigEndian(b, n)
  {
    if n > 0 {
      BigEndianAgree(a, b, n - 1);
    }
  }

  /** The size that a length field writes is read back. */
  lemma {:induction false} FieldReads(v: nat, n: nat)
    requires v < Pow2(8 * n)
    ensures BigEndian(LengthField(v, n), n) == v
    decreases n
  {
    if n > 0 {
      var high := LengthField(v / 256, n - 1);
      ShlShl(1, 8 * (n - 1), 8);
      ShlByte(Pow2(8 * (n - 1)));
      FieldReads(v / 256, n - 1);
      BigEndianAgree(high + [v % 256], high, n - 1);
      ShlByte(v / 256);
    }
  }

  /** Everything from the length field of payload i on. */
  function Records(payloads: seq<seq<byte>>, size: nat, i: nat): (s: seq<byte>)
    requires i <= |payloads|
    decreases |payloads| - i
  {
    if i == |payloads| then []
    else LengthField(|Escaped(payloads[i])|, size) + (Escaped(payloads[i]) + Records(payloads, size, i + 1))
  }

  ghost predicate RecordsAt(buf: seq<byte>, pos: nat, payloads: seq<seq<byte>>, size: nat, i: nat)
    requires i <= |payloads|
  {
    HoldsAt(buf, pos, Records(payloads, size, i)) && pos + |Records(payloads, size, i)| == |buf|
  }

  lemma RecordPieces(buf: seq<byte>, pos: nat, payloads: seq<seq<byte>>, size: nat, i: nat)
    requires i < |payloads| && RecordsAt(buf, pos, payloads, size, i)
    ensures var e := Escaped(payloads[i]);
            && HoldsAt(buf, pos, LengthField(|e|, size))
            && HoldsAt(buf, pos + size, e)
            && RecordsAt(buf, pos + size + |e|, payloads, size, i + 1)
  {
    hide HoldsAt, Escaped;
    var e, rest := Escaped(payloads[i]), Records(payloads, size, i + 1);
    HoldsParts(buf, pos, LengthField(|e|, size), e + rest);
    HoldsParts(buf, pos + size, e, rest);
  }

  /** A payload whose escaped form fits a length field of size bytes. */
  ghost predicate Prefixable(codec: Codec, p: seq<byte>, size: nat) {
    Listed(codec, p) && |Escaped(p)| < Pow2(8 * size)
  }

  /** At a length field the splitter finds the bytes it announces. */
  lemma ReadsLength(buf: seq<byte>, pos: nat, size: nat, n: nat, found: bool)
    requires pos + size + n <= |buf| && |buf| - pos >= 4 && 0 < n < Pow2(8 * size)
    requires HoldsAt(buf, pos, LengthField(n, size))
    ensures NextStep(buf, size, pos, pos, found) == Nal(pos + size, size, pos + size + n)
  {
    hide LengthField, Pow2;
    var w := Window(buf, pos, |buf|);
    assert forall k :: 0 <= k < size ==> w[k] == LengthField(n, size)[k];
    BigEndianAgree(w, LengthField(n, size), size);
    FieldReads(n, size);
  }

  /** One round of the splitter on length-prefixed units. */
  lemma RecordStep(buf: seq<byte>, codec: Codec, pos: nat, payloads: seq<seq<byte>>, size: nat, i: nat, found: bool)
    requires i < |payloads| && Prefixable(codec, payloads[i], size)
    requires RecordsAt(buf, pos, payloads, size, i) && |buf| - pos >= 4
    ensures var n := |Escaped(payloads[i])|;
            && pos + size + n <= |buf|
            && NextStep(buf, size, pos, pos, found) == Nal(pos + size, size, pos + size + n)
            && RecordsAt(buf, pos + size + n, payloads, size, i + 1)
            && var rec := RecordOf(buf, codec, pos + size, size, pos + size + n);
            Carries(codec, rec, payloads[i]) && rec.raw == n
  {
    hide NextStep, RecordOf, HeaderOf, Carries, Records, RecordsAt, LengthField;
    var n := |Escaped(payloads[i])|;
    RecordPieces(buf, pos, payloads, size, i);
    ReadsLength(buf, pos, size, n, found);
    PiecesStart(buf, pos + size, pos + size + n, payloads[i], 0);
    RecordCarries(buf, codec, pos + size, size, pos + size + n, payloads[i], 0);
  }

  /** How many of the payloads are reached: all of them, unless the last record takes fewer than four bytes. */
  function Reached(payloads: seq<seq<byte>>, size: nat): (n: nat)
    ensures n <= |payloads|
  {
    if payloads != [] && size + |Escaped(payloads[|payloads| - 1])| < 4 then |payloads| - 1 else |payloads|
  }

  lemma RecordsLength(payloads: seq<seq<byte>>, size: nat, i: nat)
    requires i <= |payloads| && size > 0 && forall p :: p in payloads ==> |p| > 0
    ensures if i < |payloads|
            then |Records(payloads, size, i)| == size + |Escaped(payloads[i])| + |Records(payloads, size, i + 1)|
                 && |Escaped(payloads[i])| > 0
            else Records(payloads, size, i) == []
  {
    assert i < |payloads| ==> payloads[i] in payloads;
  }

  /** At least four bytes are left exactly where a payload is still to be reached. */
  lemma BytesLeft(buf: seq<byte>, pos: nat, payloads: seq<seq<byte>>, size: nat, i: nat)
    requires i <= |payloads| && RecordsAt(buf, pos, payloads, size, i)
    requires size > 0 && forall p :: p in payloads ==> |p| > 0
    ensures |buf| - pos >= 4 <==> i < Reached(payloads, size)
  {
    hide HoldsAt, LengthField, Escaped;
    if i < |payloads| {
      RecordsLength(payloads, size, i);
      RecordsLength(payloads, size, i + 1);
    }
  }

  lemma RecordsEnd(buf: seq<byte>, codec: Codec, pos: nat, size: nat, nals: seq<NalRec>)
    requires pos <= |buf| < pos + 4
    ensures SplitFrom(buf, codec, size, pos, pos, nals) == (nals, true)
  {
  }

  lemma {:induction false} RecordsSplit(buf: seq<byte>, codec: Codec, pos: nat, payloads: seq<seq<byte>>, size: nat,
                                        i: nat, nals: seq<NalRec>)
    requires i <= Reached(payloads, size) && size > 0 && forall p :: p in payloads ==> Prefixable(codec, p, size)
    requires RecordsAt(buf, pos, payloads, size, i) && AllCarried(codec, nals, payloads, i)
    ensures pos <= |buf|
    ensures var (all, ok) := SplitFrom(buf, codec, size, pos, pos, nals);
            ok && AllCarried(codec, all, payloads, Reached(payloads, size))
    decreases |payloads| - i
  {
    hide NextStep, RecordOf, HeaderOf, Carries, Records, HoldsAt, Escaped, AllCarried, Collect, Reached;
    assert forall p :: p in payloads ==> Prefixable(codec, p, size) && |p| > 0;
    BytesLeft(buf, pos, payloads, size, i);
    if i == Reached(payloads, size) {
      RecordsEnd(buf, codec, pos, size, nals);
    } else {
      var n := |Escaped(payloads[i])|;
      RecordStep(buf, codec, pos, payloads, size, i, nals != []);
      var rec := RecordOf(buf, codec, pos + size, size, pos + size + n);
      AnotherCarried(codec, nals, payloads, i, rec);
      RecordsSplit(buf, codec, pos + size + n, payloads, size, i + 1, Collect(nals, rec));
    }
  }

  // ----- What becomes of the records

  lemma {:induction false} UnitAt(codec: Codec, nals: seq<NalRec>, n: nat, baseOffset: nat, i: nat)
    requires i < n <= |nals|
    ensures UnitsOf(codec, nals, n, baseOffset)[i] == UnitOf(codec, nals[i], baseOffset)
  {
    if i < n - 1 {
      UnitAt(codec, nals, n - 1, baseOffset, i);
    }
  }

  /** The units are exactly the payloads, in order, none skipped, each with its own header. */
  ghost predicate Recovered(codec: Codec, units: seq<Unit>, payloads: seq<seq<byte>>) {
    && |units| == |payloads|
    && forall i :: 0 <= i < |units| ==> units[i].rbsp == payloads[i] && units[i].header == HeaderOf(codec, payloads[i])
                                        && units[i].header.skip == NotSkipped
  }

  lemma CarriedRecovered(codec: Codec, nals: seq<NalRec>, payloads: seq<seq<byte>>, n: nat)
    requires n <= |payloads| && AllCarried(codec, nals, payloads, n) && forall p :: p in payloads ==> Listed(codec, p)
    ensures Recovered(codec, UnitsOf(codec, nals, |nals|, 0), payloads[..n])
  {
    forall i | 0 <= i < |nals|
      ensures var unit := UnitsOf(codec, nals, |nals|, 0)[i];
              unit.rbsp == payloads[i] && unit.header == HeaderOf(codec, payloads[i]) && unit.header.skip == NotSkipped
    {
      UnitAt(codec, nals, |nals|, 0, i);
      assert Listed(codec, payloads[i]) && Carries(codec, nals[i], payloads[i]);
    }
  }

  /**
   * Annex B round trip. Take any payloads whose headers parse and that end in a nonzero byte; escape each,
   * put a start code before it with any number of zeros in front of the first and after each. Splitting
   * and adding the units gives back exactly those payloads.
   */
  lemma ByteStreamRoundTrip(codec: Codec, payloads: seq<seq<byte>>, gaps: seq<nat>, lead: nat)
    requires |payloads| == |gaps| > 0 && forall p :: p in payloads ==> Listed(codec, p)
    ensures var (nals, ok) := Split(ByteStream(payloads, gaps, lead), codec, 0, false);
            ok && Recovered(codec, UnitsOf(codec, nals, |nals|, 0), payloads)
  {
    hide NextStep, RecordOf, HeaderOf, Units, Listed, UnitsOf, Carries;
    var buf := ByteStream(payloads, gaps, lead);
    var units := Units(payloads, gaps, 0);
    assert HoldsAt(buf, 0, buf);
    HoldsParts(buf, 0, Zeros(lead), units);
    ByteStreamSplits(buf, codec, 0, lead, payloads, gaps, 0, []);
    CarriedRecovered(codec, Split(buf, codec, 0, false).0, payloads, |payloads|);
    assert payloads[..|payloads|] == payloads;
  }

  /**
   * Length-prefixed round trip. Join escaped payloads behind length fields of size bytes: splitting and
   * adding the units gives back the payloads, except that a last record of fewer than four bytes in all is
   * dropped. So all come back if and only if the last record has at least four bytes.
   */
  lemma LengthPrefixedRoundTrip(codec: Codec, payloads: seq<seq<byte>>, size: nat)
    requires 1 <= size <= 4 && forall p :: p in payloads ==> Prefixable(codec, p, size)
    ensures var (nals, ok) := Split(Records(payloads, size, 0), codec, size, true);
            var units := UnitsOf(codec, nals, |nals|, 0);
            && ok && Recovered(codec, units, payloads[..Reached(payloads, size)])
            && (Recovered(codec, units, payloads)
                <==> payloads == [] || size + |Escaped(payloads[|payloads| - 1])| >= 4)
  {
    hide NextStep, RecordOf, HeaderOf, Records, Listed, Escaped, UnitsOf, Carries;
    var buf, n := Records(payloads, size, 0), Reached(payloads, size);
    assert HoldsAt(buf, 0, buf);
    RecordsSplit(buf, codec, 0, payloads, size, 0, []);
    CarriedRecovered(codec, Split(buf, codec, size, true).0, payloads, n);
    assert n == |payloads| ==> payloads[..n] == payloads;
  }

  /** A record that is dropped: one payload of one byte behind a length of one byte. */
  lemma ShortRecordExample()
    ensures var p: seq<byte> := [0x65];
            && Prefixable(H264, p, 1) && Records([p], 1, 0) == [1, 0x65]
            && Split(Records([p], 1, 0), H264, 1, true) == ([], true)
  {
    hide BitsOf, Value, HeaderOf, Listed;
    var p: seq<byte> := [0x65];
    assert EscapeTo(p, 0) == [] && Escaped(p) == p;
    assert Records([p], 1, 1) == [] && LengthField(1, 0) == LengthField(0, 0) == [] && LengthField(1, 1) == [1];
    assert Records([p], 1, 0) == [1, 0x65];
    ClearFirstBit(p);
    H264Listed(p);
    ShlByte(1);
  }

  lemma ClearFirstBit(p: seq<byte>)
    requires |p| > 0 && p[0] < 128
    ensures !BitAt(p, 0)
  {
    assert Pow2(7) == 128 by {
      ShlFour(1);
    }
    StreamOfByte(p, 0);
    assert Stream(p)[0..8][0] == Stream(p)[0];
  }
}
