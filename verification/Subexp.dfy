/**
 * subexp of cbs/av1.go: a count of more-bits flags and then one read, measured against the loop of
 * section 5.9.28 of the AV1 specification and against a writer.
 */
module Subexp {
  import opened Common
  import opened Powers
  import opened Bits
  import opened BitReading
  import opened ExpGolomb
  import opened Av1Codes

  // ----- The specification's loop

  /** b2 and mk in round i of the loop. */
  function Width(i: nat): nat {
    if i == 0 then 3 else 2 + i
  }

  function Offset(i: nat): nat {
    if i == 0 then 0 else Pow2(2 + i)
  }

  lemma NextOffset(i: nat)
    ensures Offset(i + 1) == Offset(i) + Pow2(Width(i))
  {
  }

  /** Round i is the last when at most three more intervals of 2^b2 values are left. */
  predicate LastRound(numSyms: nat, i: nat) {
    numSyms <= Offset(i) + Pow2(Width(i)) + Pow2(Width(i)) + Pow2(Width(i))
  }

  /**
   * The control part of decode_subexp from round i on: the round j it stops in, and the position q after
   * the more-bits flags.
   */
  ghost function FindRound(data: seq<byte>, p: nat, numSyms: nat, i: nat): (nat, nat)
    requires Offset(i) < numSyms
    decreases numSyms - Offset(i)
  {
    NextOffset(i);
    if LastRound(numSyms, i) then (i, p)
    else if BitAt(data, p) then FindRound(data, p + 1, numSyms, i + 1)
    else (i, p + 1)
  }

  /** The read that ends a code word of round j, at position q: ns of all that is left, or the bits of the round. */
  ghost function Finish(data: seq<byte>, q: nat, numSyms: nat, j: nat, last: bool): (int, nat)
    requires Offset(j) < numSyms
  {
    var (v, next) := if last then ParseNs(data, q, numSyms - Offset(j))
                     else (Value(BitsOf(data, q, Width(j))), q + Width(j));
    (v + Offset(j), next)
  }

  /** The read that ends decode_subexp: subexp_final_bits or subexp_bits of round j. */
  ghost function Rest(data: seq<byte>, q: nat, numSyms: nat, j: nat): (int, nat)
    requires Offset(j) < numSyms
  {
    Finish(data, q, numSyms, j, LastRound(numSyms, j))
  }

  /** decode_subexp(numSyms): the value, and the position after it. */
  ghost function Decode(data: seq<byte>, p: nat, numSyms: nat): (int, nat)
    requires numSyms > 0
  {
    FoundRound(data, p, numSyms, 0);
    var (j, q) := FindRound(data, p, numSyms, 0);
    Rest(data, q, numSyms, j)
  }

  // ----- The writer

  /** The round whose interval holds v, from round i on. */
  function RoundOf(v: nat, numSyms: nat, i: nat): (j: nat)
    requires Offset(i) <= v < numSyms
    ensures i <= j && Offset(j) <= v && (LastRound(numSyms, j) || v < Offset(j + 1))
    decreases numSyms - Offset(i)
  {
    NextOffset(i);
    if LastRound(numSyms, i) || v < Offset(i + 1) then i else RoundOf(v, numSyms, i + 1)
  }

  /** The more-bits flags that lead from round i to round j. */
  function Flags(numSyms: nat, i: nat, j: nat): bits
    requires i <= j
    decreases j - i
  {
    if i < j then [true] + Flags(numSyms, i + 1, j)
    else if LastRound(numSyms, i) then [] else [false]
  }

  function RestCode(v: nat, numSyms: nat, j: nat): bits
    requires Offset(j) <= v < numSyms
  {
    if LastRound(numSyms, j) then NsCode(v - Offset(j), numSyms - Offset(j))
    else ToBits(v - Offset(j), Width(j))
  }

  /** The code word of v. */
  function Code(v: nat, numSyms: nat): bits
    requires v < numSyms
  {
    var j := RoundOf(v, numSyms, 0);
    Flags(numSyms, 0, j) + RestCode(v, numSyms, j)
  }

  // ----- Reading inverts writing, and every bit string decodes

  /** No round before j, from i on, is the last one. */
  ghost predicate Passes(numSyms: nat, i: nat, j: nat) {
    forall k :: i <= k < j ==> !LastRound(numSyms, k)
  }

  lemma {:induction false} FoundRound(data: seq<byte>, p: nat, numSyms: nat, i: nat)
    requires Offset(i) < numSyms
    ensures var (j, q) := FindRound(data, p, numSyms, i);
            i <= j && Offset(j) < numSyms && p <= q && Passes(numSyms, i, j)
            && q == p + |Flags(numSyms, i, j)| && BitsOf(data, p, q - p) == Flags(numSyms, i, j)
    decreases numSyms - Offset(i)
  {
    NextOffset(i);
    if !LastRound(numSyms, i) && BitAt(data, p) {
      FoundRound(data, p + 1, numSyms, i + 1);
      BitsOfHead(data, p, |Flags(numSyms, i, FindRound(data, p, numSyms, i).0)|);
    }
  }

  lemma {:induction false} FlagsLead(data: seq<byte>, p: nat, numSyms: nat, i: nat, j: nat)
    requires i <= j && Offset(i) < numSyms && Passes(numSyms, i, j)
    requires BitsOf(data, p, |Flags(numSyms, i, j)|) == Flags(numSyms, i, j)
    ensures FindRound(data, p, numSyms, i) == (j, p + |Flags(numSyms, i, j)|)
    decreases j - i
  {
    NextOffset(i);
    if i < j {
      assert !LastRound(numSyms, i);
      ShownHead(data, p, true, Flags(numSyms, i + 1, j));
      FlagsLead(data, p + 1, numSyms, i + 1, j);
    } else if !LastRound(numSyms, i) {
      assert [false] + [] == [false];
      ShownHead(data, p, false, []);
    }
  }

  lemma NsDecodes(data: seq<byte>, p: nat, n: nat)
    requires n > 0
    ensures var (x, q) := ParseNs(data, p, n);
            NsShows(data, p, n, x) && q == p + |NsCode(x, n)|
  {
    NsComplete(data, p, n, Log2(n), NsShort(n));
  }

  lemma NsEncodes(data: seq<byte>, p: nat, n: nat, x: nat)
    requires n > 0 && NsShows(data, p, n, x)
    ensures ParseNs(data, p, n) == (x, p + |NsCode(x, n)|)
  {
    NsInverts(data, p, n, Log2(n), NsShort(n), x);
  }

  /** The final read yields a value of its own round, and shows that value's bits. */
  lemma RestDecodes(data: seq<byte>, q: nat, numSyms: nat, j: nat)
    requires Offset(j) < numSyms
    ensures var (v, next) := Rest(data, q, numSyms, j);
            && Offset(j) <= v < numSyms && (LastRound(numSyms, j) || v < Offset(j + 1))
            && next == q + |RestCode(v, numSyms, j)|
            && BitsOf(data, q, |RestCode(v, numSyms, j)|) == RestCode(v, numSyms, j)
  {
    if LastRound(numSyms, j) {
      NsDecodes(data, q, numSyms - Offset(j));
    } else {
      NextOffset(j);
      ValueBound(BitsOf(data, q, Width(j)));
      ToBitsValue(BitsOf(data, q, Width(j)));
    }
  }

  lemma RestEncodes(data: seq<byte>, q: nat, numSyms: nat, j: nat, v: nat)
    requires Offset(j) <= v < numSyms && (LastRound(numSyms, j) || v < Offset(j + 1))
    requires BitsOf(data, q, |RestCode(v, numSyms, j)|) == RestCode(v, numSyms, j)
    ensures Rest(data, q, numSyms, j) == (v, q + |RestCode(v, numSyms, j)|)
  {
    hide BitsOf, Value, Log2, ParseNs, NsCode, ToBits, LastRound;
    if LastRound(numSyms, j) {
      NsEncodes(data, q, numSyms - Offset(j), v - Offset(j));
    } else {
      NextOffset(j);
      ValueToBits(v - Offset(j), Width(j));
    }
  }

  lemma {:induction false} RoundPasses(v: nat, numSyms: nat, i: nat)
    requires Offset(i) <= v < numSyms
    ensures Passes(numSyms, i, RoundOf(v, numSyms, i))
    decreases numSyms - Offset(i)
  {
    NextOffset(i);
    if !LastRound(numSyms, i) && v >= Offset(i + 1) {
      RoundPasses(v, numSyms, i + 1);
    }
  }

  lemma {:induction false} RoundUnique(v: nat, numSyms: nat, i: nat, j: nat)
    requires i <= j && Offset(i) <= v < numSyms && Offset(j) <= v && Passes(numSyms, i, j)
    requires LastRound(numSyms, j) || v < Offset(j + 1)
    ensures RoundOf(v, numSyms, i) == j
    decreases j - i
  {
    if i < j {
      OffsetsGrow(i + 1, j);
      RoundUnique(v, numSyms, i + 1, j);
    }
  }

  lemma {:induction false} OffsetsGrow(i: nat, j: nat)
    requires i <= j
    ensures Offset(i) <= Offset(j)
    decreases j
  {
    if i < j {
      OffsetsGrow(i, j - 1);
      NextOffset(j - 1);
    }
  }

  /** Every bit string starts with the code word of some v below numSyms, and that v is what is decoded. */
  lemma DecodeIsCode(data: seq<byte>, p: nat, numSyms: nat)
    requires numSyms > 0
    ensures var (v, q) := Decode(data, p, numSyms);
            && 0 <= v < numSyms
            && q == p + |Code(v, numSyms)|
            && BitsOf(data, p, |Code(v, numSyms)|) == Code(v, numSyms)
  {
    hide BitsOf, Value, Rest, RestCode, Flags, FindRound;
    var (j, q) := FindRound(data, p, numSyms, 0);
    FoundRound(data, p, numSyms, 0);
    RestDecodes(data, q, numSyms, j);
    var v := Rest(data, q, numSyms, j).0;
    RoundUnique(v, numSyms, 0, j);
    BitsOfSplit(data, p, q - p, |RestCode(v, numSyms, j)|);
  }

  lemma DecodeOfParts(data: seq<byte>, p: nat, numSyms: nat, j: nat, v: nat)
    requires Offset(j) <= v < numSyms && (LastRound(numSyms, j) || v < Offset(j + 1)) && Passes(numSyms, 0, j)
    requires BitsOf(data, p, |Flags(numSyms, 0, j)|) == Flags(numSyms, 0, j)
    requires var q := p + |Flags(numSyms, 0, j)|;
             BitsOf(data, q, |RestCode(v, numSyms, j)|) == RestCode(v, numSyms, j)
    ensures Decode(data, p, numSyms) == (v, p + |Flags(numSyms, 0, j)| + |RestCode(v, numSyms, j)|)
  {
    FlagsLead(data, p, numSyms, 0, j);
    RestEncodes(data, p + |Flags(numSyms, 0, j)|, numSyms, j, v);
  }

  /** Reading inverts writing. */
  lemma DecodeInvertsCode(data: seq<byte>, p: nat, numSyms: nat, v: nat)
    requires v < numSyms && BitsOf(data, p, |Code(v, numSyms)|) == Code(v, numSyms)
    ensures Decode(data, p, numSyms) == (v, p + |Code(v, numSyms)|)
  {
    hide Decode, BitsOf, Flags, RestCode;
    var j := RoundOf(v, numSyms, 0);
    RoundPasses(v, numSyms, 0);
    ShownPieces(data, p, Flags(numSyms, 0, j), RestCode(v, numSyms, j));
    DecodeOfParts(data, p, numSyms, j, v);
  }

  // ----- The reader of the source

  /** log2u32, which yields -1 for zero. */
  function Log2u32(v: uint32): int {
    if v == 0 then -1 else Log2(v)
  }

  /** The number of more-bits flags that can be set. Below nine values the difference is negative and wraps. */
  function MaxLen(rangeMax: uint32): uint32
    requires rangeMax > 0
  {
    Wrap32(Log2u32(rangeMax - 1) - 3)
  }

  lemma MaxLenIs(rangeMax: uint32)
    requires rangeMax >= 9
    ensures Pow2(MaxLen(rangeMax) + 3) < rangeMax <= Pow2(MaxLen(rangeMax) + 4)
    ensures MaxLen(rangeMax) == Log2(rangeMax - 1) - 3 < 29
  {
    assert Pow2(3) == 8;
    NsWordFits(rangeMax - 1);
    if Log2(rangeMax - 1) < 3 {
      Pow2Monotone(Log2(rangeMax - 1) + 1, 3);
    }
  }

  /** Up to the limit, a round starts below rangeMax. */
  lemma RoundStarts(rangeMax: uint32, i: nat)
    requires rangeMax >= 9 && i <= MaxLen(rangeMax)
    ensures Offset(i) < rangeMax
  {
    MaxLenIs(rangeMax);
    if i > 0 {
      Pow2Monotone(2 + i, MaxLen(rangeMax) + 3);
    }
  }

  /** What readSubexp reads: its value and the position after it. */
  ghost function SourceDecode(data: seq<byte>, p: nat, rangeMax: uint32): (int, nat)
    requires rangeMax >= 9
  {
    var c := CountOnes(data, p, MaxLen(rangeMax));
    RoundStarts(rangeMax, c);
    Finish(data, p + UnaryLength(c, MaxLen(rangeMax)), rangeMax, c, c == MaxLen(rangeMax))
  }

  // ----- The reader agrees with the loop

  /** Except from 17 to 24 values, the loop's stopping round is exactly the reader's limit. */
  lemma LastRoundIsMaxLen(rangeMax: uint32, i: nat)
    requires 9 <= rangeMax <= 16 || rangeMax >= 25
    ensures LastRound(rangeMax, i) <==> i >= MaxLen(rangeMax)
  {
    var k := MaxLen(rangeMax);
    MaxLenIs(rangeMax);
    if i == 0 {
      assert Pow2(4) == Pow2(3) + Pow2(3) == 16;
      if k > 0 {
        Pow2Monotone(4, k + 3);
      }
    } else {
      assert Pow2(i + 4) == Pow2(i + 3) + Pow2(i + 3) && Pow2(i + 3) == Pow2(i + 2) + Pow2(i + 2);
      if i < k {
        Pow2Monotone(i + 4, k + 3);
      } else {
        Pow2Monotone(k + 4, i + 4);
      }
    }
  }

  /** The control part of the loop is a count of flags up to the reader's limit. */
  lemma {:induction false} RoundIsCount(data: seq<byte>, p: nat, rangeMax: uint32, i: nat)
    requires 9 <= rangeMax <= 16 || rangeMax >= 25
    requires i <= MaxLen(rangeMax)
    ensures var limit := MaxLen(rangeMax) - i;
            var c := CountOnes(data, p, limit);
            Offset(i) < rangeMax && FindRound(data, p, rangeMax, i) == (i + c, p + UnaryLength(c, limit))
    decreases MaxLen(rangeMax) - i
  {
    hide MaxLen;
    RoundStarts(rangeMax, i);
    LastRoundIsMaxLen(rangeMax, i);
    if i < MaxLen(rangeMax) && BitAt(data, p) {
      RoundIsCount(data, p + 1, rangeMax, i + 1);
    }
  }

  /**
   * From 17 to 24 values the loop reads ns at once and the reader asks for one flag first. The flag is the
   * first bit of the ns word, and the rest of that word follows.
   */
  lemma OneFlag(data: seq<byte>, p: nat, rangeMax: uint32)
    requires 17 <= rangeMax <= 24
    ensures SourceDecode(data, p, rangeMax) == ParseNs(data, p, rangeMax)
  {
    assert Pow2(3) == 8 && Pow2(4) == 16 && Pow2(5) == 32;
    Log2Unique(rangeMax - 1, 4);
    Log2Unique(rangeMax, 4);
    Log2Unique(rangeMax - 8, if rangeMax < 24 then 3 else 4);
    assert MaxLen(rangeMax) == 1;
    assert CountOnes(data, p, 1) == if BitAt(data, p) then 1 else 0;
    FlagLeads(data, p, 3);
    FlagLeads(data, p, 4);
    ValueBound(BitsOf(data, p + 1, 3));
    ValueBound(BitsOf(data, p + 1, 4));
  }

  lemma FlagLeads(data: seq<byte>, p: nat, n: nat)
    ensures Value(BitsOf(data, p, n + 1)) == (if BitAt(data, p) then Pow2(n) else 0) + Value(BitsOf(data, p + 1, n))
  {
    BitsOfHead(data, p, n + 1);
    ValueCons(BitAt(data, p), BitsOf(data, p + 1, n));
  }

  /** On every input and for every range of nine values and more, the reader reads what the loop reads. */
  lemma SourceIsLoop(data: seq<byte>, p: nat, rangeMax: uint32)
    requires rangeMax >= 9
    ensures SourceDecode(data, p, rangeMax) == Decode(data, p, rangeMax)
  {
    hide BitsOf, Value, ParseNs, CountOnes, MaxLen;
    FoundRound(data, p, rangeMax, 0);
    if 17 <= rangeMax <= 24 {
      OneFlag(data, p, rangeMax);
      assert Pow2(3) == 8;
    } else {
      RoundIsCount(data, p, rangeMax, 0);
      LastRoundIsMaxLen(rangeMax, CountOnes(data, p, MaxLen(rangeMax)));
    }
  }

  /**
   * Below nine values it never does so after a zero flag: the wrapped limit makes the reader take that flag
   * and three more bits, and the loop takes at most three bits in all.
   */
  lemma BelowNine(data: seq<byte>, p: nat, rangeMax: uint32)
    requires 0 < rangeMax < 9 && !BitAt(data, p)
    ensures CountOnes(data, p, MaxLen(rangeMax)) == 0 < MaxLen(rangeMax)
    ensures p + UnaryLength(0, MaxLen(rangeMax)) + Width(0) > Decode(data, p, rangeMax).1
  {
    assert Pow2(3) == 8;
    ShortLoop(data, p, rangeMax);
    if rangeMax > 1 && Log2(rangeMax - 1) >= 3 {
      Pow2Monotone(3, Log2(rangeMax - 1));
    }
  }

  lemma ShortLoop(data: seq<byte>, p: nat, rangeMax: uint32)
    requires 0 < rangeMax < 9 && !BitAt(data, p)
    ensures Decode(data, p, rangeMax).1 <= p + 3
  {
    assert Pow2(3) == 8 && Pow2(4) == 16;
    if Log2(rangeMax) >= 3 {
      Pow2Monotone(3, Log2(rangeMax));
      Log2Unique(rangeMax, 3);
      ValueBound(BitsOf(data, p, 3));
    }
  }

  /** The bits that must be there for round j at position q: readNs asks for the long word of the final read. */
  ghost function NeedsTo(q: nat, numSyms: nat, j: nat, last: bool): nat
    requires Offset(j) < numSyms
  {
    if last then q + Log2(numSyms - Offset(j)) + 1 else q + Width(j)
  }

  /** How far the data must reach for readSubexp to succeed. */
  ghost function SubexpNeeds(data: seq<byte>, p: nat, rangeMax: uint32): nat
    requires rangeMax >= 9
  {
    var c := CountOnes(data, p, MaxLen(rangeMax));
    RoundStarts(rangeMax, c);
    NeedsTo(p + UnaryLength(c, MaxLen(rangeMax)), rangeMax, c, c == MaxLen(rangeMax))
  }

  /** That is where the loop's own read ends, or one bit further. */
  lemma NeedsLittleMore(data: seq<byte>, p: nat, rangeMax: uint32)
    requires rangeMax >= 9
    ensures var q := Decode(data, p, rangeMax).1;
            q <= SubexpNeeds(data, p, rangeMax) <= q + 1
  {
    hide BitsOf, Value, Log2, Decode, CountOnes, MaxLen;
    SourceIsLoop(data, p, rangeMax);
    RoundStarts(rangeMax, CountOnes(data, p, MaxLen(rangeMax)));
  }

  /**
   * readSubexp. It reads what the specification's loop reads, value and bit count, if and only if the bits
   * last; it needs at most one bit more than the loop does.
   */
  method ReadSubexp(r: BitReader, rangeMax: uint32) returns (res: Result<uint32>)
    requires rangeMax >= 9
    modifies r`pos
    ensures res.Ok? <==> SubexpNeeds(r.data, old(r.pos), rangeMax) <= r.end
    ensures res.Ok? ==> (res.value, r.pos) == Decode(r.data, old(r.pos), rangeMax) && r.pos <= r.end
  {
    hide BitsOf, Value, Decode, Finish, CountOnes;
    SourceIsLoop(r.data, r.pos, rangeMax);
    MaxLenIs(rangeMax);
    var maxLen := Wrap32(Log2(rangeMax - 1) - 3);
    RoundStarts(rangeMax, CountOnes(r.data, r.pos, maxLen));
    var length := ReadIncrement(r, 0, maxLen);
    if length.Err? {
      return Err;
    }
    res := ReadRest(r, rangeMax, maxLen, length.value);
  }

  /** The read after the flags. */
  method ReadRest(r: BitReader, rangeMax: uint32, maxLen: nat, length: uint32) returns (res: Result<uint32>)
    requires rangeMax >= 9 && length <= maxLen == MaxLen(rangeMax) && Offset(length) < rangeMax
    modifies r`pos
    ensures res.Ok? <==> NeedsTo(old(r.pos), rangeMax, length, length == maxLen) <= r.end
    ensures res.Ok? ==> (res.value, r.pos) == Finish(r.data, old(r.pos), rangeMax, length, length == maxLen)
    ensures res.Ok? ==> r.pos <= r.end
  {
    hide BitsOf, Value, CountOnes, Log2;
    MaxLenIs(rangeMax);
    var rangeBits, rangeOffset: uint32 := 3, 0;
    if length != 0 {
      FitsWord(2 + length);
      rangeBits := 2 + length;
      rangeOffset := ShiftLeft(1, rangeBits);
    }
    assert rangeBits == Width(length) && rangeOffset == Offset(length);
    if length < maxLen {
      res := ReadShort(r, rangeMax, rangeBits, rangeOffset, length);
    } else {
      res := ReadFinal(r, rangeMax, rangeOffset);
    }
  }

  method ReadShort(r: BitReader, ghost rangeMax: uint32, rangeBits: nat, rangeOffset: uint32, ghost length: nat)
    returns (res: Result<uint32>)
    requires rangeMax >= 9 && length < MaxLen(rangeMax)
    requires rangeBits == Width(length) <= 32 && rangeOffset == Offset(length)
    modifies r`pos
    ensures var (v, q) := (Value(BitsOf(r.data, old(r.pos), rangeBits)) + rangeOffset, old(r.pos) + rangeBits);
            if q <= r.end then res == Ok(v) && r.pos == q else res.Err?
  {
    ShortFits(r.data, r.pos, rangeMax, length);
    var value := ReadUnsigned(r, rangeBits, 0, 0xFFFF_FFFF);
    if value.Err? {
      return Err;
    }
    return Ok(Wrap32(value.value + rangeOffset));
  }

  method ReadFinal(r: BitReader, rangeMax: uint32, rangeOffset: uint32) returns (res: Result<uint32>)
    requires rangeOffset < rangeMax
    modifies r`pos
    ensures res.Ok? <==> old(r.pos) + Log2(rangeMax - rangeOffset) + 1 <= r.end
    ensures res.Ok? ==> (res.value - rangeOffset, r.pos) == ParseNs(r.data, old(r.pos), rangeMax - rangeOffset)
    ensures res.Ok? ==> r.pos <= r.end
  {
    NsDecodes(r.data, r.pos, rangeMax - rangeOffset);
    var value := ReadNs(r, rangeMax - rangeOffset);
    if value.Err? {
      return Err;
    }
    return Ok(Wrap32(value.value + rangeOffset));
  }

  lemma ShortFits(data: seq<byte>, p: nat, rangeMax: uint32, length: nat)
    requires rangeMax >= 9 && length < MaxLen(rangeMax)
    ensures Value(BitsOf(data, p, Width(length))) + Offset(length) < rangeMax
    ensures Value(BitsOf(data, p, Width(length))) < 0x1_0000_0000
  {
    hide MaxLen, BitsOf, Value;
    RoundStarts(rangeMax, length + 1);
    NextOffset(length);
    ValueBound(BitsOf(data, p, Width(length)));
  }

  /**
   * subexp(numSyms) is one-to-one onto 0..numSyms-1: a reader returns v exactly when the code word of v is
   * at its position.
   */
  lemma SubexpExact(data: seq<byte>, p: nat, numSyms: nat, v: nat)
    requires v < numSyms
    ensures Decode(data, p, numSyms).0 == v
       <==> BitsOf(data, p, |Code(v, numSyms)|) == Code(v, numSyms)
  {
    DecodeIsCode(data, p, numSyms);
    if BitsOf(data, p, |Code(v, numSyms)|) == Code(v, numSyms) {
      DecodeInvertsCode(data, p, numSyms, v);
    }
  }
}
