/**
 * Fixed-length and Exp-Golomb elements: readUnsignedRaw, readUEGolomb and readSEGolomb of cbs/reader.go,
 * and readUvlc of cbs/av1.go. The writer GolombCode (section 9.1 of H.264, section 4.10.3 of AV1) is the
 * reference both readers are measured against.
 */
module ExpGolomb {
  import opened Common
  import opened Powers
  import opened Bits
  import opened BitReading

  const MAX_CODE_NUM: int := 0xFFFF_FFFE

  /** data shows the bit string code at p, and all of it lies before end. */
  ghost predicate Shows(data: seq<byte>, p: nat, end: int, code: bits) {
    p + |code| <= end && BitsOf(data, p, |code|) == code
  }

  /** The code word of codeNum v: as many zeros as v+1 has bits after its first, then v+1. */
  function GolombCode(v: nat): bits {
    ZeroBits(Log2(v + 1)) + ToBits(v + 1, Log2(v + 1) + 1)
  }

  /** What an Exp-Golomb reader finds: a codeNum and where its code word ends, or no usable code word. */
  datatype Parse = Found(value: nat, next: nat) | Bad

  /** The number of zeros from position p on, counting at most limit bits. */
  ghost function CountZeros(data: seq<byte>, p: nat, limit: nat): (z: nat)
    ensures z <= limit
    decreases limit
  {
    if limit == 0 || BitAt(data, p) then 0 else 1 + CountZeros(data, p + 1, limit - 1)
  }

  /** Parsing as section 9.1 words it: count zeros (fewer than 32), skip the one, read that many bits. */
  ghost function ParseGolomb(data: seq<byte>, p: nat, end: int): Parse {
    var z := CountZeros(data, p, 32);
    if z >= 32 || p + z + z + 1 > end then Bad
    else Found(Pow2(z) - 1 + Value(BitsOf(data, p + z + 1, z)), p + z + z + 1)
  }

  // ----- The parser inverts the writer, and accepts nothing else

  lemma {:induction false} ZerosThenOne(data: seq<byte>, p: nat, z: nat, limit: nat)
    requires z < limit && BitsOf(data, p, z) == ZeroBits(z) && BitAt(data, p + z)
    ensures CountZeros(data, p, limit) == z
    decreases z
  {
    if z > 0 {
      BitsOfHead(data, p, z);
      assert BitsOf(data, p, z)[0] == ZeroBits(z)[0];
      assert BitsOf(data, p + 1, z - 1) == BitsOf(data, p, z)[1..] == ZeroBits(z - 1);
      ZerosThenOne(data, p + 1, z - 1, limit - 1);
    }
  }

  lemma {:induction false} CountedZeros(data: seq<byte>, p: nat, limit: nat)
    ensures var z := CountZeros(data, p, limit);
            BitsOf(data, p, z) == ZeroBits(z) && (z < limit ==> BitAt(data, p + z))
    decreases limit
  {
    var z := CountZeros(data, p, limit);
    if z > 0 {
      CountedZeros(data, p + 1, limit - 1);
      BitsOfHead(data, p, z);
      assert [false] + ZeroBits(z - 1) == ZeroBits(z);
    }
  }

  lemma CodeNumLog(v: nat)
    requires v <= MAX_CODE_NUM
    ensures Log2(v + 1) < 32
  {
    ShlWord(1);
    if Log2(v + 1) >= 32 {
      Pow2Monotone(32, Log2(v + 1));
    }
  }

  /** A number with k+1 bits is a one and k more bits. */
  lemma TopBit(n: nat, k: nat) returns (rest: bits)
    requires Pow2(k) <= n < Pow2(k + 1)
    ensures |rest| == k && ToBits(n, k + 1) == [true] + rest && n == Pow2(k) + Value(rest)
  {
    rest := ToBits(n - Pow2(k), k);
    ValueToBits(n - Pow2(k), k);
  }

  /** The bits of a code word: z zeros, a one, and z more bits that give the value. */
  lemma CodeShape(v: nat) returns (z: nat, rest: bits)
    ensures |rest| == z && |GolombCode(v)| == z + z + 1
    ensures GolombCode(v) == ZeroBits(z) + ([true] + rest)
    ensures v == Pow2(z) - 1 + Value(rest)
    ensures v <= MAX_CODE_NUM ==> z < 32
  {
    z := Log2(v + 1);
    rest := TopBit(v + 1, z);
    if v <= MAX_CODE_NUM {
      CodeNumLog(v);
    }
  }

  lemma CodeOfShape(z: nat, rest: bits)
    requires |rest| == z
    ensures GolombCode(Pow2(z) - 1 + Value(rest)) == ZeroBits(z) + ([true] + rest)
  {
    LeadingOne(rest);
    ToBitsValue([true] + rest);
  }

  lemma CodeNumBound(z: nat, rest: bits)
    requires |rest| == z < 32
    ensures Pow2(z) - 1 + Value(rest) <= MAX_CODE_NUM
  {
    ValueBound(rest);
    FitsWord(z + 1);
  }

  /** A shown code word splits into its three parts. */
  lemma ShownParts(data: seq<byte>, p: nat, z: nat, rest: bits)
    requires |rest| == z && BitsOf(data, p, z + z + 1) == ZeroBits(z) + ([true] + rest)
    ensures BitsOf(data, p, z) == ZeroBits(z)
    ensures BitAt(data, p + z)
    ensures BitsOf(data, p + z + 1, z) == rest
  {
    BitsOfSplit(data, p, z, z + 1);
    BitsOfHead(data, p + z, z + 1);
    var a, b := BitsOf(data, p, z), BitsOf(data, p + z, z + 1);
    assert (a + b)[..z] == a && (a + b)[z..] == b;
    assert (ZeroBits(z) + ([true] + rest))[..z] == ZeroBits(z) && (ZeroBits(z) + ([true] + rest))[z..] == [true] + rest;
    assert b[0] == ([true] + rest)[0] && b[1..] == ([true] + rest)[1..];
  }

  lemma ParseInvertsCode(data: seq<byte>, p: nat, end: int, v: nat)
    requires v <= MAX_CODE_NUM && Shows(data, p, end, GolombCode(v))
    ensures ParseGolomb(data, p, end) == Found(v, p + |GolombCode(v)|)
  {
    var z, rest := CodeShape(v);
    ShownParts(data, p, z, rest);
    ZerosThenOne(data, p, z, 32);
  }

  /** After z leading zeros the next z+1 bits are a one and the suffix. */
  lemma WordAfterZeros(data: seq<byte>, p: nat, z: nat)
    requires z == CountZeros(data, p, 32) < 32
    ensures BitsOf(data, p, z) == ZeroBits(z)
    ensures BitsOf(data, p + z, z + 1) == [true] + BitsOf(data, p + z + 1, z)
  {
    CountedZeros(data, p, 32);
    BitsOfHead(data, p + z, z + 1);
  }

  lemma LeadingOne(rest: bits)
    ensures Value([true] + rest) == Pow2(|rest|) + Value(rest)
    ensures Value([true] + rest) > 0 && Log2(Value([true] + rest)) == |rest|
  {
    ValueCons(true, rest);
    ValueBound(rest);
    Log2Unique(Pow2(|rest|) + Value(rest), |rest|);
  }

  lemma CodeOfParse(data: seq<byte>, p: nat, end: int)
    requires ParseGolomb(data, p, end).Found?
    ensures var r := ParseGolomb(data, p, end);
            r.value <= MAX_CODE_NUM && r.next == p + |GolombCode(r.value)| && Shows(data, p, end, GolombCode(r.value))
  {
    hide BitsOf, Value, CountZeros;
    var z := CountZeros(data, p, 32);
    var rest := BitsOf(data, p + z + 1, z);
    CodeNumBound(z, rest);
    CodeOfShape(z, rest);
    WordShown(data, p, z);
  }

  lemma WordShown(data: seq<byte>, p: nat, z: nat)
    requires z == CountZeros(data, p, 32) < 32
    ensures BitsOf(data, p, z + z + 1) == ZeroBits(z) + ([true] + BitsOf(data, p + z + 1, z))
  {
    WordAfterZeros(data, p, z);
    BitsOfSplit(data, p, z, z + 1);
  }

  /**
   * The parser finds exactly the code words of 0..2^32-2: it returns (v, q) if and only if the code word of
   * v is there, ends at q, and q is not past the end.
   */
  lemma ParseGolombExact(data: seq<byte>, p: nat, end: int, v: nat, q: nat)
    ensures ParseGolomb(data, p, end) == Found(v, q)
       <==> v <= MAX_CODE_NUM && q == p + |GolombCode(v)| && Shows(data, p, end, GolombCode(v))
  {
    if ParseGolomb(data, p, end) == Found(v, q) {
      CodeOfParse(data, p, end);
    }
    if v <= MAX_CODE_NUM && q == p + |GolombCode(v)| && Shows(data, p, end, GolombCode(v)) {
      ParseInvertsCode(data, p, end, v);
    }
  }

  // ----- Signed values, section 9.1.1

  /** codeNum k stands for (-1)^(k+1) * ceil(k / 2). */
  function SignedValue(k: nat): int {
    if k % 2 == 1 then (k + 1) / 2 else 0 - k / 2
  }

  function CodeNum(s: int): nat {
    if s > 0 then 2 * s - 1 else 0 - 2 * s
  }

  lemma SignedMappingBijective(k: nat, s: int)
    ensures SignedValue(k) == s <==> CodeNum(s) == k
  {
  }

  // ----- The readers

  /** The element a parse yields once its range is checked. */
  function InRange(v: int, lo: int, hi: int): Result<int> {
    if lo <= v <= hi then Ok(v) else Err
  }

  method ReadUnsigned(r: BitReader, width: nat, rangeMin: uint32, rangeMax: uint32) returns (res: Result<uint32>)
    requires width <= 32
    modifies r`pos
    ensures var p := old(r.pos);
            if p + width > r.end then res.Err? && r.pos == p
            else r.pos == p + width && res == InRange(Value(BitsOf(r.data, p, width)), rangeMin, rangeMax)
  {
    if r.BitsLeft() < width {
      return Err;
    }
    var value := r.GetBits(width);
    if value < rangeMin || value > rangeMax {
      return Err;
    }
    return Ok(value);
  }

  method ReadSigned(r: BitReader, width: nat, rangeMin: int, rangeMax: int) returns (res: Result<int>)
    requires 0 < width <= 32
    modifies r`pos
    ensures var p := old(r.pos);
            if p + width > r.end then res.Err? && r.pos == p
            else r.pos == p + width &&
                 res == InRange(Value(BitsOf(r.data, p, width)) -
                                (if BitAt(r.data, p) then Pow2(width) else 0), rangeMin, rangeMax)
  {
    if r.BitsLeft() < width {
      return Err;
    }
    var value := r.GetSBits(width);
    if value < rangeMin || value > rangeMax {
      return Err;
    }
    return Ok(value);
  }

  /** A number that is not zero has its first one where its logarithm says. */
  lemma {:induction false} Log2CountsZeros(data: seq<byte>, p: nat, n: nat)
    ensures var v := Value(BitsOf(data, p, n));
            && (v == 0 ==> CountZeros(data, p, n) == n)
            && (v > 0 ==> CountZeros(data, p, n) == n - 1 - Log2(v))
    decreases n
  {
    if n > 0 {
      var rest := BitsOf(data, p + 1, n - 1);
      BitsOfHead(data, p, n);
      ValueCons(BitAt(data, p), rest);
      if BitAt(data, p) {
        ValueBound(rest);
        Log2Unique(Value(BitsOf(data, p, n)), n - 1);
      } else {
        Log2CountsZeros(data, p + 1, n - 1);
      }
    }
  }

  lemma {:induction false} CountLess(data: seq<byte>, p: nat, n: nat, limit: nat)
    requires n <= limit
    ensures CountZeros(data, p, n) == Min(n, CountZeros(data, p, limit))
    decreases n
  {
    if n > 0 && !BitAt(data, p) {
      CountLess(data, p + 1, n - 1, limit - 1);
    }
  }

  /** Peeking m bits (all that are left, at most 32) shows how many zeros lead the code word. */
  lemma PeekedZeros(data: seq<byte>, p: nat, end: int, m: nat)
    requires m == Max(0, Min(end - p, 32))
    ensures var lead := Value(BitsOf(data, p, m));
            && (lead == 0 ==> CountZeros(data, p, 32) >= m)
            && (lead > 0 ==> m - 1 - Log2(lead) == CountZeros(data, p, 32) < m)
  {
    CountLess(data, p, m, 32);
    Log2CountsZeros(data, p, m);
  }

  lemma TooFewBits(data: seq<byte>, p: nat, end: int)
    requires CountZeros(data, p, 32) >= Max(0, Min(end - p, 32))
    ensures ParseGolomb(data, p, end).Bad?
  {
  }

  /** The prefix shared by readUEGolomb and readSEGolomb: peek, take a logarithm, read codeNum + 1. */
  method ReadGolombWord(r: BitReader) returns (res: Result<uint32>)
    modifies r`pos
    ensures match ParseGolomb(r.data, old(r.pos), r.end)
            case Bad => res.Err?
            case Found(v, q) => r.pos == q && res == Ok(v + 1)
  {
    ghost var p := r.pos;
    var maxLength := Min(r.BitsLeft(), 32);
    var leadingBits: uint32 := 0;
    PeekedZeros(r.data, p, r.end, Max(0, maxLength));
    if maxLength > 0 {
      leadingBits := r.Peek(r.pos, maxLength);
    }
    if leadingBits == 0 {
      TooFewBits(r.data, p, r.end);
      return Err;
    }
    res := ReadAfterZeros(r, maxLength - 1 - Log2(leadingBits));
  }

  lemma GolombWordValue(data: seq<byte>, p: nat, z: nat)
    requires z == CountZeros(data, p, 32) < 32
    ensures Value(BitsOf(data, p + z, z + 1)) == Pow2(z) + Value(BitsOf(data, p + z + 1, z))
  {
    WordAfterZeros(data, p, z);
    LeadingOne(BitsOf(data, p + z + 1, z));
  }

  /** The word of z+1 bits after z zeros is codeNum + 1, if it is all there. */
  lemma WordIsCodeNum(data: seq<byte>, p: nat, end: int, z: nat)
    requires z == CountZeros(data, p, 32) < 32
    ensures var parse := ParseGolomb(data, p, end);
            if end - (p + z) < z + 1 then parse == Bad
            else parse.Found? && parse.value + 1 == Value(BitsOf(data, p + z, z + 1)) && parse.next == p + z + (z + 1)
  {
    GolombWordValue(data, p, z);
  }

  method ReadAfterZeros(r: BitReader, leadingZeroes: nat) returns (res: Result<uint32>)
    requires leadingZeroes == CountZeros(r.data, r.pos, 32) < 32
    modifies r`pos
    ensures match ParseGolomb(r.data, old(r.pos), r.end)
            case Bad => res.Err?
            case Found(v, q) => r.pos == q && res == Ok(v + 1)
  {
    ghost var parse := ParseGolomb(r.data, r.pos, r.end);
    WordIsCodeNum(r.data, r.pos, r.end, leadingZeroes);
    r.SkipBits(leadingZeroes);
    if r.BitsLeft() < leadingZeroes + 1 {
      assert parse == Bad;
      return Err;
    }
    var word := r.GetBits(leadingZeroes + 1);
    assert parse.Found? && parse.value + 1 == word && parse.next == r.pos;
    return Ok(word);
  }

  method ReadUEGolomb(r: BitReader, rangeMin: uint32, rangeMax: uint32) returns (res: Result<uint32>)
    modifies r`pos
    ensures match ParseGolomb(r.data, old(r.pos), r.end)
            case Bad => res.Err?
            case Found(v, q) => r.pos == q && res == InRange(v, rangeMin, rangeMax)
  {
    CodeNumFits(r.data, r.pos, r.end);
    var word := ReadGolombWord(r);
    if word.Err? {
      return Err;
    }
    var value := Wrap32(word.value - 1);
    if value < rangeMin || value > rangeMax {
      return Err;
    }
    return Ok(value);
  }

  method ReadSEGolomb(r: BitReader, rangeMin: int, rangeMax: int) returns (res: Result<int>)
    modifies r`pos
    ensures match ParseGolomb(r.data, old(r.pos), r.end)
            case Bad => res.Err?
            case Found(k, q) => r.pos == q && res == InRange(SignedValue(k), rangeMin, rangeMax)
  {
    var word := ReadGolombWord(r);
    if word.Err? {
      return Err;
    }
    var half: int := word.value / 2;
    var value: int := if word.value % 2 != 0 then -half else half;
    if value < rangeMin || value > rangeMax {
      return Err;
    }
    return Ok(value);
  }

  lemma CodeNumFits(data: seq<byte>, p: nat, end: int)
    ensures ParseGolomb(data, p, end).Found? ==> ParseGolomb(data, p, end).value <= MAX_CODE_NUM
  {
    if ParseGolomb(data, p, end).Found? {
      CodeOfParse(data, p, end);
    }
  }

  /** uvlc of AV1: counts zeros one bit at a time. Thirty-two zeros are refused. */
  method ReadUvlc(r: BitReader, rangeMin: uint32, rangeMax: uint32) returns (res: Result<uint32>)
    modifies r`pos
    ensures match ParseGolomb(r.data, old(r.pos), r.end)
            case Bad => res.Err?
            case Found(v, q) => r.pos == q && res == InRange(v, rangeMin, rangeMax)
  {
    ghost var p := r.pos;
    var zeroes := 0;
    while zeroes < 32
      invariant 0 <= zeroes <= 32 && r.pos == p + zeroes
      invariant CountZeros(r.data, p, 32) == zeroes + CountZeros(r.data, r.pos, 32 - zeroes)
    {
      if r.BitsLeft() < 1 {
        return Err;
      }
      var one := r.GetBit();
      if one != 0 {
        break;
      }
      zeroes := zeroes + 1;
    }
    if zeroes >= 32 {
      return Err;
    }
    res := ReadUvlcValue(r, zeroes, p, rangeMin, rangeMax);
  }

  /** The second half of readUvlc, from the bit after the one. */
  method ReadUvlcValue(r: BitReader, zeroes: nat, ghost p: nat, rangeMin: uint32, rangeMax: uint32)
    returns (res: Result<uint32>)
    requires zeroes == CountZeros(r.data, p, 32) < 32 && r.pos == p + zeroes + 1
    modifies r`pos
    ensures match ParseGolomb(r.data, p, r.end)
            case Bad => res.Err?
            case Found(v, q) => r.pos == q && res == InRange(v, rangeMin, rangeMax)
  {
    if r.BitsLeft() < zeroes {
      return Err;
    }
    CodeNumFits(r.data, p, r.end);
    FitsWord(zeroes);
    var bitsValue := r.GetBits(zeroes);
    var value := Wrap32(bitsValue + ShiftLeft(1, zeroes) - 1);
    if value < rangeMin || value > rangeMax {
      return Err;
    }
    return Ok(value);
  }

  /**
   * The fast reader (one 32-bit peek and a logarithm) and the bit-at-a-time reader agree on every reader
   * state: both fail, or both return the same value at the same position.
   */
  method FastAndSlowReadersAgree(data: seq<byte>, pos: nat, end: int, rangeMin: uint32, rangeMax: uint32)
    returns (fast: Result<uint32>, slow: Result<uint32>, fastPos: nat, slowPos: nat)
    ensures fast == slow
    ensures fast.Ok? ==> fastPos == slowPos
    ensures fast.Ok?
       <==> exists v :: rangeMin <= v <= Min(rangeMax, MAX_CODE_NUM) && Shows(data, pos, end, GolombCode(v))
    ensures fast.Ok? ==> Shows(data, pos, end, GolombCode(fast.value)) && fastPos == pos + |GolombCode(fast.value)|
  {
    var r := new BitReader(data);
    r.pos, r.end := pos, end;
    var s := new BitReader.Copy(r);
    fast := ReadUEGolomb(r, rangeMin, rangeMax);
    slow := ReadUvlc(s, rangeMin, rangeMax);
    fastPos, slowPos := r.pos, s.pos;
    if ParseGolomb(data, pos, end).Found? {
      CodeOfParse(data, pos, end);
    }
    forall v: nat | v <= MAX_CODE_NUM && Shows(data, pos, end, GolombCode(v))
      ensures ParseGolomb(data, pos, end) == Found(v, pos + |GolombCode(v)|)
    {
      ParseInvertsCode(data, pos, end, v);
    }
  }
}
