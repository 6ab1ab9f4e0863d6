/** The bit reader of cbs/bitreader.go. */
module BitReading {
  import opened Common
  import opened Powers
  import opened Bits

  /**
   * A big-endian reader. pos and end are bit offsets into data. A sub-reader shares data and pos and
   * has its own end. Reads are bounded by data alone: only the callers look at end.
   */
  class BitReader {
    const data: seq<byte>
    var pos: nat
    var end: int

    constructor (data: seq<byte>)
      ensures this.data == data && pos == 0 && end == 8 * |data|
    {
      this.data := data;
      pos := 0;
      end := 8 * |data|;
    }

    /** A copy of r with its end capped limit bits past the position of r. */
    constructor Sub(r: BitReader, limit: nat)
      ensures data == r.data && pos == r.pos && end == r.pos + limit
    {
      data := r.data;
      pos := r.pos;
      end := r.pos + limit;
    }

    constructor Copy(r: BitReader)
      ensures data == r.data && pos == r.pos && end == r.end
    {
      data := r.data;
      pos := r.pos;
      end := r.end;
    }

    /** May be negative after reads past the end. */
    function BitsLeft(): int
      reads this
    {
      end - pos
    }

    function ByteAlignment(): nat
      reads this
    {
      pos % 8
    }

    /** The n bits from position p, a byte (or what is left of one) at a time. */
    method Peek(p: nat, n: nat) returns (v: uint32)
      requires n <= 32
      ensures v == Value(BitsOf(data, p, n))
    {
      v := 0;
      var q: nat, left: nat := p, n;
      ghost var done: nat := 0;
      while left > 0
        invariant done + left == n && q == p + done
        invariant v == Value(BitsOf(data, p, done))
      {
        var take := Min(8 - q % 8, left);
        v := PeekByte(v, q, take, p, done);
        q, left, done := q + take, left - take, done + take;
      }
    }

    /** The body of the peek loop: appends n bits of the byte that holds position q. */
    method PeekByte(v: uint32, q: nat, n: nat, ghost p: nat, ghost done: nat) returns (w: uint32)
      requires 0 < n && q % 8 + n <= 8 && done + n <= 32
      requires q == p + done && v == Value(BitsOf(data, p, done))
      ensures w == Value(BitsOf(data, p, done + n))
    {
      var cur: byte := if q / 8 < |data| then data[q / 8] else 0;
      PeekStep(data, p, done, n, cur);
      w := ShiftLeft(v, n) + BytePiece(cur, q % 8, n);
    }

    /** Reads and consumes n bits. */
    method GetBits(n: nat) returns (v: uint32)
      requires n <= 32
      modifies this`pos
      ensures pos == old(pos) + n
      ensures v == Value(BitsOf(data, old(pos), n))
    {
      v := Peek(pos, n);
      pos := pos + n;
    }

    /** Reads a single bit. */
    method GetBit() returns (v: uint32)
      modifies this`pos
      ensures pos == old(pos) + 1
      ensures v == BitNumber(BitAt(data, old(pos)))
    {
      OneBit(data, pos);
      v := GetBits(1);
    }

    /** Reads n bits as a two's complement number: int32(v << (32 - n)) >> (32 - n). */
    method GetSBits(n: nat) returns (s: int)
      requires 0 < n <= 32
      modifies this`pos
      ensures pos == old(pos) + n
      ensures s == Value(BitsOf(data, old(pos), n)) - (if BitAt(data, old(pos)) then Pow2(n) else 0)
      ensures 0 - Pow2(n - 1) <= s < Pow2(n - 1)
    {
      var v := GetBits(n);
      BitsOfHead(data, old(pos), n);
      ghost var low := BitsOf(data, old(pos) + 1, n - 1);
      ValueCons(BitAt(data, old(pos)), low);
      ValueBound(low);
      SignExtended(v, n, Value(low), BitAt(data, old(pos)));
      s := Shr(Signed(ShiftLeft(v, 32 - n)), 32 - n);
    }

    method SkipBits(n: nat)
      modifies this`pos
      ensures pos == old(pos) + n
    {
      pos := pos + n;
    }
  }

  lemma OneBit(data: seq<byte>, p: nat)
    ensures Value(BitsOf(data, p, 1)) == BitNumber(BitAt(data, p))
  {
    ValueSnoc([], BitAt(data, p));
    assert BitsOf(data, p, 1) == [] + [BitAt(data, p)];
  }

  /** v << k on a uint32. */
  function ShiftLeft(v: uint32, k: nat): uint32 {
    Wrap32(Shl(v, k))
  }

  /** int32(v). */
  function Signed(v: uint32): int {
    if v >= 0x8000_0000 then v - 0x1_0000_0000 else v
  }

  /** The n bits of a byte from bit off on: (cur << off) >> (8 - n) on a uint8. */
  function BytePiece(cur: byte, off: nat, n: nat): nat
    requires 0 < n && off + n <= 8
  {
    Shr(Wrap8(Shl(cur, off)), 8 - n)
  }

  lemma PieceBits(data: seq<byte>, q: nat, n: nat, cur: byte)
    requires 0 < n && q % 8 + n <= 8
    requires cur == if q / 8 < |data| then data[q / 8] else 0
    ensures BytePiece(cur, q % 8, n) == Value(BitsOf(data, q, n))
  {
    var k, off := BytePosition(q);
    PieceAt(data, k, off, n, cur);
  }

  lemma PieceAt(data: seq<byte>, k: nat, off: nat, n: nat, cur: byte)
    requires 0 < n && off + n <= 8
    requires cur == if k < |data| then data[k] else 0
    ensures BytePiece(cur, off, n) == Value(BitsOf(data, 8 * k + off, n))
  {
    BytePieceBits(cur, off, n);
    if k < |data| {
      BitsOfByte(data, k, off, n);
    } else {
      BitsPastEnd(data, 8 * k + off, n);
      ZeroPiece(off, n);
      ValueZeros(n);
    }
  }

  lemma ZeroPiece(off: nat, n: nat)
    requires off + n <= 8
    ensures Value(ToBits(0, 8)[off..off + n]) == 0
  {
    ZeroByte(8);
    ValueZeros(n);
    assert ToBits(0, 8)[off..off + n] == ZeroBits(n);
  }

  lemma {:induction false} ZeroByte(n: nat)
    ensures ToBits(0, n) == ZeroBits(n)
  {
    if n > 0 {
      ZeroByte(n - 1);
    }
  }

  lemma BytePieceBits(cur: byte, off: nat, n: nat)
    requires 0 < n && off + n <= 8
    ensures BytePiece(cur, off, n) == Value(ToBits(cur, 8)[off..off + n])
  {
    var b := ToBits(cur, 8);
    assert Value(b) == cur by {
      ShlByte(1);
      ValueToBits(cur, 8);
    }
    ValueShiftLeft(b, off);
    ValueShr(b[off..] + ZeroBits(off), 8 - n);
    assert (b[off..] + ZeroBits(off))[..n] == b[off..off + n];
  }

  /** Appending n bits to a word that has room for them: the or is a sum. */
  lemma AppendBits(a: bits, b: bits)
    requires |a| + |b| <= 32
    ensures Value(a) < 0x1_0000_0000
    ensures ShiftLeft(Value(a), |b|) + Value(b) == Value(a + b) < 0x1_0000_0000
  {
    ValueConcat(a, b);
    ValueBound(a);
    ValueBound(a + b);
    FitsWord(|a|);
    FitsWord(|a| + |b|);
  }

  /** One round of peek. */
  lemma PeekStep(data: seq<byte>, p: nat, done: nat, n: nat, cur: byte)
    requires 0 < n && (p + done) % 8 + n <= 8 && done + n <= 32
    requires cur == if (p + done) / 8 < |data| then data[(p + done) / 8] else 0
    ensures Value(BitsOf(data, p, done)) < 0x1_0000_0000
    ensures ShiftLeft(Value(BitsOf(data, p, done)), n) + BytePiece(cur, (p + done) % 8, n)
         == Value(BitsOf(data, p, done + n)) < 0x1_0000_0000
  {
    PieceBits(data, p + done, n, cur);
    BitsOfSplit(data, p, done, n);
    AppendBits(BitsOf(data, p, done), BitsOf(data, p + done, n));
  }

  /** Shifting an n-bit word to the top of 32 bits: exact, and negative as an int32 if its top bit is set. */
  lemma TopAligned(n: nat, lo: nat, top: bool)
    requires 0 < n <= 32 && lo < Pow2(n - 1)
    ensures var v := (if top then Pow2(n - 1) else 0) + lo;
            0 <= Shl(v, 32 - n) < 0x1_0000_0000 && (top <==> Shl(v, 32 - n) >= 0x8000_0000)
  {
    var k := 32 - n;
    var h := Pow2(n - 1);
    assert Pow2(n) == h + h;
    ShlToWord(n);
    ShlSum(h, h, k);
    ShlMonotone(lo + 1, h, k);
    ShlSum(lo, 1, k);
    ShlSum(h, lo, k);
  }

  lemma SignExtended(v: uint32, n: nat, lo: nat, top: bool)
    requires 0 < n <= 32
    requires lo < Pow2(n - 1) && v == (if top then Pow2(n - 1) else 0) + lo
    ensures Shr(Signed(ShiftLeft(v, 32 - n)), 32 - n) == v - (if top then Pow2(n) else 0)
  {
    hide Shl, Shr;
    var k := 32 - n;
    TopAligned(n, lo, top);
    ShlToWord(n);
    if top {
      ShlSum(v - Pow2(n), Pow2(n), k);
      ShrShl(v - Pow2(n), k);
    } else {
      ShrShl(v, k);
    }
  }
}
