/** Bit strings, and the big-endian bits of a byte string. Bits past the end of the data are zero. */
module Bits {
  import opened Common
  import opened Powers

  type bits = seq<bool>

  /** The bit string of n zeros. */
  function ZeroBits(n: nat): (b: bits)
    ensures |b| == n
    ensures forall i :: 0 <= i < n ==> !b[i]
  {
    seq(n, _ => false)
  }

  function BitNumber(b: bool): nat {
    if b then 1 else 0
  }

  /** The number the first n bits write, most significant bit first. */
  function ValueTo(b: bits, n: nat): nat
    requires n <= |b|
  {
    if n == 0 then 0 else ValueTo(b, n - 1) + ValueTo(b, n - 1) + BitNumber(b[n - 1])
  }

  /** The number a bit string writes. */
  function Value(b: bits): nat {
    ValueTo(b, |b|)
  }

  /** The n-bit string of v, for v < 2^n. */
  function ToBits(v: nat, n: nat): (b: bits)
    ensures |b| == n
  {
    if n == 0 then []
    else if v >= Pow2(n - 1) then [true] + ToBits(v - Pow2(n - 1), n - 1)
    else [false] + ToBits(v, n - 1)
  }

  lemma {:induction false} ValueToBound(b: bits, n: nat)
    requires n <= |b|
    ensures ValueTo(b, n) < Pow2(n)
  {
    if n > 0 {
      ValueToBound(b, n - 1);
    }
  }

  lemma ValueBound(b: bits)
    ensures Value(b) < Pow2(|b|)
  {
    ValueToBound(b, |b|);
  }

  /** Only the first n bits matter. */
  lemma {:induction false} ValueToEqual(a: bits, b: bits, n: nat)
    requires n <= |a| && n <= |b| && forall k :: 0 <= k < n ==> a[k] == b[k]
    ensures ValueTo(a, n) == ValueTo(b, n)
  {
    if n > 0 {
      ValueToEqual(a, b, n - 1);
    }
  }

  lemma {:induction false} ValueToConcat(a: bits, b: bits, n: nat)
    requires n <= |b|
    ensures ValueTo(a + b, |a| + n) == Shl(Value(a), n) + ValueTo(b, n)
    decreases n
  {
    if n == 0 {
      ValueToEqual(a + b, a, |a|);
    } else {
      ValueToConcat(a, b, n - 1);
      assert (a + b)[|a| + n - 1] == b[n - 1];
    }
  }

  lemma ValueConcat(a: bits, b: bits)
    ensures Value(a + b) == Shl(Value(a), |b|) + Value(b)
  {
    ValueToConcat(a, b, |b|);
  }

  lemma ValueSnoc(a: bits, x: bool)
    ensures Value(a + [x]) == Value(a) + Value(a) + BitNumber(x)
  {
    ValueToEqual(a + [x], a, |a|);
  }

  lemma {:induction false} ValueToCons(x: bool, b: bits, n: nat)
    requires n <= |b|
    ensures ValueTo([x] + b, n + 1) == (if x then Pow2(n) else 0) + ValueTo(b, n)
    decreases n
  {
    if n > 0 {
      ValueToCons(x, b, n - 1);
      assert ([x] + b)[n] == b[n - 1];
    }
  }

  lemma ValueCons(x: bool, b: bits)
    ensures Value([x] + b) == (if x then Pow2(|b|) else 0) + Value(b)
  {
    ValueToCons(x, b, |b|);
  }

  lemma {:induction false} ValueToBits(v: nat, n: nat)
    requires v < Pow2(n)
    ensures Value(ToBits(v, n)) == v
    decreases n
  {
    if n > 0 {
      var top := v >= Pow2(n - 1);
      var rest := if top then v - Pow2(n - 1) else v;
      ValueToBits(rest, n - 1);
      ValueCons(top, ToBits(rest, n - 1));
    }
  }

  lemma {:induction false} ToBitsValue(b: bits)
    ensures ToBits(Value(b), |b|) == b
  {
    if b != [] {
      var rest := b[1..];
      assert b == [b[0]] + rest;
      ValueCons(b[0], rest);
      ValueBound(rest);
      ToBitsValue(rest);
    }
  }

  /** Dropping the last k bits is a shift to the right. */
  lemma {:induction false} ValueToShr(b: bits, n: nat, k: nat)
    requires k <= n <= |b|
    ensures Shr(ValueTo(b, n), k) == ValueTo(b, n - k)
    decreases k
  {
    if k > 0 {
      ValueToShr(b, n - 1, k - 1);
      HalveBit(ValueTo(b, n - 1), b[n - 1]);
    }
  }

  lemma HalveBit(v: nat, x: bool)
    ensures (v + v + BitNumber(x)) / 2 == v
  {
  }

  lemma ValueShr(b: bits, k: nat)
    requires k <= |b|
    ensures Shr(Value(b), k) == Value(b[..|b| - k])
  {
    ValueToShr(b, |b|, k);
    ValueToEqual(b, b[..|b| - k], |b| - k);
  }

  lemma {:induction false} ValueToZeros(b: bits, n: nat)
    requires n <= |b| && forall k :: 0 <= k < n ==> !b[k]
    ensures ValueTo(b, n) == 0
  {
    if n > 0 {
      ValueToZeros(b, n - 1);
    }
  }

  lemma ValueZeros(n: nat)
    ensures Value(ZeroBits(n)) == 0
  {
    ValueToZeros(ZeroBits(n), n);
  }

  /** Shifting a byte left past its first off bits keeps the rest, followed by zeros. */
  lemma ValueShiftLeft(b: bits, off: nat)
    requires |b| == 8 && off <= 8
    ensures Wrap8(Shl(Value(b), off)) == Value(b[off..] + ZeroBits(off))
  {
    var lo := b[off..] + ZeroBits(off);
    SplitShift(b[..off], b[off..], off);
    assert b[..off] + b[off..] == b;
    ValueBound(lo);
    FitsByte(8);
    LowByte(Value(b[..off]), Value(lo));
  }

  lemma SplitShift(hi: bits, lo: bits, off: nat)
    requires |lo| + off == 8
    ensures Shl(Value(hi + lo), off) == 256 * Value(hi) + Value(lo + ZeroBits(off))
  {
    ValueConcat(hi, lo);
    ShlSum(Shl(Value(hi), |lo|), Value(lo), off);
    ShlShl(Value(hi), |lo|, off);
    ShlByte(Value(hi));
    ValueConcat(lo, ZeroBits(off));
    ValueZeros(off);
  }

  lemma LowByte(hi: nat, lo: nat)
    requires lo < 256
    ensures Wrap8(256 * hi + lo) == lo
  {
    var x := 256 * hi + lo;
    var q, r := x / 256, x % 256;
    assert x == 256 * q + r && 0 <= r < 256;
    assert 256 * (hi - q) == r - lo;
  }

  function ByteAt(data: seq<byte>, k: nat): byte
    requires k < |data|
  {
    data[k]
  }

  /** b is data written in bits, the most significant bit of each byte first. */
  ghost predicate IsStream(data: seq<byte>, b: bits) {
    && |b| == 8 * |data|
    && forall k {:trigger ByteAt(data, k)} :: 0 <= k < |data| ==> b[8 * k..8 * k + 8] == ToBits(ByteAt(data, k), 8)
  }

  lemma {:induction false} StreamExists(data: seq<byte>) returns (b: bits)
    ensures IsStream(data, b)
  {
    if data == [] {
      b := [];
    } else {
      var n := |data| - 1;
      var before := StreamExists(data[..n]);
      var last := ToBits(data[n], 8);
      b := before + last;
      forall k {:trigger ByteAt(data, k)} | 0 <= k < |data|
        ensures b[8 * k..8 * k + 8] == ToBits(ByteAt(data, k), 8)
      {
        if k < n {
          assert ByteAt(data[..n], k) == ByteAt(data, k);
          assert b[8 * k..8 * k + 8] == before[8 * k..8 * k + 8];
        } else {
          assert b[8 * k..8 * k + 8] == last;
        }
      }
    }
  }

  /**
   * The bits of data. Defined by its property so that proofs about positions do not unfold bytes; only
   * BitsOfByte looks inside.
   */
  ghost function Stream(data: seq<byte>): (b: bits)
    ensures |b| == 8 * |data|
  {
    assert exists b :: IsStream(data, b) by {
      var b := StreamExists(data);
    }
    var b :| IsStream(data, b);
    b
  }

  lemma StreamOfByte(data: seq<byte>, k: nat)
    requires k < |data|
    ensures Stream(data)[8 * k..8 * k + 8] == ToBits(data[k], 8)
  {
    assert IsStream(data, Stream(data)) && ByteAt(data, k) == data[k];
  }

  /** Bit p of data; zero past the end. */
  ghost function BitAt(data: seq<byte>, p: nat): bool {
    p < |Stream(data)| && Stream(data)[p]
  }

  /** The n bits of data from position p. */
  ghost function BitsOf(data: seq<byte>, p: nat, n: nat): (b: bits)
    ensures |b| == n
  {
    if n == 0 then [] else BitsOf(data, p, n - 1) + [BitAt(data, p + n - 1)]
  }

  lemma {:induction false} BitsOfAt(data: seq<byte>, p: nat, n: nat, k: nat)
    requires k < n
    ensures BitsOf(data, p, n)[k] == BitAt(data, p + k)
  {
    if k < n - 1 {
      BitsOfAt(data, p, n - 1, k);
    }
  }

  lemma {:induction false} BitsOfSplit(data: seq<byte>, p: nat, a: nat, b: nat)
    ensures BitsOf(data, p, a + b) == BitsOf(data, p, a) + BitsOf(data, p + a, b)
  {
    if b > 0 {
      BitsOfSplit(data, p, a, b - 1);
    }
  }

  lemma BitsOfHead(data: seq<byte>, p: nat, n: nat)
    requires n > 0
    ensures BitsOf(data, p, n) == [BitAt(data, p)] + BitsOf(data, p + 1, n - 1)
  {
    BitsOfSplit(data, p, 1, n - 1);
    assert BitsOf(data, p, 1) == [BitAt(data, p)];
  }

  /** A shown bit string is its first bit and the rest. */
  lemma ShownHead(data: seq<byte>, p: nat, flag: bool, rest: bits)
    requires BitsOf(data, p, |rest| + 1) == [flag] + rest
    ensures BitAt(data, p) == flag && BitsOf(data, p + 1, |rest|) == rest
  {
    BitsOfHead(data, p, |rest| + 1);
    assert ([flag] + rest)[0] == flag && ([flag] + rest)[1..] == rest;
    var shown := [BitAt(data, p)] + BitsOf(data, p + 1, |rest|);
    assert shown[0] == BitAt(data, p) && shown[1..] == BitsOf(data, p + 1, |rest|);
  }

  /** A shown bit string shows its parts. */
  lemma ShownPieces(data: seq<byte>, p: nat, a: bits, b: bits)
    requires BitsOf(data, p, |a + b|) == a + b
    ensures BitsOf(data, p, |a|) == a && BitsOf(data, p + |a|, |b|) == b
  {
    BitsOfSplit(data, p, |a|, |b|);
    var c, d := BitsOf(data, p, |a|), BitsOf(data, p + |a|, |b|);
    assert (a + b)[..|a|] == a && (a + b)[|a|..] == b;
    assert (c + d)[..|a|] == c && (c + d)[|a|..] == d;
  }

  lemma {:induction false} BitsInside(data: seq<byte>, p: nat, n: nat)
    requires p + n <= 8 * |data|
    ensures BitsOf(data, p, n) == Stream(data)[p..p + n]
  {
    if n > 0 {
      BitsInside(data, p, n - 1);
    }
  }

  /** Position p is bit p % 8 of byte p / 8. */
  lemma BytePosition(p: nat) returns (k: nat, off: nat)
    ensures k == p / 8 && off == p % 8 && off < 8 && p == 8 * k + off
  {
    k, off := p / 8, p % 8;
  }

  /** Bits that lie inside byte k, from bit off on. */
  lemma BitsOfByte(data: seq<byte>, k: nat, off: nat, n: nat)
    requires k < |data| && off + n <= 8
    ensures BitsOf(data, 8 * k + off, n) == ToBits(data[k], 8)[off..off + n]
  {
    hide BitsOf, ToBits, Stream;
    var b := Stream(data);
    StreamOfByte(data, k);
    BitsInside(data, 8 * k + off, n);
    SliceOfSlice(b, 8 * k, 8, off, n);
  }

  lemma SliceOfSlice(b: bits, p: nat, m: nat, off: nat, n: nat)
    requires p + m <= |b| && off + n <= m
    ensures b[p..p + m][off..off + n] == b[p + off..p + off + n]
  {
    var s, t := b[p..p + m][off..off + n], b[p + off..p + off + n];
    assert |s| == n == |t|;
    assert forall i :: 0 <= i < n ==> s[i] == t[i];
  }

  lemma {:induction false} BitsPastEnd(data: seq<byte>, p: nat, n: nat)
    requires p >= 8 * |data|
    ensures BitsOf(data, p, n) == ZeroBits(n)
  {
    if n > 0 {
      BitsPastEnd(data, p, n - 1);
    }
  }

  lemma BitOfStream(data: seq<byte>, k: nat, off: nat)
    requires k < |data| && off < 8
    ensures BitAt(data, 8 * k + off) == ToBits(data[k], 8)[off]
  {
    StreamOfByte(data, k);
    assert Stream(data)[8 * k + off] == Stream(data)[8 * k..8 * k + 8][off];
  }

  /** Bits inside a prefix of the data are those of the prefix. */
  lemma {:induction false} PrefixBits(s: seq<byte>, t: seq<byte>, p: nat, n: nat)
    requires |s| <= |t| && (forall k :: 0 <= k < |s| ==> s[k] == t[k]) && p + n <= 8 * |s|
    ensures BitsOf(s, p, n) == BitsOf(t, p, n)
    decreases n
  {
    if n > 0 {
      PrefixBits(s, t, p, n - 1);
      PrefixBit(s, t, p + n - 1);
    }
  }

  lemma PrefixBit(s: seq<byte>, t: seq<byte>, p: nat)
    requires |s| <= |t| && (forall k :: 0 <= k < |s| ==> s[k] == t[k]) && p < 8 * |s|
    ensures BitAt(s, p) == BitAt(t, p)
  {
    var k, off := BytePosition(p);
    BitOfStream(s, k, off);
    BitOfStream(t, k, off);
  }

  /** Bits of a slice of the data, from byte k on. */
  lemma {:induction false} SliceBits(data: seq<byte>, k: nat, m: nat, n: nat)
    requires k + m <= |data| && n <= 8 * m
    ensures BitsOf(data[k..k + m], 0, n) == BitsOf(data, 8 * k, n)
    decreases n
  {
    if n > 0 {
      SliceBits(data, k, m, n - 1);
      SliceBit(data, k, m, n - 1);
    }
  }

  lemma SliceBit(data: seq<byte>, k: nat, m: nat, p: nat)
    requires k + m <= |data| && p < 8 * m
    ensures BitAt(data[k..k + m], p) == BitAt(data, 8 * k + p)
  {
    var j, off := BytePosition(p);
    BitOfStream(data[k..k + m], j, off);
    BitOfStream(data, k + j, off);
    assert 8 * (k + j) + off == 8 * k + p;
  }

  /** Equal numbers of equal length are equal strings. */
  lemma EqualValues(a: bits, b: bits)
    requires |a| == |b| && Value(a) == Value(b)
    ensures a == b
  {
    ToBitsValue(a);
    ToBitsValue(b);
  }

  /** The bits of one whole byte. */
  lemma ByteBits(data: seq<byte>, k: nat)
    requires k < |data|
    ensures Value(BitsOf(data, 8 * k, 8)) == data[k]
  {
    BitsOfByte(data, k, 0, 8);
    var b := ToBits(data[k], 8);
    assert b[0..8] == b;
    FitsByte(8);
    ShlByte(1);
    ValueToBits(data[k], 8);
  }

  /** n bits inside byte k are a quotient and a remainder of it. */
  lemma ByteField(data: seq<byte>, k: nat, off: nat, n: nat)
    requires k < |data| && off + n <= 8
    ensures Value(BitsOf(data, 8 * k + off, n)) == Shr(data[k], 8 - off - n) % Pow2(n)
  {
    hide BitsOf, Value, Shl, Shr;
    var rest := 8 - off - n;
    var a, b, c := BitsOf(data, 8 * k, off), BitsOf(data, 8 * k + off, n), BitsOf(data, 8 * k + off + n, rest);
    ByteBits(data, k);
    BitsOfSplit(data, 8 * k, off, n);
    BitsOfSplit(data, 8 * k, off + n, rest);
    var all := BitsOf(data, 8 * k, 8);
    assert all == (a + b) + c;
    ValueShr(all, rest);
    assert all[..8 - rest] == a + b;
    ValueConcat(a, b);
    ShlIsProduct(Value(a), n);
    ValueBound(b);
    MultipleMod(Pow2(n), Value(a), Value(b));
  }

  lemma ByteBit(data: seq<byte>, k: nat, off: nat)
    requires k < |data| && off < 8
    ensures BitAt(data, 8 * k + off) <==> Shr(data[k], 7 - off) % 2 == 1
  {
    hide BitAt, Shr;
    ByteField(data, k, off, 1);
    assert BitsOf(data, 8 * k + off, 1) == [BitAt(data, 8 * k + off)];
    ValueSnoc([], BitAt(data, 8 * k + off));
    assert [] + [BitAt(data, 8 * k + off)] == [BitAt(data, 8 * k + off)];
    assert Pow2(1) == 2;
  }

  // ----- Bytes written from bits

  function ByteOf(b: bits): (v: byte)
    requires |b| == 8
  {
    ByteValueBound(b);
    Value(b)
  }

  lemma ByteValueBound(b: bits)
    requires |b| == 8
    ensures Value(b) < 256
  {
    ValueBound(b);
    FitsByte(8);
  }

  /** A byte written from eight bits shows them. */
  lemma ShownByte(data: seq<byte>, k: nat, b: bits, off: nat, n: nat)
    requires k < |data| && |b| == 8 && data[k] == ByteOf(b) && off + n <= 8
    ensures BitsOf(data, 8 * k + off, n) == b[off..off + n]
  {
    BitsOfByte(data, k, off, n);
    ToBitsValue(b);
  }

  lemma ShownBit(data: seq<byte>, k: nat, b: bits, off: nat)
    requires k < |data| && |b| == 8 && data[k] == ByteOf(b) && off < 8
    ensures BitAt(data, 8 * k + off) == b[off]
  {
    BitOfStream(data, k, off);
    ToBitsValue(b);
  }
}
