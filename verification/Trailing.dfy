/** The end of an OBU: trailingBits, av1PayloadBytesLeft and paddingOBU (sections 5.3.4 and 5.7 of AV1). */
module Trailing {
  import opened Common
  import opened Powers
  import opened Bits
  import opened BitReading
  import opened Fields
  import opened Leb128

  /** trailing_bits(n): a one and then zeros. */
  ghost predicate ShowsTrailing(data: seq<byte>, p: nat, n: nat) {
    n > 0 && BitAt(data, p) && forall k :: p < k < p + n ==> !BitAt(data, k)
  }

  method TrailingBits(r: BitReader, n: nat) returns (ok: bool)
    requires n > 0
    modifies r`pos
    ensures ok <==> old(r.pos) + n <= r.end && ShowsTrailing(r.data, old(r.pos), n)
    ensures ok ==> r.pos == old(r.pos) + n
  {
    hide Field, BitAt;
    ghost var p := r.pos;
    OneBitField(r.data, p);
    ok := ReadFixed(r, 1, 1);
    if !ok {
      return;
    }
    var nbBits := n - 1;
    while nbBits > 0
      invariant 0 <= nbBits < n && r.pos == p + n - nbBits <= r.end
      invariant BitAt(r.data, p) && forall k :: p < k < r.pos ==> !BitAt(r.data, k)
    {
      OneBitField(r.data, r.pos);
      ok := ReadFixed(r, 1, 0);
      if !ok {
        return;
      }
      nbBits := nbBits - 1;
    }
  }

  // ----- Payloads that run up to the trailing bits

  /** The index of the last of n bytes from bit p on that is not zero; 0 when there is none. */
  ghost function LastNonzero(data: seq<byte>, p: nat, n: nat): (k: nat)
    ensures k < n || k == 0
  {
    if n == 0 then 0 else if ByteFrom(data, p + 8 * (n - 1)) != 0 then n - 1 else LastNonzero(data, p, n - 1)
  }

  /** The number of whole bytes left. */
  function WholeBytesLeft(pos: nat, end: int): nat {
    if end < pos then 0 else (end - pos) / 8
  }

  method PayloadBytesLeft(r: BitReader) returns (size: nat)
    ensures size == LastNonzero(r.data, r.pos, WholeBytesLeft(r.pos, r.end))
  {
    hide ByteFrom;
    var tmp := new BitReader.Copy(r);
    size := 0;
    var i := 0;
    while tmp.BitsLeft() >= 8
      invariant tmp.data == r.data && tmp.end == r.end && tmp.pos == r.pos + 8 * i && i >= 0
      invariant size == LastNonzero(r.data, r.pos, i)
      invariant i > 0 ==> tmp.pos <= r.end
      decreases tmp.BitsLeft()
    {
      ByteFromIs(tmp.data, tmp.pos);
      var b := tmp.GetBits(8);
      if b != 0 {
        size := i;
      }
      i := i + 1;
    }
    LeftIs(r.pos, r.end, i);
  }

  lemma ByteFromIs(data: seq<byte>, p: nat)
    ensures ByteFrom(data, p) == Value(BitsOf(data, p, 8))
  {
  }

  lemma LeftIs(pos: nat, end: int, i: nat)
    requires end - (pos + 8 * i) < 8 && (i > 0 ==> pos + 8 * i <= end)
    ensures WholeBytesLeft(pos, end) == i
  {
  }

  /** paddingOBU and metadataUnknown: the bytes up to the trailing bits. */
  method ReadPayload(r: BitReader) returns (payload: seq<byte>)
    requires r.end == 8 * |r.data| && r.pos <= r.end && r.pos % 8 == 0
    modifies r`pos
    ensures var k, size := old(r.pos) / 8, LastNonzero(r.data, old(r.pos), |r.data| - old(r.pos) / 8);
            k + size <= |r.data| && payload == r.data[k..k + size] && r.pos == 8 * (k + size)
  {
    ghost var p, k := r.pos, r.pos / 8;
    assert p == 8 * k && WholeBytesLeft(p, r.end) == |r.data| - k;
    var payloadSize := PayloadBytesLeft(r);
    payload := ReadByteString(r, payloadSize);
  }

  method ReadByteString(r: BitReader, n: nat) returns (payload: seq<byte>)
    requires r.pos % 8 == 0 && r.pos / 8 + n <= |r.data|
    modifies r`pos
    ensures var k := old(r.pos) / 8;
            payload == r.data[k..k + n] && r.pos == 8 * (k + n)
  {
    hide BitsOf;
    payload := [];
    ghost var k := r.pos / 8;
    var i := 0;
    while i < n
      invariant 0 <= i <= n && r.pos == 8 * (k + i) && payload == r.data[k..k + i]
    {
      ByteFromAligned(r.data, k + i);
      var b := r.GetBits(8);
      payload := payload + [b];
      i := i + 1;
    }
  }

  // ----- What is recovered

  lemma {:induction false} LastNonzeroAt(data: seq<byte>, k: nat, n: nat, j: nat)
    requires j < n && k + n <= |data| && data[k + j] != 0 && forall i :: k + j < i < k + n ==> data[i] == 0
    ensures LastNonzero(data, 8 * k, n) == j
    decreases n
  {
    hide ByteFrom;
    ByteFromAligned(data, k + n - 1);
    assert 8 * (k + n - 1) == 8 * k + 8 * (n - 1);
    if j < n - 1 {
      LastNonzeroAt(data, k, n - 1, j);
    }
  }

  /** The bits of byte k, one by one. */
  lemma BitsOfOneByte(data: seq<byte>, k: nat) returns (b: bits)
    requires k < |data|
    ensures b == ToBits(data[k], 8)
    ensures forall p :: 8 * k <= p < 8 * k + 8 ==> BitAt(data, p) == b[p - 8 * k]
  {
    hide Stream, ToBits;
    b := ToBits(data[k], 8);
    forall p | 8 * k <= p < 8 * k + 8
      ensures BitAt(data, p) == b[p - 8 * k]
    {
      BitOfStream(data, k, p - 8 * k);
    }
  }

  /** A byte is 80 in hexadecimal exactly when it shows a one and seven zeros. */
  lemma TopBitOnly(data: seq<byte>, k: nat)
    requires k < |data|
    ensures data[k] == 128 <==> ShowsTrailing(data, 8 * k, 8)
  {
    hide BitAt, ToBits;
    var b := BitsOfOneByte(data, k);
    HighByte(data[k], b);
    forall i | 0 < i < 8
      ensures b[i] == BitAt(data, 8 * k + i)
    {
      assert b[8 * k + i - 8 * k] == BitAt(data, 8 * k + i);
    }
    assert b[0] == BitAt(data, 8 * k);
  }

  lemma ZeroByteShown(data: seq<byte>, k: nat)
    requires k < |data|
    ensures data[k] == 0 <==> forall p :: 8 * k <= p < 8 * k + 8 ==> !BitAt(data, p)
  {
    hide BitAt, ToBits, Value;
    var b := BitsOfOneByte(data, k);
    ShlByte(1);
    ValueToBits(data[k], 8);
    ValueZeros(8);
    ToBitsValue(ZeroBits(8));
    forall i | 0 <= i < 8
      ensures b[i] == BitAt(data, 8 * k + i)
    {
      assert b[8 * k + i - 8 * k] == BitAt(data, 8 * k + i);
    }
    assert data[k] == 0 ==> b == ZeroBits(8);
    assert (forall p :: 8 * k <= p < 8 * k + 8 ==> !BitAt(data, p)) ==> b == ZeroBits(8);
  }

  lemma HighByte(v: byte, b: bits)
    requires b == ToBits(v, 8)
    ensures v == 128 <==> b[0] && forall i :: 0 < i < 8 ==> !b[i]
  {
    hide ToBits, Value;
    ShlByte(1);
    ValueToBits(v, 8);
    HighBits(b);
  }

  lemma HighBits(b: bits)
    requires |b| == 8
    ensures Value(b) == 128 <==> b[0] && forall i :: 0 < i < 8 ==> !b[i]
  {
    hide ToBits;
    var high := [true] + ZeroBits(7);
    ValueCons(true, ZeroBits(7));
    ValueZeros(7);
    ShlSeven(1);
    ToBitsValue(b);
    ToBitsValue(high);
    assert Value(high) == 128;
    assert (b[0] && forall i :: 0 < i < 8 ==> !b[i]) <==> b == high;
  }

  /** Trailing bits over n whole bytes: a byte of 80 in hexadecimal and n-1 zero bytes. */
  lemma {:induction false} TrailingBytes(data: seq<byte>, k: nat, n: nat)
    requires 0 < n && k + n <= |data|
    ensures ShowsTrailing(data, 8 * k, 8 * n) <==> data[k] == 128 && forall i :: k < i < k + n ==> data[i] == 0
    decreases n
  {
    hide BitAt;
    if n == 1 {
      TopBitOnly(data, k);
    } else {
      TrailingBytes(data, k, n - 1);
      ZeroByteShown(data, k + n - 1);
      OneMoreByte(data, 8 * k, 8 * (n - 1));
      assert 8 * (k + n - 1) == 8 * k + 8 * (n - 1);
    }
  }

  lemma OneMoreByte(data: seq<byte>, p: nat, n: nat)
    requires n > 0
    ensures ShowsTrailing(data, p, n + 8) <==>
              ShowsTrailing(data, p, n) && forall k :: p + n <= k < p + n + 8 ==> !BitAt(data, k)
  {
    hide BitAt;
  }

  /** What paddingOBU takes as payload when the content of the OBU starts at byte k. */
  ghost function PaddingLength(data: seq<byte>, k: nat): (n: nat)
    requires k <= |data|
    ensures k + n <= |data|
  {
    LastNonzero(data, 8 * k, |data| - k)
  }

  /** Content that is a payload, the trailing one bit, and then z zero bytes. */
  ghost predicate IsPadded(content: seq<byte>, payload: seq<byte>, z: nat) {
    content == payload + [128] + Zeros(z)
  }

  /** A padding payload is recovered however many zero bytes follow its trailing one bit. */
  lemma PaddingRecovered(data: seq<byte>, k: nat, payload: seq<byte>, z: nat)
    requires k <= |data| && IsPadded(data[k..], payload, z)
    ensures PaddingLength(data, k) == |payload| && data[k..k + |payload|] == payload
    ensures ShowsTrailing(data, 8 * (k + |payload|), 8 * (|data| - k - |payload|))
  {
    hide BitAt, LastNonzero;
    var content, j := data[k..], |payload|;
    assert content[j] == 128 && data[k + j] == content[j];
    forall i | k + j < i < |data|
      ensures data[i] == 0
    {
      assert data[i] == content[i - k];
    }
    LastNonzeroAt(data, k, |data| - k, j);
    TrailingBytes(data, k + j, |data| - k - j);
    assert content[..j] == payload;
  }

  /** The trailing bits behind what was taken as payload are right only if the content is padded in that way. */
  lemma PaddedOnlyThen(data: seq<byte>, k: nat)
    requires k < |data|
    requires ShowsTrailing(data, 8 * (k + PaddingLength(data, k)), 8 * (|data| - k - PaddingLength(data, k)))
    ensures var n := PaddingLength(data, k);
            k + n < |data| && IsPadded(data[k..], data[k..k + n], |data| - k - n - 1)
  {
    hide BitAt, LastNonzero;
    var n := PaddingLength(data, k);
    TrailingBytes(data, k + n, |data| - k - n);
  }
}
