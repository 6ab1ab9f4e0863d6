/** Plain fields of a header: the flag, ub and fixed elements of cbs/reader.go. */
module Fields {
  import opened Common
  import opened Powers
  import opened Bits
  import opened BitReading
  import opened ExpGolomb

  /** n bits from p on, as a number. */
  ghost function Field(data: seq<byte>, p: nat, n: nat): nat {
    Value(BitsOf(data, p, n))
  }

  method ReadFixed(r: BitReader, width: nat, value: uint32) returns (ok: bool)
    requires width <= 32
    modifies r`pos
    ensures ok <==> old(r.pos) + width <= r.end && Field(r.data, old(r.pos), width) == value
    ensures ok ==> r.pos == old(r.pos) + width
  {
    var v := ReadUnsigned(r, width, value, value);
    return v.Ok?;
  }

  lemma OneBitField(data: seq<byte>, p: nat)
    ensures Field(data, p, 1) == BitNumber(BitAt(data, p))
  {
    OneBit(data, p);
  }

  method ReadFlag(r: BitReader) returns (flag: Result<bool>)
    modifies r`pos
    ensures if old(r.pos) + 1 > r.end then flag.Err? && r.pos == old(r.pos)
            else flag == Ok(BitAt(r.data, old(r.pos))) && r.pos == old(r.pos) + 1
  {
    OneBitField(r.data, r.pos);
    var v := ReadUnsigned(r, 1, 0, 0xffff_ffff);
    if v.Err? {
      return Err;
    }
    return Ok(v.value != 0);
  }

  method ReadBits(r: BitReader, width: nat) returns (res: Result<uint32>)
    requires width <= 32
    modifies r`pos
    ensures if old(r.pos) + width > r.end then res.Err? && r.pos == old(r.pos)
            else res == Ok(Field(r.data, old(r.pos), width)) && r.pos == old(r.pos) + width
  {
    FieldBound(r.data, r.pos, width);
    res := ReadUnsigned(r, width, 0, 0xffff_ffff);
  }

  lemma FieldBound(data: seq<byte>, p: nat, n: nat)
    requires n <= 32
    ensures Field(data, p, n) < Pow2(n) <= 0x1_0000_0000
  {
    ValueBound(BitsOf(data, p, n));
    FitsWord(n);
  }
}
