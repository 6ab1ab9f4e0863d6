/** leb128 numbers: readLeb128 of cbs/av1.go (section 4.10.5 of AV1). */
module Leb128 {
  import opened Common
  import opened Powers
  import opened Bits
  import opened BitReading

  const MAX_LEB_BYTES := 8

  /** The byte that starts at bit p. */
  ghost function ByteFrom(data: seq<byte>, p: nat): (b: nat)
    ensures b < 256
  {
    ByteFromBound(data, p);
    Value(BitsOf(data, p, 8))
  }

  lemma ByteFromBound(data: seq<byte>, p: nat)
    ensures Value(BitsOf(data, p, 8)) < 256
  {
    ValueBound(BitsOf(data, p, 8));
    FitsByte(8);
  }

  lemma ByteFromAligned(data: seq<byte>, k: nat)
    requires k < |data|
    ensures ByteFrom(data, 8 * k) == data[k]
  {
    ByteBits(data, k);
  }

  /** A number and the position behind it, before its size is checked. */
  datatype Leb = Leb(value: nat, pos: nat) | Ended

  /** At most n more groups of seven bits from bit p on, the least significant group first. */
  ghost function LebFrom(data: seq<byte>, p: nat, end: int, n: nat): Leb
    decreases n
  {
    if n == 0 then Leb(0, p)
    else if p + 8 > end then Ended
    else
      var b := ByteFrom(data, p);
      if b < 128 then Leb(b, p + 8)
      else match LebFrom(data, p + 8, end, n - 1)
           case Leb(v, q) => Leb(b - 128 + 128 * v, q)
           case Ended => Ended
  }

  /** leb128(): eight bytes at most, and the number must fit 32 bits. */
  ghost function ParseLeb(data: seq<byte>, p: nat, end: int): Leb {
    var leb := LebFrom(data, p, end, MAX_LEB_BYTES);
    if leb.Leb? && leb.value >= TWO_TO_THE_32 then Ended else leb
  }

  /** How the bytes still to come complete a number of which the groups below 2^shift are known. */
  ghost function Completed(value: nat, shift: nat, rest: Leb): Leb {
    if rest.Ended? then Ended else Leb(value + Shl(rest.value, shift), rest.pos)
  }

  lemma CompleteStep(value: nat, shift: nat, b: nat, rest: Leb)
    requires 128 <= b < 256
    ensures Completed(value + Shl(b - 128, shift), shift + 7, rest)
         == Completed(value, shift, if rest.Leb? then Leb(b - 128 + 128 * rest.value, rest.pos) else Ended)
  {
    hide Shl;
    if rest.Leb? {
      ShlSum(b - 128, 128 * rest.value, shift);
      ShlSeven(rest.value);
      ShlShl(rest.value, 7, shift);
      assert 7 + shift == shift + 7;
    }
  }

  lemma ShlSeven(v: int)
    ensures Shl(v, 7) == 128 * v
  {
    ShlByte(v);
  }

  method ReadLeb128(r: BitReader) returns (res: Result<uint32>)
    modifies r`pos
    ensures var leb := ParseLeb(r.data, old(r.pos), r.end);
            if leb.Leb? then res == Ok(leb.value) && r.pos == leb.pos else res.Err?
  {
    hide LebFrom, Shl, BitsOf, Completed;
    ghost var p := r.pos;
    var value := 0;
    var i := 0;
    CompleteAll(LebFrom(r.data, p, r.end, MAX_LEB_BYTES));
    while i < MAX_LEB_BYTES
      invariant 0 <= i <= MAX_LEB_BYTES && value >= 0
      invariant Completed(value, 7 * i, LebFrom(r.data, r.pos, r.end, MAX_LEB_BYTES - i))
             == LebFrom(r.data, p, r.end, MAX_LEB_BYTES)
    {
      NextGroup(r.data, r.pos, r.end, MAX_LEB_BYTES - i, value, 7 * i);
      if r.BitsLeft() < 8 {
        return Err;
      }
      var byteValue := r.GetBits(8);
      var low := if byteValue >= 128 then byteValue - 128 else byteValue;
      value := value + Shl(low, 7 * i);
      if byteValue < 128 {
        break;
      }
      i := i + 1;
    }
    if i == MAX_LEB_BYTES {
      LastGroup(r.data, r.pos, r.end, value, 7 * i);
    }
    if value >= TWO_TO_THE_32 {
      return Err;
    }
    return Ok(value);
  }

  lemma CompleteAll(leb: Leb)
    ensures Completed(0, 0, leb) == leb
  {
  }

  lemma LastGroup(data: seq<byte>, p: nat, end: int, value: nat, shift: nat)
    ensures Completed(value, shift, LebFrom(data, p, end, 0)) == Leb(value, p)
  {
    ShlSum(0, 0, shift);
  }

  /** What reading one more byte does to the number. */
  lemma NextGroup(data: seq<byte>, p: nat, end: int, n: nat, value: nat, shift: nat)
    requires n > 0
    ensures var whole, b := Completed(value, shift, LebFrom(data, p, end, n)), ByteFrom(data, p);
            if p + 8 > end then whole == Ended
            else if b < 128 then whole == Leb(value + Shl(b, shift), p + 8)
            else whole == Completed(value + Shl(b - 128, shift), shift + 7, LebFrom(data, p + 8, end, n - 1))
  {
    hide Shl;
    var b := ByteFrom(data, p);
    if p + 8 <= end && b >= 128 {
      CompleteStep(value, shift, b, LebFrom(data, p + 8, end, n - 1));
    }
  }

  // ----- The writer

  /** v in n groups; any n that holds v is allowed, so padding groups may follow the last significant one. */
  function LebBytes(v: nat, n: nat): (s: seq<byte>)
    requires n > 0
    ensures |s| == n
    decreases n
  {
    if n == 1 then [v % 128] else [v % 128 + 128] + LebBytes(v / 128, n - 1)
  }

  /** data shows s from bit p on. */
  ghost predicate ShowsBytes(data: seq<byte>, p: nat, s: seq<byte>) {
    forall k :: 0 <= k < |s| ==> ByteFrom(data, p + 8 * k) == s[k]
  }

  lemma ShowsTail(data: seq<byte>, p: nat, b: byte, s: seq<byte>)
    ensures ShowsBytes(data, p, [b] + s) <==> ByteFrom(data, p) == b && ShowsBytes(data, p + 8, s)
  {
    hide ByteFrom;
    var t := [b] + s;
    assert ShowsBytes(data, p, t) ==> ByteFrom(data, p + 8 * 0) == t[0];
    forall k | 0 <= k < |s| && ShowsBytes(data, p, t)
      ensures ByteFrom(data, p + 8 + 8 * k) == s[k]
    {
      assert t[k + 1] == s[k] && ByteFrom(data, p + 8 * (k + 1)) == t[k + 1];
      assert p + 8 * (k + 1) == p + 8 + 8 * k;
    }
    forall k | 0 <= k < |t| && ByteFrom(data, p) == b && ShowsBytes(data, p + 8, s)
      ensures ByteFrom(data, p + 8 * k) == t[k]
    {
      if k > 0 {
        assert ByteFrom(data, p + 8 + 8 * (k - 1)) == s[k - 1];
        assert p + 8 * k == p + 8 + 8 * (k - 1);
      }
    }
  }

  /** Reading inverts writing, whatever number of groups was written. */
  lemma {:induction false} LebInverts(data: seq<byte>, p: nat, end: int, v: nat, n: nat, max: nat)
    requires 0 < n <= max && v < Pow2(7 * n) && ShowsBytes(data, p, LebBytes(v, n)) && p + 8 * n <= end
    ensures LebFrom(data, p, end, max) == Leb(v, p + 8 * n)
    decreases n
  {
    hide ByteFrom, Shl;
    if n == 1 {
      ShlSeven(1);
      assert LebBytes(v, 1) == [v % 128] + [];
      ShowsTail(data, p, v % 128, []);
    } else {
      var rest := LebBytes(v / 128, n - 1);
      ShowsTail(data, p, v % 128 + 128, rest);
      SevenLess(v, n);
      LebInverts(data, p + 8, end, v / 128, n - 1, max - 1);
    }
  }

  lemma SevenLess(v: nat, n: nat)
    requires n > 1 && v < Pow2(7 * n)
    ensures v / 128 < Pow2(7 * (n - 1))
  {
    hide Shl;
    ShlShl(1, 7 * (n - 1), 7);
    ShlSeven(Pow2(7 * (n - 1)));
  }

  /** What was read is what some writer wrote, unless the eighth byte still announces another one. */
  lemma {:induction false} LebShows(data: seq<byte>, p: nat, end: int, max: nat) returns (n: nat)
    requires LebFrom(data, p, end, max).Leb?
    ensures var leb := LebFrom(data, p, end, max);
            && n <= max && leb.pos == p + 8 * n && leb.pos <= Max(p, end)
            && (if n > 0 && ByteFrom(data, leb.pos - 8) < 128 then
                  leb.value < Pow2(7 * n) && ShowsBytes(data, p, LebBytes(leb.value, n))
                else n == max)
    decreases max
  {
    hide ByteFrom, Shl;
    if max == 0 {
      n := 0;
    } else {
      var leb, b := LebFrom(data, p, end, max), ByteFrom(data, p);
      if b < 128 {
        n := 1;
        ShlSeven(1);
        assert LebBytes(b, 1) == [b] + [];
        ShowsTail(data, p, b, []);
      } else {
        var m := LebShows(data, p + 8, end, max - 1);
        n := m + 1;
        LebPrepend(data, p, LebFrom(data, p + 8, end, max - 1), m, b);
      }
    }
  }

  lemma LebPrepend(data: seq<byte>, p: nat, rest: Leb, m: nat, b: nat)
    requires rest.Leb? && 128 <= b < 256 && b == ByteFrom(data, p)
    ensures m > 0 && rest.value < Pow2(7 * m) && ShowsBytes(data, p + 8, LebBytes(rest.value, m)) ==>
              b - 128 + 128 * rest.value < Pow2(7 * (m + 1))
              && ShowsBytes(data, p, LebBytes(b - 128 + 128 * rest.value, m + 1))
  {
    hide ByteFrom, Shl;
    var v := b - 128 + 128 * rest.value;
    ShlShl(1, 7 * m, 7);
    ShlSeven(Pow2(7 * m));
    if m > 0 {
      assert v % 128 == b - 128 && v / 128 == rest.value;
      ShowsTail(data, p, b, LebBytes(rest.value, m));
    }
  }
}
