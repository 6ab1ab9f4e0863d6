/** The AV1-only element codes increment and ns(n) of cbs/av1.go, ns(n) measured against a writer. */
module Av1Codes {
  import opened Common
  import opened Powers
  import opened Bits
  import opened BitReading

  // ----- increment(min, max): truncated unary

  /** The number of ones from position p on, counting at most limit bits. */
  ghost function CountOnes(data: seq<byte>, p: nat, limit: nat): (k: nat)
    ensures k <= limit
    decreases limit
  {
    if limit == 0 || !BitAt(data, p) then 0 else 1 + CountOnes(data, p + 1, limit - 1)
  }

  /** k ones, and the zero that stops the count unless the count is full. */
  function UnaryLength(k: nat, limit: nat): nat {
    if k < limit then k + 1 else k
  }

  /** The writer: k ones, and a zero unless the count is full. */
  function IncrementCode(k: nat, limit: nat): (b: bits)
    requires k <= limit
    ensures |b| == UnaryLength(k, limit)
  {
    if k > 0 then [true] + IncrementCode(k - 1, limit - 1) else if limit > 0 then [false] else []
  }

  /** k is counted exactly when its code word is there. */
  lemma {:induction false} IncrementExact(data: seq<byte>, p: nat, k: nat, limit: nat)
    requires k <= limit
    ensures CountOnes(data, p, limit) == k <==> BitsOf(data, p, UnaryLength(k, limit)) == IncrementCode(k, limit)
    decreases limit
  {
    if limit > 0 {
      var n := UnaryLength(k, limit);
      BitsOfHead(data, p, n);
      assert BitsOf(data, p, n)[0] == BitAt(data, p) && BitsOf(data, p, n)[1..] == BitsOf(data, p + 1, n - 1);
      if k > 0 {
        var rest := IncrementCode(k - 1, limit - 1);
        assert ([true] + rest)[0] && ([true] + rest)[1..] == rest;
        IncrementExact(data, p + 1, k - 1, limit - 1);
      }
    }
  }

  method ReadIncrement(r: BitReader, rangeMin: uint32, rangeMax: uint32) returns (res: Result<uint32>)
    requires rangeMin <= rangeMax
    modifies r`pos
    ensures var limit := rangeMax - rangeMin;
            var k := CountOnes(r.data, old(r.pos), limit);
            var q := old(r.pos) + UnaryLength(k, limit);
            if q > r.end && q > old(r.pos) then res.Err? else res == Ok(rangeMin + k) && r.pos == q
  {
    ghost var p := r.pos;
    ghost var left: nat := rangeMax - rangeMin;
    ghost var total := CountOnes(r.data, p, left);
    var value := rangeMin;
    while value < rangeMax
      invariant rangeMin <= value <= rangeMax && left == rangeMax - value
      invariant r.pos == p + (value - rangeMin)
      invariant total == (value - rangeMin) + CountOnes(r.data, r.pos, left)
      invariant r.pos > p ==> r.pos <= r.end
    {
      if r.BitsLeft() < 1 {
        return Err;
      }
      CountOnesStep(r.data, r.pos, left);
      var one := r.GetBit();
      if one != 0 {
        value, left := value + 1, left - 1;
      } else {
        break;
      }
    }
    return Ok(value);
  }

  lemma CountOnesStep(data: seq<byte>, p: nat, limit: nat)
    requires limit > 0
    ensures BitAt(data, p) ==> CountOnes(data, p, limit) == 1 + CountOnes(data, p + 1, limit - 1)
    ensures !BitAt(data, p) ==> CountOnes(data, p, limit) == 0
  {
  }

  // ----- ns(n), section 4.10.7

  /** The code word of x when the first m values take k bits and the others k+1. */
  function NsWord(x: nat, k: nat, m: nat): bits {
    if x < m then ToBits(x, k) else ToBits(x + m, k + 1)
  }

  /** n values fill the words of k and k+1 bits exactly. */
  ghost predicate NsSplit(n: nat, k: nat, m: nat) {
    Pow2(k) <= n && n + m == Pow2(k) + Pow2(k) && 0 < m <= Pow2(k)
  }

  /** The number of code words of ns(n) that are one bit short. */
  function NsShort(n: nat): (m: nat)
    requires n > 0
    ensures NsSplit(n, Log2(n), m)
  {
    assert Pow2(Log2(n) + 1) == Pow2(Log2(n)) + Pow2(Log2(n));
    Pow2(Log2(n) + 1) - n
  }

  /** The code word of x in ns(n), with w-1 = floor(log2(n)). */
  function NsCode(x: nat, n: nat): bits
    requires n > 0
  {
    NsWord(x, Log2(n), NsShort(n))
  }

  /** What the first k or k+1 bits decode to, and where the code word ends. */
  ghost function ParseNsWord(data: seq<byte>, p: nat, k: nat, m: nat): (int, nat) {
    var v := Value(BitsOf(data, p, k));
    if v < m then (v, p + k) else (Value(BitsOf(data, p, k + 1)) - m, p + k + 1)
  }

  ghost function ParseNs(data: seq<byte>, p: nat, n: nat): (int, nat)
    requires n > 0
  {
    ParseNsWord(data, p, Log2(n), NsShort(n))
  }

  lemma LongWord(data: seq<byte>, p: nat, k: nat)
    ensures Value(BitsOf(data, p, k + 1))
         == Value(BitsOf(data, p, k)) + Value(BitsOf(data, p, k)) + BitNumber(BitAt(data, p + k))
  {
    ValueSnoc(BitsOf(data, p, k), BitAt(data, p + k));
  }

  /** Every bit string starts with the code word of some x below n. */
  lemma NsComplete(data: seq<byte>, p: nat, n: nat, k: nat, m: nat)
    requires NsSplit(n, k, m)
    ensures var (x, q) := ParseNsWord(data, p, k, m);
            0 <= x < n && q == p + |NsWord(x, k, m)| && BitsOf(data, p, |NsWord(x, k, m)|) == NsWord(x, k, m)
  {
    var b := BitsOf(data, p, k);
    if Value(b) < m {
      ToBitsValue(b);
    } else {
      var long := BitsOf(data, p, k + 1);
      LongWord(data, p, k);
      ValueBound(b);
      ToBitsValue(long);
    }
  }

  /** Reading inverts writing: if the code word of x is there, x is what is read. */
  lemma NsInverts(data: seq<byte>, p: nat, n: nat, k: nat, m: nat, x: nat)
    requires NsSplit(n, k, m) && x < n
    requires BitsOf(data, p, |NsWord(x, k, m)|) == NsWord(x, k, m)
    ensures ParseNsWord(data, p, k, m) == (x, p + |NsWord(x, k, m)|)
  {
    if x < m {
      ValueToBits(x, k);
    } else {
      ValueToBits(x + m, k + 1);
      LongWord(data, p, k);
    }
  }

  /** data shows the code word of x at p. */
  ghost predicate NsShows(data: seq<byte>, p: nat, n: nat, x: int)
    requires n > 0
  {
    0 <= x < n && BitsOf(data, p, |NsCode(x, n)|) == NsCode(x, n)
  }

  /** ns(n) is a complete prefix code for 0..n-1: at any position exactly one code word is shown. */
  lemma NsPrefixCode(data: seq<byte>, p: nat, n: nat)
    requires n > 0
    ensures exists x :: NsShows(data, p, n, x)
    ensures forall x, y :: NsShows(data, p, n, x) && NsShows(data, p, n, y) ==> x == y
  {
    NsComplete(data, p, n, Log2(n), NsShort(n));
    assert NsShows(data, p, n, ParseNs(data, p, n).0);
    forall x, y | NsShows(data, p, n, x) && NsShows(data, p, n, y)
      ensures x == y
    {
      NsInverts(data, p, n, Log2(n), NsShort(n), x);
      NsInverts(data, p, n, Log2(n), NsShort(n), y);
    }
  }

  lemma NsWordFits(n: uint32)
    requires n > 0
    ensures Log2(n) < 32
  {
    ShlWord(1);
    if Log2(n) >= 32 {
      Pow2Monotone(32, Log2(n));
    }
  }

  /** m = 1<<w - n on a uint32, where 1<<32 is 0. */
  lemma NsShortWraps(n: uint32)
    requires n > 0
    ensures Wrap32(ShiftLeft(1, Log2(n) + 1) - n) == NsShort(n)
  {
    NsWordFits(n);
    FitsWord(Log2(n) + 1);
    var w := Pow2(Log2(n) + 1);
    if w == 0x1_0000_0000 {
      assert ShiftLeft(1, Log2(n) + 1) == 0;
      Borrow(n);
    }
  }

  lemma Borrow(n: uint32)
    requires n > 0
    ensures Wrap32(0 - n) == 0x1_0000_0000 - n
  {
  }

  /**
   * readNs asks for w bits even when the word that follows has only w-1: it fails if and only if fewer
   * than w bits are left. Otherwise it returns the one value whose code word is shown.
   */
  method ReadNs(r: BitReader, n: uint32) returns (res: Result<uint32>)
    requires n > 0
    modifies r`pos
    ensures var p := old(r.pos);
            if p + Log2(n) + 1 > r.end then res.Err? && r.pos == p
            else res.Ok? && (res.value, r.pos) == ParseNs(r.data, p, n) && r.pos <= r.end
    ensures res.Ok? ==> NsShows(r.data, old(r.pos), n, res.value) && r.pos == old(r.pos) + |NsCode(res.value, n)|
  {
    ghost var p := r.pos;
    var w := Log2(n) + 1;
    NsWordFits(n);
    NsShortWraps(n);
    var m := Wrap32(ShiftLeft(1, w) - n);
    NsComplete(r.data, p, n, w - 1, m);
    if r.BitsLeft() < w {
      return Err;
    }
    var value := ReadNsWord(r, n, w - 1, m);
    return Ok(value);
  }

  method ReadNsWord(r: BitReader, ghost n: uint32, k: nat, m: uint32) returns (value: uint32)
    requires NsSplit(n, k, m) && k < 32
    modifies r`pos
    ensures (value, r.pos) == ParseNsWord(r.data, old(r.pos), k, m)
  {
    var v: uint32 := 0;
    ghost var p := r.pos;
    if k > 0 {
      v := r.GetBits(k);
    }
    if v < m {
      return v;
    }
    NsLongValue(r.data, p, n, k, m, v);
    var extraBit := r.GetBit();
    value := Wrap32(ShiftLeft(v, 1) - m + extraBit);
  }

  lemma NsLongValue(data: seq<byte>, p: nat, n: uint32, k: nat, m: nat, v: uint32)
    requires NsSplit(n, k, m) && k < 32 && v == Value(BitsOf(data, p, k)) >= m
    ensures Wrap32(ShiftLeft(v, 1) - m + BitNumber(BitAt(data, p + k))) == Value(BitsOf(data, p, k + 1)) - m
  {
    LongWord(data, p, k);
    ValueBound(BitsOf(data, p, k));
    FitsWord(k);
    assert Shl(v, 1) == v + v;
  }

  /**
   * A short word on the last bits: its two bits are there, and readNs, which asks for three, fails.
   */
  lemma ShortWordExample()
    ensures var data: seq<byte> := [0];
            NsShows(data, 6, 5, 0) && 6 + |NsCode(0, 5)| == 8 * |data| && 6 + Log2(5) + 1 > 8 * |data|
  {
    var data: seq<byte> := [0];
    Log2Unique(5, 2);
    ZeroByte(8);
    ZeroByte(2);
    StreamOfByte(data, 0);
    BitsInside(data, 6, 2);
    assert ZeroBits(8)[6..8] == ZeroBits(2);
  }
}
