/** av1GetRelativeDist of cbs/av1.go: order hints are compared on a circle (section 7.9.3 of AV1). */
module OrderHints {
  import opened Common
  import opened Powers

  /** The order-hint fields of a sequence header. order_hint_bits_minus_1 has three bits. */
  datatype HintCoding = HintCoding(enabled: bool, bitsMinus1: nat) {
    ghost predicate Valid() {
      bitsMinus1 <= 7
    }

    /** Half a cycle of order hints. */
    function Half(): nat {
      Pow2(bitsMinus1)
    }
  }

  // ----- Bitwise and

  /** x & y. */
  function And(x: nat, y: nat): (r: nat)
    decreases x
  {
    if x == 0 || y == 0 then 0
    else And(x / 2, y / 2) + And(x / 2, y / 2) + (if x % 2 == 1 && y % 2 == 1 then 1 else 0)
  }

  /** x is split at bit k: high bits, bit k, and the bits below it. */
  ghost predicate SplitAt(x: nat, k: nat, high: nat, top: bool, low: nat) {
    x == Shl(high, k + 1) + (if top then Pow2(k) else 0) + low && low < Pow2(k)
  }

  /** Masks of one bit and of all the bits below it. */
  lemma {:induction false} MaskBits(x: nat, k: nat) returns (high: nat, top: bool, low: nat)
    ensures SplitAt(x, k, high, top, low)
    ensures And(x, Pow2(k)) == (if top then Pow2(k) else 0) && And(x, Pow2(k) - 1) == low
    decreases k
  {
    if k == 0 {
      high, top, low := x / 2, x % 2 == 1, 0;
      assert Shl(high, 1) == Shl(high, 0) + Shl(high, 0) == high + high;
      AndZero(x / 2);
    } else {
      var l: nat;
      high, top, l := MaskBits(x / 2, k - 1);
      low := l + l + x % 2;
      assert Shl(high, k + 1) == Shl(high, k) + Shl(high, k);
      assert Pow2(k) == Pow2(k - 1) + Pow2(k - 1);
      AndStep(x, Pow2(k - 1), 0);
      if Pow2(k - 1) == 0 + 1 {
        AndStep(x, 0, 1);
      } else {
        AndStep(x, Pow2(k - 1) - 1, 1);
      }
    }
  }

  lemma AndZero(x: nat)
    ensures And(x, 0) == 0
  {
  }

  lemma AndStep(x: nat, half: nat, bit: nat)
    requires bit <= 1
    ensures And(x, half + half + bit) == And(x / 2, half) + And(x / 2, half) + (if x % 2 == 1 && bit == 1 then 1 else 0)
  {
    var y := half + half + bit;
    assert y / 2 == half && y % 2 == bit;
  }

  // ----- The distance

  /** av1GetRelativeDist on uint32 arguments: int32((diff & (m - 1)) - (diff & m)). */
  function RelativeDist(coding: HintCoding, a: uint32, b: uint32): int {
    if !coding.enabled then 0
    else
      var diff := Wrap32(a - b);
      var m := coding.Half();
      And(diff, m - 1) - And(diff, m)
  }

  /** The number congruent to x modulo 2m that lies from -m up to (not including) m. */
  function CentredResidue(x: int, m: int): int
    requires m > 0
  {
    (x + m) % (m + m) - m
  }

  /** The residue is determined by its range and by congruence. */
  lemma CentredIs(x: int, m: int, d: int, t: int)
    requires m > 0 && -m <= d < m && x == (m + m) * t + d
    ensures CentredResidue(x, m) == d
  {
    MultipleMod(m + m, t, d + m);
  }

  lemma WrapMultiple(x: int, k: nat) returns (t: int)
    requires -0x1_0000_0000 < x < 0x1_0000_0000 && k < 32
    ensures Wrap32(x) == x + Pow2(k + 1) * t
  {
    ShlToWord(k + 1);
    ShlIsProduct(Pow2(k + 1), 31 - k);
    var p, q := Pow2(k + 1), Pow2(31 - k);
    if x < 0 {
      t := q;
      assert q * p == p * q;
    } else {
      t := 0;
    }
  }

  /**
   * Whatever the arguments, the distance is the centred residue of a - b modulo 2^OrderHintBits; and zero without order
   * hints.
   */
  lemma RelativeDistIsCentred(coding: HintCoding, a: uint32, b: uint32)
    requires coding.Valid()
    ensures RelativeDist(coding, a, b) == if coding.enabled then CentredResidue(a - b, coding.Half()) else 0
  {
    hide And, CentredResidue, Shl;
    if !coding.enabled {
      return;
    }
    var k := coding.bitsMinus1;
    var m := coding.Half();
    var diff := Wrap32(a - b);
    var high, top, low := MaskBits(diff, k);
    var t := WrapMultiple(a - b, k);
    ShlIsProduct(high, k + 1);
    HalfCycle(k);
    CyclesOf(a - b, m, high, top, low, t);
  }

  lemma HalfCycle(k: nat)
    ensures Pow2(k + 1) == Pow2(k) + Pow2(k)
  {
  }

  lemma CyclesOf(x: int, m: int, high: int, top: bool, low: int, t: int)
    requires 0 <= low < m && x + (m + m) * t == (m + m) * high + (if top then m else 0) + low
    ensures CentredResidue(x, m) == low - (if top then m else 0)
  {
    var up := if top then 1 else 0;
    var q := high + up - t;
    assert (m + m) * q == (m + m) * high + (m + m) * up - (m + m) * t;
    CentredIs(x, m, low - (if top then m else 0), q);
  }

  lemma CentredRange(x: int, m: int)
    requires m > 0
    ensures -m <= CentredResidue(x, m) < m
  {
  }

  /** x is its residue plus a number of whole cycles. */
  lemma CentredCycles(x: int, m: int) returns (t: int)
    requires m > 0
    ensures x == (m + m) * t + CentredResidue(x, m)
  {
    t := (x + m) / (m + m);
  }

  lemma DifferenceCycles(x: int, m: int, d: int, q: int)
    requires -m - m < d < m + m && x == (m + m) * q + d
    ensures CentredResidue(x, m) == if d < -m then d + m + m else if d >= m then d - m - m else d
  {
    hide CentredResidue;
    assert (m + m) * q == (m + m) * (q - 1) + (m + m);
    assert (m + m) * q == (m + m) * (q + 1) - (m + m);
    CentredIs(x, m, if d < -m then d + m + m else if d >= m then d - m - m else d,
              if d < -m then q - 1 else if d >= m then q + 1 else q);
  }

  /**
   * Distances to a common origin subtract: the distance from b to a is the difference of their distances,
   * wrapped once more into one cycle.
   */
  lemma CentredDifference(a: int, b: int, c: int, m: int)
    requires m > 0
    ensures var d := CentredResidue(a - c, m) - CentredResidue(b - c, m);
            CentredResidue(a - b, m) == if d < -m then d + m + m else if d >= m then d - m - m else d
  {
    var t := CentredCycles(a - c, m);
    var u := CentredCycles(b - c, m);
    var d := CentredResidue(a - c, m) - CentredResidue(b - c, m);
    assert (m + m) * t - (m + m) * u == (m + m) * (t - u);
    CentredRange(a - c, m);
    CentredRange(b - c, m);
    DifferenceCycles(a - b, m, d, t - u);
  }
}
