/** Shifts, powers of two and the integer logarithm, all by doubling and halving. */
module Powers {

  /** v << n without a width: n doublings. */
  function Shl(v: int, n: nat): (r: int)
    ensures 0 <= v ==> v <= r
    ensures v < 0 ==> r <= v
  {
    if n == 0 then v else Shl(v, n - 1) + Shl(v, n - 1)
  }

  /** v >> n: n halvings, rounding towards minus infinity as an arithmetic shift does. */
  function Shr(v: int, n: nat): (r: int)
    ensures 0 <= v ==> 0 <= r <= v
    decreases n
  {
    if n == 0 then v else Shr(v / 2, n - 1)
  }

  function Pow2(n: nat): (r: nat)
    ensures r > 0
  {
    Shl(1, n)
  }

  lemma {:induction false} ShlSum(a: int, b: int, n: nat)
    ensures Shl(a + b, n) == Shl(a, n) + Shl(b, n)
    decreases n
  {
    if n > 0 {
      ShlSum(a, b, n - 1);
    }
  }

  lemma {:induction false} ShlShl(v: int, a: nat, b: nat)
    ensures Shl(Shl(v, a), b) == Shl(v, a + b)
    decreases b
  {
    if b > 0 {
      ShlShl(v, a, b - 1);
      assert a + b - 1 == a + (b - 1);
    }
  }

  lemma {:induction false} ShrShl(v: int, n: nat)
    ensures Shr(Shl(v, n), n) == v
    decreases n
  {
    if n > 0 {
      ShrShl(v, n - 1);
    }
  }

  lemma {:induction false} ShlMonotone(a: int, b: int, n: nat)
    requires a <= b
    ensures Shl(a, n) <= Shl(b, n)
    decreases n
  {
    if n > 0 {
      ShlMonotone(a, b, n - 1);
    }
  }

  lemma {:induction false} Pow2Monotone(a: nat, b: nat)
    requires a <= b
    ensures Pow2(a) <= Pow2(b)
    ensures a < b ==> 2 * Pow2(a) <= Pow2(b)
    decreases b
  {
    if a < b {
      Pow2Monotone(a, b - 1);
    }
  }

  lemma MulLe(a: int, b: int, c: nat)
    requires a <= b
    ensures a * c <= b * c
  {
  }

  lemma MulCancel(a: int, b: int, c: nat)
    requires a * c < b * c
    ensures a < b
  {
    assert a >= b ==> a * c >= b * c;
  }

  lemma MulAssoc(a: int, b: int, c: int)
    ensures a * b * c == a * (b * c) == b * (a * c)
  {
  }

  lemma MultipleMod(n: int, t: int, r: int)
    requires 0 <= r < n
    ensures (n * t + r) % n == r
  {
    var x := n * t + r;
    var q := x / n;
    assert x == n * q + x % n;
    assert n * (t - q) == x % n - r;
    assert t - q >= 1 ==> n * (t - q) >= n;
    assert t - q <= -1 ==> n * (t - q) <= -n;
  }

  lemma {:induction false} ShlIsProduct(v: int, k: nat)
    ensures Shl(v, k) == Pow2(k) * v
    decreases k
  {
    if k > 0 {
      ShlIsProduct(v, k - 1);
      var p := Pow2(k - 1);
      assert (p + p) * v == p * v + p * v;
    }
  }

  lemma ShlByte(v: int)
    ensures Shl(v, 8) == 256 * v
  {
    ShlFour(v);
    ShlFour(16 * v);
    ShlShl(v, 4, 4);
  }

  lemma ShlFour(v: int)
    ensures Shl(v, 4) == 16 * v
  {
    assert Shl(v, 1) == v + v;
    assert Shl(v, 2) == Shl(v, 1) + Shl(v, 1);
    assert Shl(v, 3) == Shl(v, 2) + Shl(v, 2);
  }

  lemma ShlWord(v: int)
    ensures Shl(v, 32) == 0x1_0000_0000 * v
  {
    ShlByte(v);
    ShlShl(v, 8, 8);
    ShlByte(256 * v);
    ShlShl(v, 16, 8);
    ShlByte(0x1_0000 * v);
    ShlShl(v, 24, 8);
    ShlByte(0x100_0000 * v);
  }

  /** Powers of two that fit 32 bits. No exponent is equated with a literal: that would make Z3 unfold Shl. */
  lemma FitsWord(k: nat)
    requires k <= 32
    ensures 0 < Pow2(k) <= 0x1_0000_0000
    ensures k < 32 ==> 2 * Pow2(k) <= 0x1_0000_0000
  {
    ShlWord(1);
    Pow2Monotone(k, 32);
  }

  lemma FitsByte(k: nat)
    requires k <= 8
    ensures Pow2(k) <= 256
  {
    ShlByte(1);
    Pow2Monotone(k, 8);
  }

  /** n bits and then 32 - n more make a word. */
  lemma ShlToWord(n: nat)
    requires n <= 32
    ensures Shl(Pow2(n), 32 - n) == 0x1_0000_0000
  {
    ShlShl(1, n, 32 - n);
    ShlWord(1);
  }

  lemma SmallPowers()
    ensures Pow2(0) == 1 && Pow2(1) == 2 && Pow2(2) == 4 && Pow2(3) == 8 && Pow2(4) == 16 && Pow2(5) == 32
    ensures Pow2(6) == 64 && Pow2(7) == 128
  {
    assert Pow2(2) == 4;
    assert Pow2(4) == 16;
    assert Pow2(6) == Pow2(5) + Pow2(5);
  }

  lemma {:induction false} ShrHalves(v: nat, n: nat)
    ensures Shr(v, 0) == v && Shr(v, n + 1) == Shr(v, n) / 2
    decreases n
  {
    if n > 0 {
      ShrHalves(v / 2, n - 1);
    }
  }

  lemma SmallShifts(v: nat)
    ensures Shr(v, 0) == v && Shr(v, 1) == v / 2 && Shr(v, 2) == v / 4 && Shr(v, 3) == v / 8
    ensures Shr(v, 4) == v / 16 && Shr(v, 5) == v / 32 && Shr(v, 6) == v / 64 && Shr(v, 7) == v / 128
  {
    hide Shr;
    ShrHalves(v, 0);
    ShrHalves(v, 1);
    ShrHalves(v, 2);
    ShrHalves(v, 3);
    ShrHalves(v, 4);
    ShrHalves(v, 5);
    ShrHalves(v, 6);
  }

  /** floor(log2(v)) for v > 0: log2u32 of the reader. */
  function Log2(v: nat): (k: nat)
    requires v > 0
    ensures Pow2(k) <= v < Pow2(k + 1)
  {
    Log2From(v, 0)
  }

  function Log2From(v: nat, k: nat): (r: nat)
    requires Pow2(k) <= v
    ensures Pow2(r) <= v < Pow2(r + 1)
    decreases v - Pow2(k)
  {
    if v < Pow2(k + 1) then k else Log2From(v, k + 1)
  }

  lemma Log2Unique(v: nat, k: nat)
    requires Pow2(k) <= v < Pow2(k + 1)
    ensures Log2(v) == k
  {
    if Log2(v) < k {
      Pow2Monotone(Log2(v) + 1, k);
    } else if Log2(v) > k {
      Pow2Monotone(k + 1, Log2(v));
    }
  }
}
