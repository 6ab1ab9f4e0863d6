/**
 * The writer's side of section 7.3.1 of ITU-T H.264: emulation prevention. It is the partner extractRBSP
 * is measured against.
 */
module Escape {
  import opened Common
  import opened Rbsp

  predicate EndsInTwoZeros(e: seq<byte>) {
    |e| >= 2 && e[|e| - 1] == 0 && e[|e| - 2] == 0
  }

  /** The first n bytes of a payload, with a 03 before each byte up to 3 that would follow two zeros. */
  function EscapeTo(p: seq<byte>, n: nat): (e: seq<byte>)
    requires n <= |p|
    ensures |e| >= n
    ensures n > 0 ==> e[|e| - 1] == p[n - 1]
  {
    if n == 0 then []
    else
      var e := EscapeTo(p, n - 1);
      if EndsInTwoZeros(e) && p[n - 1] <= 3 then e + [3, p[n - 1]] else e + [p[n - 1]]
  }

  function Escaped(p: seq<byte>): (e: seq<byte>)
    ensures |e| >= |p|
  {
    EscapeTo(p, |p|)
  }

  /** No 00 00 01 and no 00 00 02 anywhere. */
  ghost predicate NoStops(e: seq<byte>) {
    NoHit(e, 0, |e|, 1, 2)
  }

  lemma NoStopsExtend(e: seq<byte>, b: byte)
    requires NoStops(e) && !(EndsInTwoZeros(e) && (b == 1 || b == 2))
    ensures NoStops(e + [b])
  {
    forall j | 0 <= j < |e| + 1
      ensures !Hit(e + [b], j, 1, 2)
    {
      assert !Hit(e, j, 1, 2);
    }
  }

  lemma {:induction false} EscapedHasNoStops(p: seq<byte>, n: nat)
    requires n <= |p|
    ensures NoStops(EscapeTo(p, n))
  {
    if n > 0 {
      var e := EscapeTo(p, n - 1);
      EscapedHasNoStops(p, n - 1);
      if EndsInTwoZeros(e) && p[n - 1] <= 3 {
        NoStopsExtend(e, 3);
        NoStopsExtend(e + [3], p[n - 1]);
        assert e + [3] + [p[n - 1]] == e + [3, p[n - 1]];
      } else {
        NoStopsExtend(e, p[n - 1]);
      }
    }
  }

  /** Unescaping looks at nothing past its n bytes. */
  lemma {:induction false} UnescapeAgree(s: seq<byte>, t: seq<byte>, n: nat)
    requires n <= |s| && n <= |t| && forall k :: 0 <= k < n ==> s[k] == t[k]
    ensures Unescape(s, n) == Unescape(t, n)
  {
    if n > 0 {
      UnescapeAgree(s, t, n - 1);
    }
  }

  lemma UnescapeKeep(e: seq<byte>, b: byte)
    requires !(EndsInTwoZeros(e) && b == 3)
    ensures Unescape(e + [b], |e| + 1) == Unescape(e, |e|) + [b]
  {
    UnescapeAgree(e + [b], e, |e|);
  }

  lemma UnescapeDrop(e: seq<byte>)
    requires EndsInTwoZeros(e)
    ensures Unescape(e + [3], |e| + 1) == Unescape(e, |e|)
  {
    UnescapeAgree(e + [3], e, |e|);
  }

  lemma UnescapeInserted(e: seq<byte>, b: byte)
    requires EndsInTwoZeros(e)
    ensures Unescape(e + [3, b], |e| + 2) == Unescape(e, |e|) + [b]
  {
    hide Unescape;
    UnescapeDrop(e);
    UnescapeKeep(e + [3], b);
    assert e + [3] + [b] == e + [3, b];
  }

  /** Taking the emulation-prevention bytes out undoes putting them in. */
  lemma {:induction false} UnescapeInvertsEscape(p: seq<byte>, n: nat)
    requires n <= |p|
    ensures Unescape(EscapeTo(p, n), |EscapeTo(p, n)|) == p[..n]
  {
    if n > 0 {
      var e, b := EscapeTo(p, n - 1), p[n - 1];
      UnescapeInvertsEscape(p, n - 1);
      if EndsInTwoZeros(e) && b <= 3 {
        UnescapeInserted(e, b);
      } else {
        UnescapeKeep(e, b);
      }
    }
  }

  lemma {:induction false} UnescapeZeros(s: seq<byte>, n: nat, k: nat)
    requires n + k <= |s| && forall j :: n <= j < n + k ==> s[j] == 0
    ensures Unescape(s, n + k) == Unescape(s, n) + Zeros(k)
    decreases k
  {
    if k > 0 {
      UnescapeZeros(s, n, k - 1);
      assert Zeros(k) == Zeros(k - 1) + [0];
    } else {
      assert Unescape(s, n) + Zeros(0) == Unescape(s, n);
    }
  }

  /** A payload that can be carried: it is not empty and does not end in a zero byte. */
  predicate Carriable(p: seq<byte>) {
    |p| > 0 && p[|p| - 1] != 0
  }

  /** s starts with the escaped payload and k zeros; there a start code follows, or the input ends. */
  ghost predicate StartsWith(s: seq<byte>, p: seq<byte>, k: nat) {
    var n := |Escaped(p)|;
    && n + k <= |s|
    && s[..n] == Escaped(p)
    && (forall j :: n <= j < n + k ==> s[j] == 0)
    && (n + k < |s| ==> Hit(s, n + k, 1, 1))
  }

  lemma NoEarlyStop(s: seq<byte>, p: seq<byte>, k: nat)
    requires Carriable(p) && StartsWith(s, p, k)
    ensures NoHit(s, 0, |Escaped(p)| + k, 1, 2)
  {
    var e := Escaped(p);
    EscapedHasNoStops(p, |p|);
    assert e[|e| - 1] != 0;
    forall j | 0 <= j < |e| + k
      ensures !Hit(s, j, 1, 2)
    {
      assert !Hit(e, j, 1, 2);
      assert forall i :: 0 <= i < |e| ==> s[i] == s[..|e|][i];
    }
  }

  /**
   * Extraction inverts the writer: from an escaped payload, k zeros and then a start code (or the end),
   * it consumes the payload and the zeros and returns both.
   */
  lemma ExtractInvertsEscape(s: seq<byte>, p: seq<byte>, k: nat)
    requires Carriable(p) && StartsWith(s, p, k)
    ensures Consumed(s) == |Escaped(p)| + k
    ensures Unescape(s, Consumed(s)) == p + Zeros(k)
  {
    hide Unescape, EscapeTo, NoHit;
    var n := |Escaped(p)| + k;
    var e := FirstHit(s, 0, 1, 3);
    NoEarlyStop(s, p, k);
    FirstHitSpec(s, 0, 1, 3);
    assert n < |s| ==> Hit(s, n, 1, 3) && Hit(s, n, 1, 2);
    assert e < n ==> !Hit(s, e, 1, 2);
    FirstHitIs(s, if e < n then e else n, n, 1, 2);
    assert Consumed(s) == n;
    UnescapeZeros(s, |Escaped(p)|, k);
    UnescapeAgree(s, Escaped(p), |Escaped(p)|);
    UnescapeInvertsEscape(p, |p|);
    assert p[..|p|] == p;
  }
}
