/**
 * extractRBSP of cbs/h2645.go: find where a NAL unit ends and take the emulation-prevention bytes out
 * (sections 7.3.1 and 7.4.1 of ITU-T H.264).
 */
module Rbsp {
  import opened Common

  // ----- What extraction means, byte by byte

  /** Two zero bytes and then a or b at position k. */
  predicate Hit(s: seq<byte>, k: int, a: byte, b: byte) {
    0 <= k && k + 2 < |s| && s[k] == 0 && s[k + 1] == 0 && (s[k + 2] == a || s[k + 2] == b)
  }

  /** The first hit at or after k, or the length of s. */
  function FirstHit(s: seq<byte>, k: nat, a: byte, b: byte): (n: nat)
    requires k <= |s|
    ensures k <= n <= |s|
    ensures n < |s| ==> Hit(s, n, a, b)
    decreases |s| - k
  {
    if k == |s| || Hit(s, k, a, b) then k else FirstHit(s, k + 1, a, b)
  }

  /** No position from k up to (not including) n is a hit. */
  ghost predicate NoHit(s: seq<byte>, k: int, n: int, a: byte, b: byte) {
    forall j :: k <= j < n ==> !Hit(s, j, a, b)
  }

  lemma {:induction false} FirstHitSpec(s: seq<byte>, k: nat, a: byte, b: byte)
    requires k <= |s|
    ensures var n := FirstHit(s, k, a, b);
            NoHit(s, k, n, a, b)
    decreases |s| - k
  {
    if k < |s| && !Hit(s, k, a, b) {
      FirstHitSpec(s, k + 1, a, b);
    }
  }

  lemma {:induction false} FirstHitIs(s: seq<byte>, k: nat, n: nat, a: byte, b: byte)
    requires k <= n <= |s| && NoHit(s, k, n, a, b)
    requires n < |s| ==> Hit(s, n, a, b)
    ensures FirstHit(s, k, a, b) == n
    decreases n - k
  {
    if k < n {
      assert !Hit(s, k, a, b);
      FirstHitIs(s, k + 1, n, a, b);
    }
  }

  /**
   * How many bytes of s belong to the NAL unit that starts it. Up to the first 00 00 03 only a start code
   * 00 00 01 ends the unit; from there on 00 00 02 ends it as well.
   */
  function Consumed(s: seq<byte>): (n: nat)
    ensures n <= |s|
  {
    var e := FirstHit(s, 0, 1, 3);
    if Hit(s, e, 3, 3) then FirstHit(s, e, 1, 2) else e
  }

  /** Byte k of s stays unless it is a 03 after two zeros. */
  predicate Kept(s: seq<byte>, k: nat)
    requires k < |s|
  {
    !(k >= 2 && s[k] == 3 && s[k - 1] == 0 && s[k - 2] == 0)
  }

  /** The first n bytes of s without the emulation-prevention bytes. */
  function Unescape(s: seq<byte>, n: nat): seq<byte>
    requires n <= |s|
  {
    if n == 0 then [] else if Kept(s, n - 1) then Unescape(s, n - 1) + [s[n - 1]] else Unescape(s, n - 1)
  }

  /** For each byte taken out of the first n, the index in the result of the zero before it. */
  function Epbs(s: seq<byte>, n: nat): seq<int>
    requires n <= |s|
  {
    if n == 0 then [] else if Kept(s, n - 1) then Epbs(s, n - 1) else Epbs(s, n - 1) + [|Unescape(s, n - 1)| - 1]
  }

  // ----- The source's algorithm

  /**
   * The fast scan looks at every other byte and steps back one when it lands on the second of two zeros.
   * It stops at the first 00 00 01 (and then cuts the length there) or 00 00 03, and misses none.
   */
  method FastScan(src: seq<byte>) returns (i: nat, length: nat)
    ensures var e := FirstHit(src, 0, 1, 3);
            if e < |src| then i == e && length == (if src[e + 2] == 1 then e else |src|)
            else length == |src| && i >= length - 1
  {
    length := |src|;
    i := 0;
    while i + 1 < length
      invariant length == |src|
      invariant i <= length && NoHit(src, 0, i - 1, 1, 3)
      decreases length - i
    {
      if src[i] != 0 {
        i := i + 2;
      } else {
        if i > 0 && src[i - 1] == 0 {
          i := i - 1;
        }
        if i + 2 < length && src[i + 1] == 0 && (src[i + 2] == 3 || src[i + 2] == 1) {
          assert i > 0 ==> !Hit(src, i - 1, 1, 3);
          FirstHitIs(src, 0, i, 1, 3);
          if src[i + 2] == 1 {
            length := i;
          }
          return;
        }
        assert !Hit(src, i, 1, 3);
        i := i + 2;
      }
    }
    FirstHitIs(src, 0, |src|, 1, 3);
  }

  method ExtractRBSP(src: seq<byte>) returns (rbsp: seq<byte>, epb: seq<int>, consumed: nat)
    ensures consumed == Consumed(src)
    ensures rbsp == Unescape(src, consumed)
    ensures epb == Epbs(src, consumed)
  {
    var i, length := FastScan(src);
    FirstHitSpec(src, 0, 1, 3);
    NoHitKeeps(src, FirstHit(src, 0, 1, 3));
    if length <= i + 1 {
      return src[..length], [], length;
    }
    assert forall j :: 0 <= j < i && Hit(src, j, 3, 3) ==> Hit(src, j, 1, 3);
    rbsp, epb, consumed := RemoveEscapes(src, i);
  }

  lemma NoHitKeeps(s: seq<byte>, n: nat)
    requires n <= |s| && NoHit(s, 0, n, 1, 3)
    ensures Unescape(s, n) == s[..n] && Epbs(s, n) == []
  {
    assert forall k :: 0 <= k < n && !Kept(s, k) ==> Hit(s, k - 2, 1, 3);
    NothingToDrop(s, n);
  }

  /** The slow loop from the first escape on. It advances two bytes when the third is above 3. */
  method RemoveEscapes(src: seq<byte>, i: nat) returns (dst: seq<byte>, epb: seq<int>, si: nat)
    requires Hit(src, i, 3, 3)
    requires Unescape(src, i) == src[..i] && Epbs(src, i) == [] && NoHit(src, 0, i, 3, 3)
    ensures si == FirstHit(src, i, 1, 2)
    ensures dst == Unescape(src, si)
    ensures epb == Epbs(src, si)
  {
    hide Unescape, Epbs, FirstHit;
    dst, epb, si := src[..i], [], i;
    var length := |src|;
    assert !Hit(src, i - 2, 3, 3) && !Hit(src, i - 1, 3, 3);
    while si + 2 < length
      invariant i <= si <= length && NoHit(src, i, si, 1, 2)
      invariant dst == Unescape(src, si) && epb == Epbs(src, si)
      invariant !Hit(src, si - 2, 3, 3) && !Hit(src, si - 1, 3, 3)
    {
      if src[si + 2] > 3 {
        KeepTwo(src, si);
        dst := dst + [src[si], src[si + 1]];
        si := si + 2;
      } else if src[si] == 0 && src[si + 1] == 0 && src[si + 2] != 0 {
        if src[si + 2] == 3 {
          KeepTwo(src, si);
          NextByte(src, si + 3);
          dst := dst + [0, 0];
          si := si + 3;
          epb := epb + [|dst| - 1];
        } else {
          FirstHitIs(src, i, si, 1, 2);
          return;
        }
      } else {
        NextByte(src, si + 1);
        dst := dst + [src[si]];
        si := si + 1;
      }
    }
    while si < length
      invariant si <= length && NoHit(src, i, length, 1, 2)
      invariant dst == Unescape(src, si) && epb == Epbs(src, si)
      invariant forall k :: si <= k < length ==> Kept(src, k)
    {
      NextByte(src, si + 1);
      dst := dst + [src[si]];
      si := si + 1;
    }
    FirstHitIs(src, i, length, 1, 2);
  }

  /** Two bytes that no escape ends on. */
  lemma KeepTwo(s: seq<byte>, k: nat)
    requires k + 2 <= |s| && Kept(s, k) && Kept(s, k + 1)
    ensures Unescape(s, k + 2) == Unescape(s, k) + [s[k], s[k + 1]]
    ensures Epbs(s, k + 2) == Epbs(s, k)
  {
    assert Unescape(s, k + 1) == Unescape(s, k) + [s[k]];
    assert Epbs(s, k + 1) == Epbs(s, k);
  }

  lemma {:induction false} NothingToDrop(s: seq<byte>, n: nat)
    requires n <= |s| && forall k :: 0 <= k < n ==> Kept(s, k)
    ensures Unescape(s, n) == s[..n] && Epbs(s, n) == []
  {
    if n > 0 {
      NothingToDrop(s, n - 1);
    }
  }

  // ----- De-escaping loses nothing

  /** The first n bytes of rbsp, with a 03 put back after each of the first m recorded indices. */
  function ReinsertTo(rbsp: seq<byte>, epb: seq<int>, n: nat, m: nat): seq<byte>
    requires n <= |rbsp| && m <= |epb|
    decreases n + m
  {
    if m > 0 && epb[m - 1] == n - 1 then ReinsertTo(rbsp, epb, n, m - 1) + [3]
    else if n > 0 then ReinsertTo(rbsp, epb, n - 1, m) + [rbsp[n - 1]]
    else []
  }

  function Reinsert(rbsp: seq<byte>, epb: seq<int>): seq<byte> {
    ReinsertTo(rbsp, epb, |rbsp|, |epb|)
  }

  lemma {:induction false} ReinsertAgree(r: seq<byte>, e: seq<int>, r': seq<byte>, e': seq<int>, n: nat, m: nat)
    requires n <= |r| && n <= |r'| && m <= |e| && m <= |e'|
    requires forall k :: 0 <= k < n ==> r[k] == r'[k]
    requires forall k :: 0 <= k < m ==> e[k] == e'[k]
    ensures ReinsertTo(r, e, n, m) == ReinsertTo(r', e', n, m)
    decreases n + m
  {
    if m > 0 && e[m - 1] == n - 1 {
      ReinsertAgree(r, e, r', e', n, m - 1);
    } else if n > 0 {
      ReinsertAgree(r, e, r', e', n - 1, m);
    }
  }

  /** The recorded indices ascend, and each is the second of two zeros in the result. */
  ghost predicate MarksZeroPairs(rbsp: seq<byte>, epb: seq<int>) {
    && (forall i, j :: 0 <= i < j < |epb| ==> epb[i] < epb[j])
    && (forall i :: 0 <= i < |epb| ==> 1 <= epb[i] < |rbsp| && rbsp[epb[i]] == 0 && rbsp[epb[i] - 1] == 0)
  }

  /** The bytes just before position n, when they are zeros, are still at the end of the result. */
  lemma ZeroPairKept(s: seq<byte>, n: nat)
    requires 2 <= n <= |s| && s[n - 1] == 0 && s[n - 2] == 0
    ensures Unescape(s, n) == Unescape(s, n - 2) + [0, 0]
    ensures Epbs(s, n) == Epbs(s, n - 2)
  {
    KeepTwo(s, n - 2);
  }

  lemma MarksExtend(r: seq<byte>, e: seq<int>, b: byte)
    requires MarksZeroPairs(r, e)
    ensures MarksZeroPairs(r + [b], e)
  {
  }

  lemma MarksAnother(r: seq<byte>, e: seq<int>)
    requires MarksZeroPairs(r, e)
    ensures MarksZeroPairs(r + [0, 0], e + [|r| + 1])
  {
    assert forall i :: 0 <= i < |e| ==> 1 <= e[i] < |r|;
  }

  lemma {:induction false} EpbsMarkZeroPairs(s: seq<byte>, n: nat)
    requires n <= |s|
    ensures |Unescape(s, n)| + |Epbs(s, n)| == n
    ensures MarksZeroPairs(Unescape(s, n), Epbs(s, n))
  {
    if n == 0 {
    } else if Kept(s, n - 1) {
      EpbsMarkZeroPairs(s, n - 1);
      MarksExtend(Unescape(s, n - 1), Epbs(s, n - 1), s[n - 1]);
    } else {
      EpbsMarkZeroPairs(s, n - 3);
      ZeroPairKept(s, n - 1);
      MarksAnother(Unescape(s, n - 3), Epbs(s, n - 3));
    }
  }

  /**
   * For every input, whatever its bytes: putting a 03 back after each recorded index rebuilds exactly the
   * bytes that were consumed.
   */
  lemma {:induction false} ReinsertRebuilds(s: seq<byte>, n: nat)
    requires n <= |s|
    ensures Reinsert(Unescape(s, n), Epbs(s, n)) == s[..n]
  {
    hide Unescape, Epbs, Reinsert, MarksZeroPairs;
    if n > 0 {
      var r, e := Unescape(s, n - 1), Epbs(s, n - 1);
      ReinsertRebuilds(s, n - 1);
      EpbsMarkZeroPairs(s, n - 1);
      NextByte(s, n);
      if Kept(s, n - 1) {
        ReinsertKept(r, e, s[n - 1]);
      } else {
        ReinsertDropped(r, e);
      }
    } else {
      NoBytes(s);
    }
  }

  lemma NextByte(s: seq<byte>, n: nat)
    requires 0 < n <= |s|
    ensures var r, e := Unescape(s, n - 1), Epbs(s, n - 1);
            if Kept(s, n - 1) then Unescape(s, n) == r + [s[n - 1]] && Epbs(s, n) == e
            else Unescape(s, n) == r && Epbs(s, n) == e + [|r| - 1]
  {
  }

  lemma NoBytes(s: seq<byte>)
    ensures Reinsert(Unescape(s, 0), Epbs(s, 0)) == []
  {
  }

  lemma ReinsertKept(r: seq<byte>, e: seq<int>, b: byte)
    requires MarksZeroPairs(r, e)
    ensures Reinsert(r + [b], e) == Reinsert(r, e) + [b]
  {
    ReinsertAgree(r + [b], e, r, e, |r|, |e|);
  }

  lemma ReinsertDropped(r: seq<byte>, e: seq<int>)
    ensures Reinsert(r, e + [|r| - 1]) == Reinsert(r, e) + [3]
  {
    ReinsertAgree(r, e + [|r| - 1], r, e, |r|, |e|);
  }

  /** Extraction loses nothing: the form of ReinsertRebuilds that speaks of one call. */
  lemma ExtractionIsLossless(src: seq<byte>)
    ensures var n := Consumed(src);
            && Reinsert(Unescape(src, n), Epbs(src, n)) == src[..n]
            && |Unescape(src, n)| + |Epbs(src, n)| == n
            && MarksZeroPairs(Unescape(src, n), Epbs(src, n))
  {
    ReinsertRebuilds(src, Consumed(src));
    EpbsMarkZeroPairs(src, Consumed(src));
  }

  // ----- Against section 7.4.1: a NAL unit ends at the first start code

  lemma {:induction false} StartCodeIsHit(s: seq<byte>, k: nat, b: byte)
    requires k <= |s|
    ensures FirstHit(s, k, 1, b) <= FirstHit(s, k, 1, 1)
    decreases |s| - k
  {
    if k < |s| && !Hit(s, k, 1, b) {
      StartCodeIsHit(s, k + 1, b);
    }
  }

  lemma {:induction false} FirstStartFrom(s: seq<byte>, k: nat, from: nat)
    requires k <= |s| && k <= from <= FirstHit(s, k, 1, 1)
    ensures FirstHit(s, from, 1, 1) == FirstHit(s, k, 1, 1)
    decreases from - k
  {
    if k < from {
      FirstStartFrom(s, k + 1, from);
    }
  }

  /** A 00 00 02 between the first 00 00 03 and the first start code. */
  ghost predicate StrayTwo(s: seq<byte>) {
    exists j, k :: 0 <= j < k < FirstHit(s, 0, 1, 1) && Hit(s, j, 3, 3) && Hit(s, k, 2, 2)
  }

  lemma StrayTwoStops(s: seq<byte>, e: nat)
    requires e <= FirstHit(s, 0, 1, 1) && e == FirstHit(s, 0, 1, 3) && Hit(s, e, 3, 3)
    ensures FirstHit(s, e, 1, 2) == FirstHit(s, 0, 1, 1) <==> !StrayTwo(s)
  {
    var start, c := FirstHit(s, 0, 1, 1), FirstHit(s, e, 1, 2);
    FirstHitSpec(s, 0, 1, 1);
    FirstHitSpec(s, 0, 1, 3);
    FirstHitSpec(s, e, 1, 2);
    StartCodeIsHit(s, e, 2);
    FirstStartFrom(s, 0, e);
    assert c < start ==> Hit(s, c, 1, 1) || Hit(s, c, 2, 2);
    assert forall j :: 0 <= j < e ==> !Hit(s, j, 1, 3);
    assert forall j :: Hit(s, j, 3, 3) ==> Hit(s, j, 1, 3);
    assert forall k :: Hit(s, k, 2, 2) ==> Hit(s, k, 1, 2);
  }

  /**
   * The bytes consumed end at the first 00 00 01 (or at the end of s) if and only if no 00 00 02 lies
   * between the first 00 00 03 and that start code. Section 7.4.1 forbids 00 00 02 in a NAL unit.
   */
  lemma ConsumedIsFirstStartCode(s: seq<byte>)
    ensures Consumed(s) == FirstHit(s, 0, 1, 1) <==> !StrayTwo(s)
  {
    var start, e := FirstHit(s, 0, 1, 1), FirstHit(s, 0, 1, 3);
    FirstHitSpec(s, 0, 1, 1);
    FirstHitSpec(s, 0, 1, 3);
    StartCodeIsHit(s, 0, 3);
    if Hit(s, e, 3, 3) {
      StrayTwoStops(s, e);
    } else {
      assert forall j :: Hit(s, j, 3, 3) ==> Hit(s, j, 1, 3);
      assert e < |s| ==> Hit(s, e, 1, 1);
    }
  }

  /** Such an input: the unit ends at its only 00 00 02, and there is no start code. */
  lemma StrayExample()
    ensures var s: seq<byte> := [0, 0, 3, 0, 0, 2];
            StrayTwo(s) && Consumed(s) == 3 && FirstHit(s, 0, 1, 1) == |s|
  {
    var s: seq<byte> := [0, 0, 3, 0, 0, 2];
    FirstHitIs(s, 0, 6, 1, 1);
    FirstHitIs(s, 0, 0, 1, 3);
    FirstHitIs(s, 0, 3, 1, 2);
    assert Hit(s, 0, 3, 3) && Hit(s, 3, 2, 2);
  }
}
