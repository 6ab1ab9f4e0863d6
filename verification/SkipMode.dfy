/** skipModeParams of cbs/av1_syntax.go: whether skip mode is allowed, and for which two references. */
module SkipMode {
  import opened Common
  import opened Powers
  import opened OrderHints
  import opened FrameRefs

  /** The distance of each of the seven references from the current frame; negative means before it. */
  function Distances(coding: HintCoding, hints: seq<uint8>, orderHint: uint8): (d: seq<int>)
    ensures |d| == |hints|
    ensures forall i :: 0 <= i < |d| ==> d[i] == RelativeDist(coding, hints[i], orderHint)
  {
    seq(|hints|, i requires 0 <= i < |hints| => RelativeDist(coding, hints[i], orderHint))
  }

  // ----- Nearest references

  /** Of the first n references, r is the first of the nearest that lie before limit; -1 if none does. */
  ghost predicate NearestBelow(d: seq<int>, n: nat, limit: int, r: int)
    requires n <= |d|
  {
    if r < 0 then r == -1 && forall k :: 0 <= k < n ==> d[k] >= limit
    else
      && r < n && d[r] < limit
      && (forall k :: 0 <= k < n && d[k] < limit ==> d[k] <= d[r])
      && (forall k :: 0 <= k < r ==> d[k] != d[r])
  }

  /** Of the first n references, r is the first of the nearest that lie after the current frame; -1 if none does. */
  ghost predicate NearestAfter(d: seq<int>, n: nat, r: int)
    requires n <= |d|
  {
    if r < 0 then r == -1 && forall k :: 0 <= k < n ==> d[k] <= 0
    else
      && r < n && d[r] > 0
      && (forall k :: 0 <= k < n && d[k] > 0 ==> d[k] >= d[r])
      && (forall k :: 0 <= k < r ==> d[k] != d[r])
  }

  /** Comparing two hints directly agrees with comparing their distances, unless these are half a cycle apart. */
  lemma CompareHints(coding: HintCoding, a: uint8, b: uint8, orderHint: uint8)
    requires coding.Valid() && coding.enabled
    ensures var d: int := RelativeDist(coding, a, orderHint) - RelativeDist(coding, b, orderHint);
            var m: int := coding.Half();
            && RelativeDist(coding, a, b) == (if d < -m then d + m + m else if d >= m then d - m - m else d)
            && -m <= RelativeDist(coding, a, orderHint) < m
  {
    hide RelativeDist, CentredResidue;
    var m := coding.Half();
    RelativeDistIsCentred(coding, a, orderHint);
    RelativeDistIsCentred(coding, b, orderHint);
    RelativeDistIsCentred(coding, a, b);
    CentredDifference(a, b, orderHint, m);
    CentredRange(a - orderHint, m);
  }

  // ----- The source's loops

  /** The first loop: the nearest references on either side. */
  method FindNearest(coding: HintCoding, hints: seq<uint8>, orderHint: uint8)
    returns (forwardIdx: int, backwardIdx: int)
    requires coding.Valid() && coding.enabled
    ensures var d := Distances(coding, hints, orderHint);
            NearestBelow(d, |d|, 0, forwardIdx) && NearestAfter(d, |d|, backwardIdx)
  {
    hide RelativeDist;
    ghost var d := Distances(coding, hints, orderHint);
    forwardIdx, backwardIdx := -1, -1;
    var forwardHint, backwardHint: uint8 := 0, 0;
    var i := 0;
    while i < |hints|
      invariant 0 <= i <= |hints|
      invariant NearestBelow(d, i, 0, forwardIdx) && (forwardIdx >= 0 ==> forwardHint == hints[forwardIdx])
      invariant NearestAfter(d, i, backwardIdx) && (backwardIdx >= 0 ==> backwardHint == hints[backwardIdx])
    {
      var refHint := hints[i];
      var dist := RelativeDist(coding, refHint, orderHint);
      CompareHints(coding, refHint, forwardHint, orderHint);
      CompareHints(coding, refHint, backwardHint, orderHint);
      CompareHints(coding, forwardHint, backwardHint, orderHint);
      CompareHints(coding, backwardHint, forwardHint, orderHint);
      if dist < 0 {
        if forwardIdx < 0 || RelativeDist(coding, refHint, forwardHint) > 0 {
          forwardIdx, forwardHint := i, refHint;
        }
      } else if dist > 0 {
        if backwardIdx < 0 || RelativeDist(coding, refHint, backwardHint) < 0 {
          backwardIdx, backwardHint := i, refHint;
        }
      }
      i := i + 1;
    }
  }

  /**
   * What the second loop compares: a distance, as seen from the nearest forward reference at distance f.
   * A reference with the hint of the current frame, half a cycle away from it, counts as lying before it.
   */
  function SeenFrom(d: seq<int>, f: int, m: int): (s: seq<int>)
    ensures |s| == |d|
    ensures forall i :: 0 <= i < |d| ==> s[i] == if d[i] - f >= m then d[i] - m - m else d[i]
  {
    seq(|d|, i requires 0 <= i < |d| => if d[i] - f >= m then d[i] - m - m else d[i])
  }

  /** The second loop: the nearest reference before the forward one. */
  method FindSecond(coding: HintCoding, hints: seq<uint8>, orderHint: uint8, forwardIdx: nat)
    returns (secondForwardIdx: int)
    requires coding.Valid() && coding.enabled && forwardIdx < |hints|
    requires var d := Distances(coding, hints, orderHint);
             NearestBelow(d, |d|, 0, forwardIdx) && NearestAfter(d, |d|, -1)
    ensures var d := Distances(coding, hints, orderHint);
            NearestBelow(SeenFrom(d, d[forwardIdx], coding.Half()), |d|, d[forwardIdx], secondForwardIdx)
  {
    hide RelativeDist, Pow2, NearestAfter;
    ghost var d := Distances(coding, hints, orderHint);
    ghost var s := SeenFrom(d, d[forwardIdx], coding.Half());
    var forwardHint := hints[forwardIdx];
    secondForwardIdx := -1;
    var secondForwardHint: uint8 := 0;
    assert forall k :: 0 <= k < |d| ==> d[k] <= 0 by {
      NoneAfter(d);
    }
    CompareHints(coding, forwardHint, forwardHint, orderHint);
    var i := 0;
    while i < |hints|
      invariant 0 <= i <= |hints|
      invariant NearestBelow(s, i, d[forwardIdx], secondForwardIdx)
      invariant secondForwardIdx >= 0 ==> secondForwardHint == hints[secondForwardIdx]
    {
      var refHint := hints[i];
      CompareHints(coding, refHint, forwardHint, orderHint);
      CompareHints(coding, refHint, secondForwardHint, orderHint);
      CompareHints(coding, secondForwardHint, forwardHint, orderHint);
      if RelativeDist(coding, refHint, forwardHint) < 0 {
        if secondForwardIdx < 0 || RelativeDist(coding, refHint, secondForwardHint) > 0 {
          secondForwardIdx, secondForwardHint := i, refHint;
        }
      }
      i := i + 1;
    }
  }

  lemma NoneAfter(d: seq<int>)
    requires NearestAfter(d, |d|, -1)
    ensures forall k :: 0 <= k < |d| ==> d[k] <= 0
  {
  }

  // ----- When skip mode is allowed

  /** One reference lies before the frame, and one after it or a second one at another distance before it. */
  ghost predicate TwoReferences(d: seq<int>) {
    && (exists i :: 0 <= i < |d| && d[i] < 0)
    && ((exists j :: 0 <= j < |d| && d[j] > 0)
        || exists i, k :: 0 <= i < |d| && 0 <= k < |d| && d[k] < d[i] < 0)
  }

  /** No reference lies after the frame, all before it are exactly half a cycle away, and one has its own hint. */
  ghost predicate HalfCycleClash(d: seq<int>, m: int) {
    && (forall j :: 0 <= j < |d| ==> d[j] == 0 || d[j] == -m)
    && (exists i :: 0 <= i < |d| && d[i] == -m) && (exists z :: 0 <= z < |d| && d[z] == 0)
  }

  /**
   * Skip mode is allowed exactly when there are two references, or in the one clash. There the second
   * reference the loop settles on is not before the frame at all: it has the hint of the frame itself.
   */
  lemma AllowedExactly(d: seq<int>, m: int, forwardIdx: int, backwardIdx: int, secondForwardIdx: int)
    requires m > 0 && forall i :: 0 <= i < |d| ==> -m <= d[i] < m
    requires NearestBelow(d, |d|, 0, forwardIdx) && NearestAfter(d, |d|, backwardIdx)
    requires forwardIdx >= 0 && backwardIdx < 0 ==>
               NearestBelow(SeenFrom(d, d[forwardIdx], m), |d|, d[forwardIdx], secondForwardIdx)
    ensures forwardIdx >= 0 && (backwardIdx >= 0 || secondForwardIdx >= 0) <==> TwoReferences(d) || HalfCycleClash(d, m)
    ensures !(TwoReferences(d) && HalfCycleClash(d, m))
    ensures forwardIdx >= 0 && backwardIdx < 0 ==>
              if HalfCycleClash(d, m) then secondForwardIdx >= 0 && d[secondForwardIdx] == 0
              else NearestBelow(d, |d|, d[forwardIdx], secondForwardIdx)
  {
    if forwardIdx >= 0 && backwardIdx < 0 {
      SecondExactly(d, m, forwardIdx, secondForwardIdx);
    } else if forwardIdx >= 0 {
      assert d[forwardIdx] < 0 && d[backwardIdx] > 0;
    }
  }

  /** With nothing after the frame, some reference is half a cycle from the nearest exactly in the clash. */
  lemma ClashFromBehind(d: seq<int>, m: int, f: nat)
    requires m > 0 && forall i :: 0 <= i < |d| ==> -m <= d[i] <= 0
    requires f < |d| && NearestBelow(d, |d|, 0, f)
    ensures HalfCycleClash(d, m) <==> d[f] == -m && exists z :: 0 <= z < |d| && d[z] == 0
    ensures HalfCycleClash(d, m) <==> exists z :: 0 <= z < |d| && d[z] - d[f] >= m
  {
    assert forall z :: 0 <= z < |d| && d[z] - d[f] >= m ==> d[z] == 0;
  }

  lemma SecondExactly(d: seq<int>, m: int, f: nat, second: int)
    requires m > 0 && forall i :: 0 <= i < |d| ==> -m <= d[i] <= 0
    requires f < |d| && NearestBelow(d, |d|, 0, f) && NearestBelow(SeenFrom(d, d[f], m), |d|, d[f], second)
    ensures second >= 0 <==> TwoReferences(d) || HalfCycleClash(d, m)
    ensures !(TwoReferences(d) && HalfCycleClash(d, m))
    ensures if HalfCycleClash(d, m) then second >= 0 && d[second] == 0 else NearestBelow(d, |d|, d[f], second)
  {
    var s := SeenFrom(d, d[f], m);
    ClashFromBehind(d, m, f);
    assert !HalfCycleClash(d, m) ==> s == d;
    if second >= 0 {
      assert s[second] < d[f];
    } else {
      assert forall k :: 0 <= k < |d| ==> s[k] >= d[f];
    }
  }

  /**
   * skipModeParams up to the flag it guards. hints are those of the seven references; intra says that the
   * frame is a key frame or intra-only.
   */
  method SkipModeParams(coding: HintCoding, intra: bool, referenceSelect: bool, hints: seq<uint8>, orderHint: uint8)
    returns (allowed: bool, forwardIdx: int, backwardIdx: int, secondForwardIdx: int)
    requires coding.Valid() && |hints| == REFS_PER_FRAME
    ensures allowed <==>
              !intra && referenceSelect && coding.enabled
              && var d := Distances(coding, hints, orderHint);
                 TwoReferences(d) || HalfCycleClash(d, coding.Half())
    ensures var d := Distances(coding, hints, orderHint);
            if intra || !referenceSelect || !coding.enabled then !allowed
            else
              && NearestBelow(d, |d|, 0, forwardIdx) && NearestAfter(d, |d|, backwardIdx)
              && (allowed <==> forwardIdx >= 0 && (backwardIdx >= 0 || secondForwardIdx >= 0))
              && (forwardIdx >= 0 && backwardIdx < 0 ==>
                    NearestBelow(SeenFrom(d, d[forwardIdx], coding.Half()), |d|, d[forwardIdx], secondForwardIdx))
  {
    hide RelativeDist, Pow2, TwoReferences, HalfCycleClash, NearestAfter, SeenFrom;
    ghost var d := Distances(coding, hints, orderHint);
    forwardIdx, backwardIdx, secondForwardIdx := -1, -1, -1;
    if intra || !referenceSelect || !coding.enabled {
      return false, forwardIdx, backwardIdx, secondForwardIdx;
    }
    forwardIdx, backwardIdx := FindNearest(coding, hints, orderHint);
    if forwardIdx < 0 {
      allowed := false;
    } else if backwardIdx >= 0 {
      allowed := true;
    } else {
      BackwardNone(d, backwardIdx);
      secondForwardIdx := FindSecond(coding, hints, orderHint, forwardIdx);
      allowed := secondForwardIdx >= 0;
    }
    DistancesInCycle(coding, hints, orderHint);
    AllowedExactly(d, coding.Half(), forwardIdx, backwardIdx, secondForwardIdx);
  }

  lemma BackwardNone(d: seq<int>, r: int)
    requires NearestAfter(d, |d|, r) && r < 0
    ensures r == -1
  {
  }

  lemma DistancesInCycle(coding: HintCoding, hints: seq<uint8>, orderHint: uint8)
    requires coding.Valid() && coding.enabled
    ensures var m: int := coding.Half();
            forall i :: 0 <= i < |hints| ==> -m <= Distances(coding, hints, orderHint)[i] < m
  {
    hide RelativeDist, Pow2;
    var m: int := coding.Half();
    forall i | 0 <= i < |hints|
      ensures -m <= Distances(coding, hints, orderHint)[i] < m
    {
      CompareHints(coding, hints[i], hints[i], orderHint);
    }
  }

  /**
   * A frame whose only references have its own hint or lie half a cycle before it: skip mode is allowed all the same.
   */
  lemma ClashExample()
    ensures var coding := HintCoding(true, 0);
            var d := Distances(coding, [1, 0, 0, 0, 0, 0, 0], 0);
            HalfCycleClash(d, coding.Half()) && !TwoReferences(d)
  {
    hide RelativeDist;
    var coding := HintCoding(true, 0);
    var d := Distances(coding, [1, 0, 0, 0, 0, 0, 0], 0);
    RelativeDistIsCentred(coding, 1, 0);
    RelativeDistIsCentred(coding, 0, 0);
    assert coding.Half() == 1;
    assert d[0] == -1 && d[1] == 0;
  }
}
