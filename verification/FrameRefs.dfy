/** setFrameRefs of cbs/av1_syntax.go: which slots the seven reference names get (section 7.8 of AV1). */
module FrameRefs {
  import opened Common
  import opened Powers
  import opened OrderHints

  const NUM_REF_FRAMES := 8
  const REFS_PER_FRAME := 7

  // The names, counted from LAST_FRAME.
  const LAST := 0
  const LAST2 := 1
  const LAST3 := 2
  const GOLDEN := 3
  const BWDREF := 4
  const ALTREF2 := 5
  const ALTREF := 6

  /** The order in which names without a slot get forward references. */
  function FillName(k: nat): (name: nat)
    requires k < 5
    ensures name < REFS_PER_FRAME
  {
    if k == 0 then LAST2 else if k == 1 then LAST3 else if k == 2 then BWDREF else if k == 3 then ALTREF2 else ALTREF
  }

  // ----- Section 7.8, declaratively

  /** r is the slot of s with the largest hint, the last one among equals. */
  ghost predicate IsLatest(hints: seq<int>, s: set<int>, r: int)
    requires |hints| == NUM_REF_FRAMES && forall i :: i in s ==> 0 <= i < NUM_REF_FRAMES
  {
    r in s && forall i :: i in s ==> hints[i] < hints[r] || (hints[i] == hints[r] && i <= r)
  }

  /** r is the slot of s with the smallest hint, the first one among equals. */
  ghost predicate IsEarliest(hints: seq<int>, s: set<int>, r: int)
    requires |hints| == NUM_REF_FRAMES && forall i :: i in s ==> 0 <= i < NUM_REF_FRAMES
  {
    r in s && forall i :: i in s ==> hints[i] > hints[r] || (hints[i] == hints[r] && i >= r)
  }

  ghost predicate PickedLatest(hints: seq<int>, s: set<int>, r: int)
    requires |hints| == NUM_REF_FRAMES && forall i :: i in s ==> 0 <= i < NUM_REF_FRAMES
  {
    if s == {} then r == -1 else IsLatest(hints, s, r)
  }

  ghost predicate PickedEarliest(hints: seq<int>, s: set<int>, r: int)
    requires |hints| == NUM_REF_FRAMES && forall i :: i in s ==> 0 <= i < NUM_REF_FRAMES
  {
    if s == {} then r == -1 else IsEarliest(hints, s, r)
  }

  /** The unused slots whose shifted hint is at least m (backward references) or below it (forward ones). */
  ghost function Open(hints: seq<int>, used: seq<bool>, m: int, back: bool): (s: set<int>)
    requires |hints| == |used| == NUM_REF_FRAMES
    ensures forall i :: i in s ==> 0 <= i < NUM_REF_FRAMES
  {
    set i: int | 0 <= i < NUM_REF_FRAMES && !used[i] && (hints[i] >= m <==> back)
  }

  /** Only the two signalled slots are in use. */
  function Signalled(last: nat, golden: nat): (used: seq<bool>)
    ensures |used| == NUM_REF_FRAMES
    ensures forall i :: 0 <= i < NUM_REF_FRAMES ==> (used[i] <==> i == last || i == golden)
  {
    seq(NUM_REF_FRAMES, i => i == last || i == golden)
  }

  /** The references before any is chosen. */
  function Signals(last: int, golden: int): seq<int> {
    [last, -1, -1, golden, -1, -1, -1]
  }

  /** After the signalled slots: ALTREF is the latest backward slot; BWDREF and ALTREF2 the next earliest. */
  ghost predicate BackwardStage(hints: seq<int>, m: int, last: nat, golden: nat, mid: seq<int>)
    requires |hints| == NUM_REF_FRAMES
  {
    var back := Open(hints, Signalled(last, golden), m, true);
    && |mid| == REFS_PER_FRAME && mid[LAST] == last && mid[GOLDEN] == golden && mid[LAST2] == -1 && mid[LAST3] == -1
    && PickedLatest(hints, back, mid[ALTREF])
    && PickedEarliest(hints, back - {mid[ALTREF]}, mid[BWDREF])
    && PickedEarliest(hints, back - {mid[ALTREF]} - {mid[BWDREF]}, mid[ALTREF2])
  }

  /** The forward slots still open when the k-th name of the fill order is looked at. */
  ghost function OpenForward(hints: seq<int>, m: int, last: nat, golden: nat, mid: seq<int>, before: seq<int>, k: nat)
    : (s: set<int>)
    requires |hints| == NUM_REF_FRAMES && |mid| == |before| == REFS_PER_FRAME && k <= 5
    ensures forall i :: i in s ==> 0 <= i < NUM_REF_FRAMES && hints[i] < m && i != last && i != golden
  {
    if k == 0 then Open(hints, Signalled(last, golden), m, false)
    else
      var s := OpenForward(hints, m, last, golden, mid, before, k - 1);
      if mid[FillName(k - 1)] < 0 then s - {before[FillName(k - 1)]} else s
  }

  /** The k-th name of the fill order, when it has no slot yet, gets the latest open forward slot, if any. */
  ghost predicate ForwardPick(hints: seq<int>, m: int, last: nat, golden: nat, mid: seq<int>, before: seq<int>, k: nat)
    requires |hints| == NUM_REF_FRAMES && |mid| == |before| == REFS_PER_FRAME && k < 5
  {
    if mid[FillName(k)] < 0 then
      PickedLatest(hints, OpenForward(hints, m, last, golden, mid, before, k), before[FillName(k)])
    else
      before[FillName(k)] == mid[FillName(k)]
  }

  ghost predicate ForwardStage(hints: seq<int>, m: int, last: nat, golden: nat, mid: seq<int>, before: seq<int>)
    requires |hints| == NUM_REF_FRAMES && |mid| == REFS_PER_FRAME
  {
    && |before| == REFS_PER_FRAME && before[LAST] == mid[LAST] && before[GOLDEN] == mid[GOLDEN]
    && forall k :: 0 <= k < 5 ==> ForwardPick(hints, m, last, golden, mid, before, k)
  }

  ghost function Slots(): (s: set<int>)
    ensures forall i :: i in s <==> 0 <= i < NUM_REF_FRAMES
  {
    {0, 1, 2, 3, 4, 5, 6, 7}
  }

  /** Names that are still without a slot get the earliest slot of all. */
  ghost predicate FinalFill(hints: seq<int>, before: seq<int>, idx: seq<int>)
    requires |hints| == NUM_REF_FRAMES && |before| == REFS_PER_FRAME
  {
    && |idx| == REFS_PER_FRAME
    && exists e :: IsEarliest(hints, Slots(), e)
                   && forall n :: 0 <= n < REFS_PER_FRAME ==> idx[n] == if before[n] < 0 then e else before[n]
  }

  /** The whole of section 7.8 as a relation between the hints and the references. */
  ghost predicate Section78(hints: seq<int>, m: int, last: nat, golden: nat, mid: seq<int>, before: seq<int>,
                            idx: seq<int>)
    requires |hints| == NUM_REF_FRAMES
  {
    && last < NUM_REF_FRAMES && golden < NUM_REF_FRAMES
    && BackwardStage(hints, m, last, golden, mid)
    && ForwardStage(hints, m, last, golden, mid, before)
    && FinalFill(hints, before, idx)
  }

  // ----- The source's algorithm

  method FindLatest(hints: array<int>, used: array<bool>, m: int, back: bool) returns (ref: int)
    requires hints.Length == used.Length == NUM_REF_FRAMES
    ensures PickedLatest(hints[..], Open(hints[..], used[..], m, back), ref)
  {
    ref := -1;
    var latestOrderHint := 0;
    var i := 0;
    while i < NUM_REF_FRAMES
      invariant 0 <= i <= NUM_REF_FRAMES && -1 <= ref < i
      invariant ref >= 0 ==> latestOrderHint == hints[ref] && !used[ref] && (hints[ref] >= m <==> back)
      invariant forall k :: 0 <= k < i && !used[k] && (hints[k] >= m <==> back) ==>
                  ref >= 0 && (hints[k] < hints[ref] || (hints[k] == hints[ref] && k <= ref))
    {
      if !used[i] && (hints[i] >= m) == back && (ref < 0 || hints[i] >= latestOrderHint) {
        ref := i;
        latestOrderHint := hints[i];
      }
      i := i + 1;
    }
    assert ref >= 0 ==> ref in Open(hints[..], used[..], m, back);
  }

  method FindEarliest(hints: array<int>, used: array<bool>, m: int, back: bool) returns (ref: int)
    requires hints.Length == used.Length == NUM_REF_FRAMES
    ensures PickedEarliest(hints[..], Open(hints[..], used[..], m, back), ref)
  {
    ref := -1;
    var earliestOrderHint := 0;
    var i := 0;
    while i < NUM_REF_FRAMES
      invariant 0 <= i <= NUM_REF_FRAMES && -1 <= ref < i
      invariant ref >= 0 ==> earliestOrderHint == hints[ref] && !used[ref] && (hints[ref] >= m <==> back)
      invariant forall k :: 0 <= k < i && !used[k] && (hints[k] >= m <==> back) ==>
                  ref >= 0 && (hints[k] > hints[ref] || (hints[k] == hints[ref] && k >= ref))
    {
      if !used[i] && (hints[i] >= m) == back && (ref < 0 || hints[i] < earliestOrderHint) {
        ref := i;
        earliestOrderHint := hints[i];
      }
      i := i + 1;
    }
    assert ref >= 0 ==> ref in Open(hints[..], used[..], m, back);
  }

  /** Takes slot ref for a name, if there is one. */
  method TakeSlot(idx: array<int>, used: array<bool>, name: nat, ref: int)
    requires idx.Length == REFS_PER_FRAME && used.Length == NUM_REF_FRAMES && name < REFS_PER_FRAME
    requires -1 <= ref < NUM_REF_FRAMES && idx[name] == -1
    modifies idx, used
    ensures idx[..] == old(idx[..])[name := ref]
    ensures used[..] == if ref < 0 then old(used[..]) else old(used[..])[ref := true]
  {
    if ref >= 0 {
      idx[name] := ref;
      used[ref] := true;
    }
  }

  lemma OpenWithout(hints: seq<int>, used: seq<bool>, m: int, back: bool, ref: int)
    requires |hints| == |used| == NUM_REF_FRAMES && 0 <= ref < NUM_REF_FRAMES
    ensures Open(hints, used[ref := true], m, back) == Open(hints, used, m, back) - {ref}
  {
  }

  /** What taking a slot leaves open. A pick of -1 takes nothing. */
  lemma OpenAfter(hints: seq<int>, used: seq<bool>, m: int, back: bool, ref: int, after: seq<bool>)
    requires |hints| == |used| == |after| == NUM_REF_FRAMES && -1 <= ref < NUM_REF_FRAMES
    requires after == if ref < 0 then used else used[ref := true]
    ensures Open(hints, after, m, back) == Open(hints, used, m, back) - {ref}
  {
    if ref >= 0 {
      OpenWithout(hints, used, m, back, ref);
    }
  }

  /** Slots of the other kind are not affected. */
  lemma OpenOther(hints: seq<int>, used: seq<bool>, m: int, back: bool, ref: int, after: seq<bool>)
    requires |hints| == |used| == |after| == NUM_REF_FRAMES && -1 <= ref < NUM_REF_FRAMES
    requires after == if ref < 0 then used else used[ref := true]
    requires ref >= 0 ==> (hints[ref] >= m <==> back)
    ensures Open(hints, after, m, !back) == Open(hints, used, m, !back)
  {
  }

  method TakeBackward(hints: array<int>, idx: array<int>, used: array<bool>, m: int, name: nat, latest: bool)
    requires hints.Length == used.Length == NUM_REF_FRAMES && idx.Length == REFS_PER_FRAME && name < REFS_PER_FRAME
    requires idx[name] == -1 && hints != idx
    modifies idx, used
    ensures -1 <= idx[name] < NUM_REF_FRAMES && idx[..] == old(idx[..])[name := idx[name]]
    ensures var open := old(Open(hints[..], used[..], m, true));
            && (if latest then PickedLatest(hints[..], open, idx[name]) else PickedEarliest(hints[..], open, idx[name]))
            && Open(hints[..], used[..], m, true) == open - {idx[name]}
    ensures Open(hints[..], used[..], m, false) == old(Open(hints[..], used[..], m, false))
    ensures hints[..] == old(hints[..])
  {
    var ref;
    if latest {
      ref := FindLatest(hints, used, m, true);
    } else {
      ref := FindEarliest(hints, used, m, true);
    }
    ghost var before := used[..];
    TakeSlot(idx, used, name, ref);
    OpenAfter(hints[..], before, m, true, ref, used[..]);
    OpenOther(hints[..], before, m, true, ref, used[..]);
  }

  /** The backward half: ALTREF, then BWDREF, then ALTREF2. */
  method ChooseBackward(hints: array<int>, idx: array<int>, used: array<bool>, m: int, ghost last: nat,
                        ghost golden: nat)
    requires hints.Length == used.Length == NUM_REF_FRAMES && idx.Length == REFS_PER_FRAME && hints != idx
    requires last < NUM_REF_FRAMES && golden < NUM_REF_FRAMES
    requires idx[..] == Signals(last, golden) && used[..] == Signalled(last, golden)
    modifies idx, used
    ensures hints[..] == old(hints[..])
    ensures BackwardStage(hints[..], m, last, golden, idx[..])
    ensures forall n :: 0 <= n < REFS_PER_FRAME ==> -1 <= idx[n] < NUM_REF_FRAMES
    ensures Open(hints[..], used[..], m, false) == Open(hints[..], Signalled(last, golden), m, false)
  {
    hide Open, Signalled, IsLatest, IsEarliest;
    TakeBackward(hints, idx, used, m, ALTREF, true);
    TakeBackward(hints, idx, used, m, BWDREF, false);
    TakeBackward(hints, idx, used, m, ALTREF2, false);
  }

  /** One name of the fill order. */
  method TakeForward(hints: array<int>, idx: array<int>, used: array<bool>, m: int, name: nat)
    requires hints.Length == used.Length == NUM_REF_FRAMES && idx.Length == REFS_PER_FRAME && name < REFS_PER_FRAME
    requires -1 <= idx[name] && hints != idx
    modifies idx, used
    ensures hints[..] == old(hints[..])
    ensures -1 <= idx[name] && (old(idx[name]) < 0 ==> idx[name] < NUM_REF_FRAMES)
    ensures idx[..] == old(idx[..])[name := idx[name]]
    ensures var open := old(Open(hints[..], used[..], m, false));
            if old(idx[name]) < 0 then
              PickedLatest(hints[..], open, idx[name]) && Open(hints[..], used[..], m, false) == open - {idx[name]}
            else
              idx[name] == old(idx[name]) && Open(hints[..], used[..], m, false) == open
  {
    if idx[name] < 0 {
      var ref := FindLatest(hints, used, m, false);
      ghost var before := used[..];
      TakeSlot(idx, used, name, ref);
      OpenAfter(hints[..], before, m, false, ref, used[..]);
    }
  }

  lemma OpenForwardAgrees(hints: seq<int>, m: int, last: nat, golden: nat, mid: seq<int>, a: seq<int>, b: seq<int>,
                          k: nat)
    requires |hints| == NUM_REF_FRAMES && |mid| == |a| == |b| == REFS_PER_FRAME && k <= 5
    requires forall j :: 0 <= j < k ==> a[FillName(j)] == b[FillName(j)]
    ensures OpenForward(hints, m, last, golden, mid, a, k) == OpenForward(hints, m, last, golden, mid, b, k)
  {
    if k > 0 {
      OpenForwardAgrees(hints, m, last, golden, mid, a, b, k - 1);
    }
  }

  /** Changing the k-th name leaves the earlier picks as they were. */
  lemma EarlierPicks(hints: seq<int>, m: int, last: nat, golden: nat, mid: seq<int>, a: seq<int>, b: seq<int>, k: nat)
    requires |hints| == NUM_REF_FRAMES && |mid| == |a| == |b| == REFS_PER_FRAME && k < 5
    requires forall j :: 0 <= j < k ==> a[FillName(j)] == b[FillName(j)]
    requires forall j :: 0 <= j < k ==> ForwardPick(hints, m, last, golden, mid, a, j)
    ensures forall j :: 0 <= j < k ==> ForwardPick(hints, m, last, golden, mid, b, j)
  {
    hide PickedLatest;
    forall j | 0 <= j < k
      ensures ForwardPick(hints, m, last, golden, mid, b, j)
    {
      assert ForwardPick(hints, m, last, golden, mid, a, j) && a[FillName(j)] == b[FillName(j)];
      OpenForwardAgrees(hints, m, last, golden, mid, a, b, j);
    }
  }

  /** The state of the forward loop after k names of the fill order. */
  ghost predicate ForwardProgress(hints: seq<int>, m: int, last: nat, golden: nat, mid: seq<int>, idx: seq<int>,
                                  used: seq<bool>, k: nat)
    requires |hints| == |used| == NUM_REF_FRAMES && |mid| == |idx| == REFS_PER_FRAME && k <= 5
  {
    && idx[LAST] == mid[LAST] && idx[GOLDEN] == mid[GOLDEN]
    && (forall j :: 0 <= j < k ==> ForwardPick(hints, m, last, golden, mid, idx, j))
    && (forall j :: k <= j < 5 ==> idx[FillName(j)] == mid[FillName(j)])
    && Open(hints, used, m, false) == OpenForward(hints, m, last, golden, mid, idx, k)
  }

  lemma ForwardAdvances(hints: seq<int>, m: int, last: nat, golden: nat, mid: seq<int>, idx: seq<int>, used: seq<bool>,
                        k: nat,
                        r: int, used': seq<bool>)
    requires |hints| == |used| == |used'| == NUM_REF_FRAMES && |mid| == |idx| == REFS_PER_FRAME && k < 5
    requires ForwardProgress(hints, m, last, golden, mid, idx, used, k)
    requires var open := Open(hints, used, m, false);
             if idx[FillName(k)] < 0 then PickedLatest(hints, open, r) && Open(hints, used', m, false) == open - {r}
             else r == idx[FillName(k)] && Open(hints, used', m, false) == open
    ensures ForwardProgress(hints, m, last, golden, mid, idx[FillName(k) := r], used', k + 1)
  {
    hide Open, PickedLatest;
    var after := idx[FillName(k) := r];
    EarlierPicks(hints, m, last, golden, mid, idx, after, k);
    OpenForwardAgrees(hints, m, last, golden, mid, idx, after, k);
  }

  method ChooseForward(hints: array<int>, idx: array<int>, used: array<bool>, m: int, ghost last: nat,
                       ghost golden: nat)
    requires hints.Length == used.Length == NUM_REF_FRAMES && idx.Length == REFS_PER_FRAME && hints != idx
    requires forall n :: 0 <= n < REFS_PER_FRAME ==> -1 <= idx[n] < NUM_REF_FRAMES
    requires Open(hints[..], used[..], m, false) == Open(hints[..], Signalled(last, golden), m, false)
    modifies idx, used
    ensures hints[..] == old(hints[..])
    ensures forall n :: 0 <= n < REFS_PER_FRAME ==> -1 <= idx[n] < NUM_REF_FRAMES
    ensures ForwardStage(hints[..], m, last, golden, old(idx[..]), idx[..])
  {
    hide Open, PickedLatest;
    ghost var mid := idx[..];
    var k := 0;
    while k < 5
      invariant 0 <= k <= 5 && hints[..] == old(hints[..])
      invariant forall n :: 0 <= n < REFS_PER_FRAME ==> -1 <= idx[n] < NUM_REF_FRAMES
      invariant ForwardProgress(hints[..], m, last, golden, mid, idx[..], used[..], k)
    {
      ghost var idx0, used0 := idx[..], used[..];
      TakeForward(hints, idx, used, m, FillName(k));
      ForwardAdvances(hints[..], m, last, golden, mid, idx0, used0, k, idx[FillName(k)], used[..]);
      k := k + 1;
    }
  }

  /** Slots left without a reference get the earliest slot. */
  method FillRest(hints: array<int>, idx: array<int>)
    requires hints.Length == NUM_REF_FRAMES && idx.Length == REFS_PER_FRAME && hints != idx
    requires forall n :: 0 <= n < REFS_PER_FRAME ==> -1 <= idx[n] < NUM_REF_FRAMES
    modifies idx
    ensures FinalFill(hints[..], old(idx[..]), idx[..])
  {
    var ref := -1;
    var earliestOrderHint := 0;
    var i := 0;
    while i < NUM_REF_FRAMES
      invariant 0 <= i <= NUM_REF_FRAMES && -1 <= ref < i && (i > 0 ==> ref >= 0)
      invariant ref >= 0 ==> earliestOrderHint == hints[ref]
      invariant forall k :: 0 <= k < i ==> hints[k] > hints[ref] || (hints[k] == hints[ref] && k >= ref)
    {
      if ref < 0 || hints[i] < earliestOrderHint {
        ref := i;
        earliestOrderHint := hints[i];
      }
      i := i + 1;
    }
    ghost var before := idx[..];
    i := 0;
    while i < REFS_PER_FRAME
      invariant 0 <= i <= REFS_PER_FRAME && hints[..] == old(hints[..])
      invariant forall n :: 0 <= n < REFS_PER_FRAME ==>
                  idx[n] == if n < i && before[n] < 0 then ref else before[n]
    {
      if idx[i] < 0 {
        idx[i] := ref;
      }
      i := i + 1;
    }
    assert IsEarliest(hints[..], Slots(), ref);
  }

  /** The hints seen from the current frame, with half a cycle added: at least m means not before it. */
  function ShiftedHints(coding: HintCoding, refHints: seq<uint8>, orderHint: uint8): (s: seq<int>)
    ensures |s| == |refHints|
  {
    seq(|refHints|, i requires 0 <= i < |refHints| => coding.Half() + RelativeDist(coding, refHints[i], orderHint))
  }

  /** idx are the references of section 7.8 for these hints: some choices of slots lead to them. */
  ghost predicate Derived(hints: seq<int>, m: int, last: nat, golden: nat, idx: seq<int>)
    requires |hints| == NUM_REF_FRAMES
  {
    exists mid, before :: Section78(hints, m, last, golden, mid, before, idx)
  }

  /** setFrameRefs. refHints are the order hints of the eight slots. */
  method SetFrameRefs(coding: HintCoding, refHints: seq<uint8>, orderHint: uint8, last: nat, golden: nat)
    returns (refFrameIdx: seq<int>)
    requires |refHints| == NUM_REF_FRAMES && last < NUM_REF_FRAMES && golden < NUM_REF_FRAMES
    ensures Derived(ShiftedHints(coding, refHints, orderHint), coding.Half(), last, golden, refFrameIdx)
    ensures |refFrameIdx| == REFS_PER_FRAME && refFrameIdx[LAST] == last && refFrameIdx[GOLDEN] == golden
    ensures forall n :: 0 <= n < REFS_PER_FRAME ==> 0 <= refFrameIdx[n] < NUM_REF_FRAMES
  {
    hide BackwardStage, ForwardStage, FinalFill;
    var m := coding.Half();
    var idx := new int[REFS_PER_FRAME](_ => -1);
    idx[LAST] := last;
    idx[GOLDEN] := golden;
    var used := new bool[NUM_REF_FRAMES](_ => false);
    used[last] := true;
    used[golden] := true;
    var shifted := new int[NUM_REF_FRAMES](_ => 0);
    var i := 0;
    while i < NUM_REF_FRAMES
      invariant 0 <= i <= NUM_REF_FRAMES
      invariant idx[..] == Signals(last, golden) && used[..] == Signalled(last, golden)
      invariant forall k :: 0 <= k < i ==> shifted[k] == ShiftedHints(coding, refHints, orderHint)[k]
    {
      shifted[i] := m + RelativeDist(coding, refHints[i], orderHint);
      i := i + 1;
    }
    assert shifted[..] == ShiftedHints(coding, refHints, orderHint);
    ChooseBackward(shifted, idx, used, m, last, golden);
    ghost var mid := idx[..];
    ChooseForward(shifted, idx, used, m, last, golden);
    ghost var before := idx[..];
    FillRest(shifted, idx);
    refFrameIdx := idx[..];
    ReferencesInRange(ShiftedHints(coding, refHints, orderHint), m, last, golden, mid, before, refFrameIdx);
  }

  // ----- What section 7.8 promises

  lemma {:induction false} OpenShrinks(hints: seq<int>, m: int, last: nat, golden: nat, mid: seq<int>,
                                       before: seq<int>, j: nat, k: nat)
    requires |hints| == NUM_REF_FRAMES && |mid| == |before| == REFS_PER_FRAME && j <= k <= 5
    ensures OpenForward(hints, m, last, golden, mid, before, k) <= OpenForward(hints, m, last, golden, mid, before, j)
    ensures j < k && mid[FillName(j)] < 0 ==>
              before[FillName(j)] !in OpenForward(hints, m, last, golden, mid, before, k)
    decreases k - j
  {
    hide Open;
    if j + 1 < k {
      OpenShrinks(hints, m, last, golden, mid, before, j, k - 1);
    }
  }

  /** Forward picks take different slots, in non-increasing order of their hints, and stop only when none is open. */
  lemma ForwardPicksDescend(hints: seq<int>, m: int, last: nat, golden: nat, mid: seq<int>, before: seq<int>, j: nat,
                            k: nat)
    requires |hints| == NUM_REF_FRAMES && |mid| == REFS_PER_FRAME && ForwardStage(hints, m, last, golden, mid, before)
    requires j < k < 5 && mid[FillName(j)] < 0 && mid[FillName(k)] < 0 && before[FillName(k)] >= 0
    ensures before[FillName(j)] in OpenForward(hints, m, last, golden, mid, before, j)
    ensures before[FillName(k)] in OpenForward(hints, m, last, golden, mid, before, k)
    ensures before[FillName(j)] != before[FillName(k)]
    ensures hints[before[FillName(j)]] >= hints[before[FillName(k)]]
  {
    hide OpenForward;
    assert ForwardPick(hints, m, last, golden, mid, before, j) && ForwardPick(hints, m, last, golden, mid, before, k);
    OpenShrinks(hints, m, last, golden, mid, before, j, k);
  }

  /** Where a name stands in the fill order. */
  ghost function FillIndex(name: nat): (k: nat)
    requires name < REFS_PER_FRAME && name != LAST && name != GOLDEN
    ensures k < 5 && FillName(k) == name
  {
    if name <= LAST3 then name - 1 else name - 2
  }

  /** The slot a name holds before the final fill: backward if the backward stage chose it, else forward. */
  lemma HeldSlot(hints: seq<int>, m: int, last: nat, golden: nat, mid: seq<int>, before: seq<int>, name: nat)
    requires |hints| == NUM_REF_FRAMES
    requires BackwardStage(hints, m, last, golden, mid) && ForwardStage(hints, m, last, golden, mid, before)
    requires name < REFS_PER_FRAME && name != LAST && name != GOLDEN && before[name] >= 0
    ensures before[name] < NUM_REF_FRAMES && before[name] != last && before[name] != golden
    ensures hints[before[name]] >= m <==> mid[name] >= 0
    ensures mid[name] >= 0 ==> before[name] == mid[name] && name >= BWDREF
  {
    var k := FillIndex(name);
    assert ForwardPick(hints, m, last, golden, mid, before, k);
  }

  lemma BackwardDistinct(hints: seq<int>, m: int, last: nat, golden: nat, mid: seq<int>)
    requires |hints| == NUM_REF_FRAMES && BackwardStage(hints, m, last, golden, mid)
    ensures forall a, b :: BWDREF <= a < b <= ALTREF && mid[a] >= 0 && mid[b] >= 0 ==> mid[a] != mid[b]
  {
  }

  /** No slot is chosen twice before the final fill, except that LAST and GOLDEN may be signalled alike. */
  lemma ChosenOnce(hints: seq<int>, m: int, last: nat, golden: nat, mid: seq<int>, before: seq<int>, idx: seq<int>,
                   a: nat, b: nat)
    requires |hints| == NUM_REF_FRAMES && Section78(hints, m, last, golden, mid, before, idx)
    requires a < b < REFS_PER_FRAME && before[a] == before[b] && before[a] >= 0
    ensures a == LAST && b == GOLDEN
  {
    hide OpenForward, Open, PickedLatest, PickedEarliest, FinalFill;
    if a != LAST && a != GOLDEN {
      HeldSlot(hints, m, last, golden, mid, before, a);
    }
    if b != GOLDEN {
      HeldSlot(hints, m, last, golden, mid, before, b);
    }
    if a != LAST && a != GOLDEN && b != GOLDEN {
      DifferentSlots(hints, m, last, golden, mid, before, a, b);
    }
  }

  lemma DifferentSlots(hints: seq<int>, m: int, last: nat, golden: nat, mid: seq<int>, before: seq<int>, a: nat, b: nat)
    requires |hints| == NUM_REF_FRAMES
    requires BackwardStage(hints, m, last, golden, mid) && ForwardStage(hints, m, last, golden, mid, before)
    requires a < b < REFS_PER_FRAME && a != LAST && a != GOLDEN && b != GOLDEN && before[a] >= 0 && before[b] >= 0
    ensures before[a] != before[b]
  {
    hide OpenForward, Open, PickedLatest, PickedEarliest;
    HeldSlot(hints, m, last, golden, mid, before, a);
    HeldSlot(hints, m, last, golden, mid, before, b);
    BackwardDistinct(hints, m, last, golden, mid);
    if mid[a] < 0 && mid[b] < 0 {
      ForwardPicksDescend(hints, m, last, golden, mid, before, FillIndex(a), FillIndex(b));
    }
  }

  /** Names are left for the final fill only when every forward slot is already taken. */
  lemma FillOnlyWhenExhausted(hints: seq<int>, m: int, last: nat, golden: nat, mid: seq<int>, before: seq<int>,
                              idx: seq<int>, name: nat)
    requires |hints| == NUM_REF_FRAMES && Section78(hints, m, last, golden, mid, before, idx)
    requires name < REFS_PER_FRAME && before[name] < 0
    ensures OpenForward(hints, m, last, golden, mid, before, 5) == {}
  {
    hide OpenForward, Open, PickedEarliest, FinalFill;
    var k := FillIndex(name);
    assert ForwardPick(hints, m, last, golden, mid, before, k);
    OpenShrinks(hints, m, last, golden, mid, before, k, 5);
  }

  /** A forward slot is taken or still open. */
  lemma {:induction false} TakenOrOpen(hints: seq<int>, m: int, last: nat, golden: nat, mid: seq<int>,
                                       before: seq<int>, k: nat, i: nat)
    requires |hints| == NUM_REF_FRAMES && |mid| == |before| == REFS_PER_FRAME && k <= 5
    requires i < NUM_REF_FRAMES && hints[i] < m && i != last && i != golden
    ensures i in OpenForward(hints, m, last, golden, mid, before, k) || i in before
    decreases k
  {
    if k > 0 {
      TakenOrOpen(hints, m, last, golden, mid, before, k - 1, i);
    }
  }

  /** The result: seven slots in 0..7, LAST and GOLDEN as signalled, and all forward slots used before any is reused. */
  lemma ReferencesInRange(hints: seq<int>, m: int, last: nat, golden: nat, mid: seq<int>, before: seq<int>,
                          idx: seq<int>)
    requires |hints| == NUM_REF_FRAMES && Section78(hints, m, last, golden, mid, before, idx)
    ensures |idx| == REFS_PER_FRAME && idx[LAST] == last && idx[GOLDEN] == golden
    ensures forall n :: 0 <= n < REFS_PER_FRAME ==> 0 <= idx[n] < NUM_REF_FRAMES
    ensures forall n, i :: 0 <= n < REFS_PER_FRAME && before[n] < 0 && 0 <= i < NUM_REF_FRAMES && hints[i] < m ==>
              i in before
  {
    hide OpenForward, Open, PickedEarliest, PickedLatest;
    forall n | 0 <= n < REFS_PER_FRAME
      ensures before[n] < NUM_REF_FRAMES
    {
      if n != LAST && n != GOLDEN && before[n] >= 0 {
        HeldSlot(hints, m, last, golden, mid, before, n);
      }
    }
    forall n, i | 0 <= n < REFS_PER_FRAME && before[n] < 0 && 0 <= i < NUM_REF_FRAMES && hints[i] < m
      ensures i in before
    {
      FillOnlyWhenExhausted(hints, m, last, golden, mid, before, idx, n);
      if i != last && i != golden {
        TakenOrOpen(hints, m, last, golden, mid, before, 5, i);
      } else {
        assert before[LAST] == last && before[GOLDEN] == golden;
      }
    }
  }

  // ----- The relation leaves no choice

  lemma PicksUnique(hints: seq<int>, s: set<int>, a: int, b: int)
    requires |hints| == NUM_REF_FRAMES && forall i :: i in s ==> 0 <= i < NUM_REF_FRAMES
    ensures PickedLatest(hints, s, a) && PickedLatest(hints, s, b) ==> a == b
    ensures PickedEarliest(hints, s, a) && PickedEarliest(hints, s, b) ==> a == b
  {
  }

  lemma BackwardUnique(hints: seq<int>, m: int, last: nat, golden: nat, a: seq<int>, b: seq<int>)
    requires |hints| == NUM_REF_FRAMES
    requires BackwardStage(hints, m, last, golden, a) && BackwardStage(hints, m, last, golden, b)
    ensures a == b
  {
    hide PickedLatest, PickedEarliest;
    var back := Open(hints, Signalled(last, golden), m, true);
    PicksUnique(hints, back, a[ALTREF], b[ALTREF]);
    PicksUnique(hints, back - {a[ALTREF]}, a[BWDREF], b[BWDREF]);
    PicksUnique(hints, back - {a[ALTREF]} - {a[BWDREF]}, a[ALTREF2], b[ALTREF2]);
  }

  lemma {:induction false} ForwardUnique(hints: seq<int>, m: int, last: nat, golden: nat, mid: seq<int>, a: seq<int>,
                                         b: seq<int>, k: nat)
    requires |hints| == NUM_REF_FRAMES && |mid| == REFS_PER_FRAME && k <= 5
    requires ForwardStage(hints, m, last, golden, mid, a) && ForwardStage(hints, m, last, golden, mid, b)
    ensures forall j :: 0 <= j < k ==> a[FillName(j)] == b[FillName(j)]
    decreases k
  {
    hide PickedLatest, OpenForward;
    if k > 0 {
      ForwardUnique(hints, m, last, golden, mid, a, b, k - 1);
      assert ForwardPick(hints, m, last, golden, mid, a, k - 1) && ForwardPick(hints, m, last, golden, mid, b, k - 1);
      OpenForwardAgrees(hints, m, last, golden, mid, a, b, k - 1);
      PicksUnique(hints, OpenForward(hints, m, last, golden, mid, a, k - 1), a[FillName(k - 1)], b[FillName(k - 1)]);
    }
  }

  lemma FillUnique(hints: seq<int>, before: seq<int>, a: seq<int>, b: seq<int>)
    requires |hints| == NUM_REF_FRAMES && |before| == REFS_PER_FRAME
    requires FinalFill(hints, before, a) && FinalFill(hints, before, b)
    ensures a == b
  {
    hide Slots, IsEarliest;
    forall d, e | IsEarliest(hints, Slots(), d) && IsEarliest(hints, Slots(), e)
      ensures d == e
    {
      EarliestUnique(hints, d, e);
    }
  }

  lemma EarliestUnique(hints: seq<int>, d: int, e: int)
    requires |hints| == NUM_REF_FRAMES && IsEarliest(hints, Slots(), d) && IsEarliest(hints, Slots(), e)
    ensures d == e
  {
    hide Slots;
  }

  /** Section 7.8 determines the references: whatever meets it is what setFrameRefs computes. */
  lemma Section78Unique(hints: seq<int>, m: int, last: nat, golden: nat, mid: seq<int>, before: seq<int>, idx: seq<int>,
                        mid': seq<int>, before': seq<int>, idx': seq<int>)
    requires |hints| == NUM_REF_FRAMES
    requires Section78(hints, m, last, golden, mid, before, idx)
    requires Section78(hints, m, last, golden, mid', before', idx')
    ensures mid == mid' && before == before' && idx == idx'
  {
    hide PickedLatest, PickedEarliest, Open, FinalFill, ForwardPick;
    BackwardUnique(hints, m, last, golden, mid, mid');
    ForwardUnique(hints, m, last, golden, mid, before, before', 5);
    forall n | 0 <= n < REFS_PER_FRAME && n != LAST && n != GOLDEN
      ensures before[n] == before'[n]
    {
      assert FillName(FillIndex(n)) == n;
    }
    assert before == before';
    FillUnique(hints, before, idx, idx');
  }

  // ----- Name by name

  /** The slots that are not signalled and lie before the frame, or (back) do not. */
  ghost function Rest(hints: seq<int>, m: int, last: nat, golden: nat, back: bool): (s: set<int>)
    requires |hints| == 8
    ensures forall i :: i in s ==> 0 <= i < 8
  {
    set i: int | 0 <= i < 8 && i != last && i != golden && (back <==> hints[i] >= m)
  }

  /** r is the slot of s with the largest hint, the last of equals; or (!latest) the smallest, the first of equals. */
  ghost predicate Extreme(hints: seq<int>, s: set<int>, r: int, latest: bool)
    requires |hints| == 8 && forall i :: i in s ==> 0 <= i < 8
  {
    r in s &&
    forall i :: i in s ==>
      (if latest then hints[i] < hints[r] else hints[i] > hints[r])
      || (hints[i] == hints[r] && if latest then i <= r else i >= r)
  }

  lemma BackwardRoles(hints: seq<int>, m: int, last: nat, golden: nat, mid: seq<int>)
    requires |hints| == 8 && BackwardStage(hints, m, last, golden, mid)
    ensures |mid| == 7 && mid[0] == last && mid[3] == golden && mid[1] == -1 == mid[2]
    ensures var back := Rest(hints, m, last, golden, true);
            var back4, back5 := back - {mid[6]}, back - {mid[6], mid[4]};
            && (if back == {} then mid[6] == -1 else Extreme(hints, back, mid[6], true))
            && (if back4 == {} then mid[4] == -1 else Extreme(hints, back4, mid[4], false))
            && (if back5 == {} then mid[5] == -1 else Extreme(hints, back5, mid[5], false))
  {
    var back := Rest(hints, m, last, golden, true);
    assert back == Open(hints, Signalled(last, golden), m, true);
    assert back - {mid[6]} - {mid[4]} == back - {mid[6], mid[4]};
  }

  /** r is the latest of s, or -1 when there is none. */
  ghost predicate LatestOrNone(hints: seq<int>, s: set<int>, r: int)
    requires |hints| == 8 && forall i :: i in s ==> 0 <= i < 8
  {
    if s == {} then r == -1 else Extreme(hints, s, r, true)
  }

  lemma ForwardRoles(hints: seq<int>, m: int, last: nat, golden: nat, mid: seq<int>, before: seq<int>)
    requires |hints| == 8 && |mid| == 7 && ForwardStage(hints, m, last, golden, mid, before)
    requires mid[1] == -1 == mid[2]
    ensures |before| == 7 && before[0] == mid[0] && before[3] == mid[3]
    ensures var front := Rest(hints, m, last, golden, false);
            var rest := front - {before[1], before[2]};
            var rest4 := if mid[4] < 0 then rest - {before[4]} else rest;
            var rest5 := if mid[5] < 0 then rest4 - {before[5]} else rest4;
            && LatestOrNone(hints, front, before[1]) && LatestOrNone(hints, front - {before[1]}, before[2])
            && (if mid[4] < 0 then LatestOrNone(hints, rest, before[4]) else before[4] == mid[4])
            && (if mid[5] < 0 then LatestOrNone(hints, rest4, before[5]) else before[5] == mid[5])
            && (if mid[6] < 0 then LatestOrNone(hints, rest5, before[6]) else before[6] == mid[6])
  {
    hide Open, PickedLatest, LatestOrNone, Rest;
    OpenIsRest(hints, m, last, golden);
    var front := Rest(hints, m, last, golden, false);
    forall s: set<int>, r: int | forall i :: i in s ==> 0 <= i < 8
      ensures PickedLatest(hints, s, r) ==> LatestOrNone(hints, s, r)
    {
      PickedIs(hints, s, r);
    }
    assert OpenForward(hints, m, last, golden, mid, before, 1) == front - {before[1]};
    assert OpenForward(hints, m, last, golden, mid, before, 2) == front - {before[1]} - {before[2]};
    assert front - {before[1]} - {before[2]} == front - {before[1], before[2]};
    var rest := front - {before[1], before[2]};
    assert OpenForward(hints, m, last, golden, mid, before, 3) == if mid[4] < 0 then rest - {before[4]} else rest;
    var rest4 := if mid[4] < 0 then rest - {before[4]} else rest;
    assert OpenForward(hints, m, last, golden, mid, before, 4) == if mid[5] < 0 then rest4 - {before[5]} else rest4;
    assert ForwardPick(hints, m, last, golden, mid, before, 0) && ForwardPick(hints, m, last, golden, mid, before, 1);
    assert ForwardPick(hints, m, last, golden, mid, before, 2) && ForwardPick(hints, m, last, golden, mid, before, 3);
    assert ForwardPick(hints, m, last, golden, mid, before, 4);
  }

  lemma OpenIsRest(hints: seq<int>, m: int, last: nat, golden: nat)
    requires |hints| == 8
    ensures Open(hints, Signalled(last, golden), m, false) == Rest(hints, m, last, golden, false)
  {
  }

  lemma PickedIs(hints: seq<int>, s: set<int>, r: int)
    requires |hints| == 8 && forall i :: i in s ==> 0 <= i < 8
    ensures PickedLatest(hints, s, r) ==> LatestOrNone(hints, s, r)
  {
  }

  /** r is the slot of s that is named, or, when there is none, the earliest of all slots. */
  ghost predicate Takes(hints: seq<int>, s: set<int>, r: int, latest: bool)
    requires |hints| == 8 && forall i :: i in s ==> 0 <= i < 8
  {
    if s != {} then Extreme(hints, s, r, latest) else Extreme(hints, {0, 1, 2, 3, 4, 5, 6, 7}, r, false)
  }

  /**
   * Section 7.8, name by name. LAST and GOLDEN are signalled. Of the other slots, ALTREF takes the latest that is not
   * before the frame, then BWDREF and ALTREF2 the two earliest. LAST2, LAST3 and then every name of these three that
   * found none take the latest of those before the frame. Once there are none, the earliest slot of all is taken.
   */
  lemma Roles(hints: seq<int>, m: int, last: nat, golden: nat, idx: seq<int>)
    requires |hints| == 8 && Derived(hints, m, last, golden, idx)
    ensures |idx| == 7 && idx[0] == last && idx[3] == golden
    ensures var back, front := Rest(hints, m, last, golden, true), Rest(hints, m, last, golden, false);
            var back4, back5 := back - {idx[6]}, back - {idx[6], idx[4]};
            var front4 := front - {idx[1], idx[2]};
            var front5 := if back4 == {} then front4 - {idx[4]} else front4;
            var front6 := if back5 == {} then front5 - {idx[5]} else front5;
            && Takes(hints, front, idx[1], true) && Takes(hints, front - {idx[1]}, idx[2], true)
            && (if back4 != {} then Extreme(hints, back4, idx[4], false) else Takes(hints, front4, idx[4], true))
            && (if back5 != {} then Extreme(hints, back5, idx[5], false) else Takes(hints, front5, idx[5], true))
            && (if back != {} then Extreme(hints, back, idx[6], true) else Takes(hints, front6, idx[6], true))
  {
    hide Rest, BackwardStage, ForwardStage;
    var mid, before :| Section78(hints, m, last, golden, mid, before, idx);
    BackwardRoles(hints, m, last, golden, mid);
    ForwardRoles(hints, m, last, golden, mid, before);
    var e :| IsEarliest(hints, Slots(), e)
             && forall n :: 0 <= n < 7 ==> idx[n] == if before[n] < 0 then e else before[n];
    assert Slots() == {0, 1, 2, 3, 4, 5, 6, 7};
    var back, front := Rest(hints, m, last, golden, true), Rest(hints, m, last, golden, false);
    Apart(hints, m, last, golden);
    assert Extreme(hints, {0, 1, 2, 3, 4, 5, 6, 7}, e, false);
  }

  lemma Apart(hints: seq<int>, m: int, last: nat, golden: nat)
    requires |hints| == 8
    ensures Rest(hints, m, last, golden, true) !! Rest(hints, m, last, golden, false)
  {
  }

  /** A slot is not before the frame exactly when its hint lies in the half cycle from that of the frame on. */
  lemma BackwardIsHalfCycle(coding: HintCoding, refHints: seq<uint8>, orderHint: uint8, i: nat)
    requires coding.Valid() && coding.enabled && i < |refHints|
    ensures ShiftedHints(coding, refHints, orderHint)[i] >= coding.Half()
       <==> (refHints[i] - orderHint) % Pow2(coding.bitsMinus1 + 1) < Pow2(coding.bitsMinus1)
  {
    hide RelativeDist, Shl;
    var x: int, m := refHints[i] - orderHint, coding.Half();
    RelativeDistIsCentred(coding, refHints[i], orderHint);
    HalfCycle(coding.bitsMinus1);
    UpperHalf(x, m);
  }

  lemma UpperHalf(x: int, m: int)
    requires m > 0
    ensures CentredResidue(x, m) >= 0 <==> x % (m + m) < m
  {
    var r, q := x % (m + m), x / (m + m);
    assert x == (m + m) * q + r;
    if r < m {
      MultipleMod(m + m, q, r + m);
    } else {
      assert (m + m) * (q + 1) == (m + m) * q + (m + m);
      MultipleMod(m + m, q + 1, r - m);
    }
  }
}
