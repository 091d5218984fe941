/** Physical frames: the usable part of the boot memory map, one frame after the other. */
module Frames {
  import opened Collections

  const FRAME_SIZE: nat := 4096

  datatype RegionKind = Usable | Unusable

  /** A region of the memory map, by byte addresses. */
  datatype MemoryRegion = MemoryRegion(start: nat, end: nat, kind: RegionKind)

  /** The addresses start, start + 4096, ... below end. */
  function StepBy(start: nat, end: nat): seq<nat>
    decreases end - start
  {
    if start >= end then [] else [start] + StepBy(start + FRAME_SIZE, end)
  }

  function ContainingFrame(addr: nat): nat {
    addr - addr % FRAME_SIZE
  }

  function ContainingFrames(addrs: seq<nat>): (s: seq<nat>)
    ensures |s| == |addrs| && forall k :: 0 <= k < |s| ==> s[k] == ContainingFrame(addrs[k])
  {
    if addrs == [] then [] else [ContainingFrame(addrs[0])] + ContainingFrames(addrs[1..])
  }

  function FramesOf(r: MemoryRegion): seq<nat> {
    if r.kind.Usable? then ContainingFrames(StepBy(r.start, r.end)) else []
  }

  /** The frames of the usable regions, in the order of the map. */
  function UsableFrames(memoryMap: seq<MemoryRegion>): seq<nat> {
    if memoryMap == [] then [] else FramesOf(memoryMap[0]) + UsableFrames(memoryMap[1..])
  }

  function Nth(frames: seq<nat>, n: nat): Option<nat> {
    if n < |frames| then Some(frames[n]) else None
  }

  // ----- the frame that a call is due

  /** Whole frames in a usable region. */
  function FrameCount(r: MemoryRegion): nat {
    if r.kind.Usable? && r.start < r.end then (r.end - r.start) / FRAME_SIZE else 0
  }

  /** The usable frames of the regions before position i. */
  function FramesBefore(memoryMap: seq<MemoryRegion>, i: nat): nat
    requires i <= |memoryMap|
  {
    if i == 0 then 0 else FramesBefore(memoryMap, i - 1) + FrameCount(memoryMap[i - 1])
  }

  /**
   * The answer to call number n, counted from 0: region by region in the order of the map and frame by
   * frame upwards in each usable region, then None.
   */
  ghost predicate IsAnswer(memoryMap: seq<MemoryRegion>, n: nat, answer: Option<nat>) {
    && (forall i :: 0 <= i < |memoryMap|
                    && FramesBefore(memoryMap, i) <= n < FramesBefore(memoryMap, i) + FrameCount(memoryMap[i]) ==>
          answer == Some(memoryMap[i].start + FRAME_SIZE * (n - FramesBefore(memoryMap, i))))
    && (FramesBefore(memoryMap, |memoryMap|) <= n ==> answer == None)
  }

  class BootInfoFrameAllocator {
    const memoryMap: seq<MemoryRegion>
    var next: nat

    constructor (memoryMap: seq<MemoryRegion>)
      ensures this.memoryMap == memoryMap && next == 0
    {
      this.memoryMap := memoryMap;
      next := 0;
    }

    method AllocateFrame() returns (frame: Option<nat>)
      modifies `next
      ensures next == old(next) + 1 && frame == Nth(UsableFrames(memoryMap), old(next))
      ensures PageAligned(memoryMap) ==> IsAnswer(memoryMap, old(next), frame)
    {
      hide UsableFrames, IsAnswer;
      if PageAligned(memoryMap) {
        NthIsAnswer(memoryMap, next);
      }
      frame := Nth(UsableFrames(memoryMap), next);
      next := next + 1;
    }
  }

  // ----- which frames these are

  ghost predicate PageAligned(memoryMap: seq<MemoryRegion>) {
    forall r :: r in memoryMap ==> r.start % FRAME_SIZE == 0 && r.end % FRAME_SIZE == 0
  }

  ghost predicate FrameInside(f: nat, r: MemoryRegion) {
    r.kind.Usable? && f % FRAME_SIZE == 0 && r.start <= f && f + FRAME_SIZE <= r.end
  }

  lemma {:induction false} StepByMembers(start: nat, end: nat, a: nat)
    requires start % FRAME_SIZE == 0 && end % FRAME_SIZE == 0
    ensures a in StepBy(start, end) <==> a % FRAME_SIZE == 0 && start <= a && a + FRAME_SIZE <= end
    decreases end - start
  {
    if start < end {
      StepByMembers(start + FRAME_SIZE, end, a);
      var rest := StepBy(start + FRAME_SIZE, end);
      assert a in StepBy(start, end) <==> a == start || a in rest;
    }
  }

  lemma {:induction false} StepByAscends(start: nat, end: nat)
    ensures forall i, j :: 0 <= i < j < |StepBy(start, end)| ==> StepBy(start, end)[i] < StepBy(start, end)[j]
    ensures forall i :: 0 <= i < |StepBy(start, end)| ==> start <= StepBy(start, end)[i]
    decreases end - start
  {
    if start < end {
      StepByAscends(start + FRAME_SIZE, end);
    }
  }

  lemma {:induction false} StepByCloses(start: nat, end: nat, t: nat)
    requires start % FRAME_SIZE == 0 && end % FRAME_SIZE == 0
    ensures |StepBy(start, end)| == if start < end then (end - start) / FRAME_SIZE else 0
    ensures t < |StepBy(start, end)| ==> StepBy(start, end)[t] == start + FRAME_SIZE * t
    decreases end - start
  {
    if start < end {
      StepByCloses(start + FRAME_SIZE, end, if t > 0 then t - 1 else 0);
    }
  }

  lemma FramesOfCloses(r: MemoryRegion, t: nat)
    requires r.start % FRAME_SIZE == 0 && r.end % FRAME_SIZE == 0
    ensures |FramesOf(r)| == FrameCount(r)
    ensures t < FrameCount(r) ==> FramesOf(r)[t] == r.start + FRAME_SIZE * t
  {
    if r.kind.Usable? {
      FramesOfAligned(r);
      StepByCloses(r.start, r.end, t);
    }
  }

  /** Counting from the second region on. */
  lemma {:induction false} BeforeInRest(memoryMap: seq<MemoryRegion>, i: nat)
    requires 1 <= i <= |memoryMap|
    ensures FramesBefore(memoryMap, i) == FrameCount(memoryMap[0]) + FramesBefore(memoryMap[1..], i - 1)
  {
    if i > 1 {
      BeforeInRest(memoryMap, i - 1);
    }
  }

  /** The flattened list has these frames at these places. */
  lemma {:induction false} UsableFramesAt(memoryMap: seq<MemoryRegion>, i: nat, t: nat)
    requires PageAligned(memoryMap) && i < |memoryMap| && t < FrameCount(memoryMap[i])
    ensures var n := FramesBefore(memoryMap, i) + t;
            n < |UsableFrames(memoryMap)| && UsableFrames(memoryMap)[n] == memoryMap[i].start + FRAME_SIZE * t
  {
    hide FramesOf, FrameCount;
    var r, rest := memoryMap[0], memoryMap[1..];
    assert r in memoryMap;
    if i == 0 {
      FramesOfCloses(r, t);
    } else {
      FramesOfCloses(r, 0);
      UsableFramesAt(rest, i - 1, t);
      BeforeInRest(memoryMap, i);
    }
  }

  lemma {:induction false} UsableFramesCount(memoryMap: seq<MemoryRegion>)
    requires PageAligned(memoryMap)
    ensures |UsableFrames(memoryMap)| == FramesBefore(memoryMap, |memoryMap|)
  {
    hide FramesOf, FrameCount;
    if memoryMap != [] {
      assert memoryMap[0] in memoryMap;
      FramesOfCloses(memoryMap[0], 0);
      UsableFramesCount(memoryMap[1..]);
      BeforeInRest(memoryMap, |memoryMap|);
    }
  }

  lemma NthIsAnswer(memoryMap: seq<MemoryRegion>, n: nat)
    requires PageAligned(memoryMap)
    ensures IsAnswer(memoryMap, n, Nth(UsableFrames(memoryMap), n))
  {
    hide UsableFrames, FramesBefore, FrameCount;
    UsableFramesCount(memoryMap);
    forall i | 0 <= i < |memoryMap|
               && FramesBefore(memoryMap, i) <= n < FramesBefore(memoryMap, i) + FrameCount(memoryMap[i])
      ensures Nth(UsableFrames(memoryMap), n) == Some(memoryMap[i].start + FRAME_SIZE * (n - FramesBefore(memoryMap, i)))
    {
      UsableFramesAt(memoryMap, i, n - FramesBefore(memoryMap, i));
    }
  }

  lemma FramesOfAligned(r: MemoryRegion)
    requires r.start % FRAME_SIZE == 0 && r.end % FRAME_SIZE == 0 && r.kind.Usable?
    ensures FramesOf(r) == StepBy(r.start, r.end)
  {
    hide StepBy;
    var addrs := StepBy(r.start, r.end);
    forall k | 0 <= k < |addrs|
      ensures ContainingFrame(addrs[k]) == addrs[k]
    {
      StepByMembers(r.start, r.end, addrs[k]);
      assert addrs[k] in addrs;
    }
  }

  lemma FramesOfMembers(r: MemoryRegion, f: nat)
    requires r.start % FRAME_SIZE == 0 && r.end % FRAME_SIZE == 0
    ensures f in FramesOf(r) <==> FrameInside(f, r)
  {
    if r.kind.Usable? {
      FramesOfAligned(r);
      StepByMembers(r.start, r.end, f);
    }
  }

  /** The list holds exactly the frames that lie wholly in a usable region. */
  lemma {:induction false} UsableFramesMembers(memoryMap: seq<MemoryRegion>, f: nat)
    requires PageAligned(memoryMap)
    ensures f in UsableFrames(memoryMap) <==> exists i :: 0 <= i < |memoryMap| && FrameInside(f, memoryMap[i])
  {
    if memoryMap != [] {
      var r, rest := memoryMap[0], memoryMap[1..];
      hide FramesOf, FrameInside;
      assert r in memoryMap;
      FramesOfMembers(r, f);
      UsableFramesMembers(rest, f);
      if f in UsableFrames(rest) {
        var i :| 0 <= i < |rest| && FrameInside(f, rest[i]);
        assert FrameInside(f, memoryMap[i + 1]);
      }
      forall i | 0 <= i < |memoryMap| && FrameInside(f, memoryMap[i])
        ensures f in UsableFrames(memoryMap)
      {
        if i > 0 {
          assert FrameInside(f, rest[i - 1]);
        }
      }
    }
  }

  /** Two usable regions that are not empty share no address. */
  ghost predicate Apart(a: MemoryRegion, b: MemoryRegion) {
    a.kind.Usable? && b.kind.Usable? && a.start < a.end && b.start < b.end ==> a.end <= b.start || b.end <= a.start
  }

  ghost predicate UsableApart(memoryMap: seq<MemoryRegion>) {
    forall i, j :: 0 <= i < j < |memoryMap| ==> Apart(memoryMap[i], memoryMap[j])
  }

  lemma NoDuplicatesAppend(a: seq<nat>, b: seq<nat>)
    ensures NoDuplicates(a + b) <==> NoDuplicates(a) && NoDuplicates(b) && forall x :: x in a ==> x !in b
  {
    var s := a + b;
    if NoDuplicates(a) && NoDuplicates(b) && forall x :: x in a ==> x !in b {
      forall i, j | 0 <= i < j < |s|
        ensures s[i] != s[j]
      {
        if i < |a| <= j {
          assert a[i] in a && b[j - |a|] in b;
        }
      }
    }
    if NoDuplicates(s) {
      forall i, j | 0 <= i < j < |a|
        ensures a[i] != a[j]
      {
        assert s[i] != s[j];
      }
      forall i, j | 0 <= i < j < |b|
        ensures b[i] != b[j]
      {
        assert s[|a| + i] != s[|a| + j];
      }
      forall x | x in a
        ensures x !in b
      {
        var i :| 0 <= i < |a| && a[i] == x;
        forall j | 0 <= j < |b|
          ensures b[j] != x
        {
          assert s[i] != s[|a| + j];
        }
      }
    }
  }

  /** Aligned regions are apart exactly when no frame lies in both. */
  lemma ApartMeansNoCommonFrame(a: MemoryRegion, b: MemoryRegion)
    requires a.start % FRAME_SIZE == 0 && a.end % FRAME_SIZE == 0 && b.start % FRAME_SIZE == 0 && b.end % FRAME_SIZE == 0
    ensures Apart(a, b) <==> forall f :: FrameInside(f, a) ==> !FrameInside(f, b)
  {
    if !Apart(a, b) {
      var f := Max(a.start, b.start);
      assert FrameInside(f, a) && FrameInside(f, b);
    }
  }

  /** The list has no frame twice exactly when the usable regions are apart. */
  lemma {:induction false} FramesDistinct(memoryMap: seq<MemoryRegion>)
    requires PageAligned(memoryMap)
    ensures NoDuplicates(UsableFrames(memoryMap)) <==> UsableApart(memoryMap)
  {
    if memoryMap != [] {
      var r, rest := memoryMap[0], memoryMap[1..];
      assert r in memoryMap;
      hide FrameInside, FramesOf, NoDuplicates, Apart;
      FramesDistinct(rest);
      OneRegionDistinct(r);
      NoDuplicatesAppend(FramesOf(r), UsableFrames(rest));
      RegionFromRest(r, rest);
      SplitApart(memoryMap);
    }
  }

  lemma SplitApart(memoryMap: seq<MemoryRegion>)
    requires memoryMap != []
    ensures UsableApart(memoryMap)
            <==> UsableApart(memoryMap[1..])
                 && forall j :: 0 <= j < |memoryMap| - 1 ==> Apart(memoryMap[0], memoryMap[1..][j])
  {
    var rest := memoryMap[1..];
    if UsableApart(rest) && forall j :: 0 <= j < |rest| ==> Apart(memoryMap[0], rest[j]) {
      forall i, j | 0 <= i < j < |memoryMap|
        ensures Apart(memoryMap[i], memoryMap[j])
      {
        assert Apart(if i == 0 then memoryMap[0] else rest[i - 1], rest[j - 1]);
      }
    }
    if UsableApart(memoryMap) {
      forall i, j | 0 <= i < j < |rest|
        ensures Apart(rest[i], rest[j])
      {
        assert Apart(memoryMap[i + 1], memoryMap[j + 1]);
      }
      forall j | 0 <= j < |rest|
        ensures Apart(memoryMap[0], rest[j])
      {
        assert Apart(memoryMap[0], memoryMap[j + 1]);
      }
    }
  }

  lemma OneRegionDistinct(r: MemoryRegion)
    requires r.start % FRAME_SIZE == 0 && r.end % FRAME_SIZE == 0
    ensures NoDuplicates(FramesOf(r))
  {
    if r.kind.Usable? {
      FramesOfAligned(r);
      StepByAscends(r.start, r.end);
    }
  }

  lemma RegionFromRest(r: MemoryRegion, rest: seq<MemoryRegion>)
    requires PageAligned([r] + rest) && PageAligned(rest)
    ensures (forall f :: f in FramesOf(r) ==> f !in UsableFrames(rest))
            <==> forall j :: 0 <= j < |rest| ==> Apart(r, rest[j])
  {
    hide FrameInside, FramesOf, UsableFrames, Apart;
    assert ([r] + rest)[0] == r;
    forall f
      ensures f in FramesOf(r) <==> FrameInside(f, r)
      ensures f in UsableFrames(rest) <==> exists i :: 0 <= i < |rest| && FrameInside(f, rest[i])
    {
      FramesOfMembers(r, f);
      UsableFramesMembers(rest, f);
    }
    forall j | 0 <= j < |rest|
      ensures Apart(r, rest[j]) <==> forall f :: FrameInside(f, r) ==> !FrameInside(f, rest[j])
    {
      ApartMeansNoCommonFrame(r, rest[j]);
    }
  }

  // ----- runs of allocations

  /** n calls in a row on a new allocator: the usable frames in order, then None. */
  method AllocateFrames(memoryMap: seq<MemoryRegion>, n: nat) returns (answers: seq<Option<nat>>)
    ensures |answers| == n
    ensures var frames := UsableFrames(memoryMap);
            forall k :: 0 <= k < n ==> answers[k] == if k < |frames| then Some(frames[k]) else None
    ensures PageAligned(memoryMap) ==> forall k :: 0 <= k < n ==> IsAnswer(memoryMap, k, answers[k])
  {
    hide UsableFrames, IsAnswer;
    var allocator := new BootInfoFrameAllocator(memoryMap);
    answers := [];
    while |answers| < n
      invariant |answers| <= n && allocator.next == |answers| && fresh(allocator)
      invariant allocator.memoryMap == memoryMap
      invariant forall k :: 0 <= k < |answers| ==> answers[k] == Nth(UsableFrames(memoryMap), k)
      invariant PageAligned(memoryMap) ==> forall k :: 0 <= k < |answers| ==> IsAnswer(memoryMap, k, answers[k])
    {
      var frame := allocator.AllocateFrame();
      answers := answers + [frame];
    }
  }

  /** What the calls of a new allocator answer, as `AllocateFrames` gives it. */
  ghost predicate AreAnswers(memoryMap: seq<MemoryRegion>, answers: seq<Option<nat>>) {
    var frames := UsableFrames(memoryMap);
    forall k :: 0 <= k < |answers| ==> answers[k] == if k < |frames| then Some(frames[k]) else None
  }

  /**
   * With regions apart, a run of calls on a new allocator gives no frame twice and only usable frames;
   * once it has answered None, every usable frame has been given, and every later answer is None.
   */
  lemma HandedOutOnce(memoryMap: seq<MemoryRegion>, answers: seq<Option<nat>>)
    requires PageAligned(memoryMap) && UsableApart(memoryMap) && AreAnswers(memoryMap, answers)
    ensures forall j, k :: 0 <= j < k < |answers| && answers[j].Some? ==> answers[j] != answers[k]
    ensures forall f: nat :: Some(f) in answers ==> exists i :: 0 <= i < |memoryMap| && FrameInside(f, memoryMap[i])
    ensures None in answers ==>
              forall f: nat, i :: 0 <= i < |memoryMap| && FrameInside(f, memoryMap[i]) ==> Some(f) in answers
    ensures forall j, k :: 0 <= j < k < |answers| && answers[j] == None ==> answers[k] == None
  {
    hide UsableFrames, FrameInside, Apart;
    FramesDistinct(memoryMap);
    var frames := UsableFrames(memoryMap);
    forall f: nat
      ensures f in frames <==> exists i :: 0 <= i < |memoryMap| && FrameInside(f, memoryMap[i])
    {
      UsableFramesMembers(memoryMap, f);
    }
    forall f: nat | Some(f) in answers
      ensures f in frames
    {
      var k :| 0 <= k < |answers| && answers[k] == Some(f);
    }
    if None in answers {
      var n :| 0 <= n < |answers| && answers[n] == None;
      forall f | f in frames
        ensures Some(f) in answers
      {
        var k :| 0 <= k < |frames| && frames[k] == f;
        assert answers[k] == Some(f);
      }
    }
  }
}
