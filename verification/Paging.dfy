/** Demand paging of the heap: what any run of page faults does to the page map. */
module Paging {
  import opened Collections
  import opened Frames

  const HEAP_START: nat := 0x4444_4444_0000
  const HEAP_SIZE: nat := 100 * 1024 * 1024
  const HEAP_PAGES: nat := 25600

  /** Pages by number, each mapped to a frame; and the frames that became page tables. */
  datatype Paging = Paging(ready: bool, next: nat, pages: map<nat, nat>, tables: seq<nat>)

  /** How the mapper answers: how many page tables it needs first, and whether it refuses in the end. */
  datatype MapReply = MapReply(tables: nat, refused: bool)

  datatype Outcome = Resumed | Panicked

  /** Frames for new page tables, taken one by one from the same allocator. */
  function TakeTables(frames: seq<nat>, s: Paging, n: nat): (Paging, bool)
    decreases n
  {
    if n == 0 then (s, true)
    else
      match Nth(frames, s.next)
      case None => (s.(next := s.next + 1), false)
      case Some(t) => TakeTables(frames, s.(next := s.next + 1, tables := s.tables + [t]), n - 1)
  }

  /** The mapper maps a page that is not mapped yet, if it gets its tables and does not refuse. */
  function MapTo(frames: seq<nat>, s: Paging, page: nat, frame: nat, reply: MapReply): (Paging, bool) {
    var (s1, ok) := TakeTables(frames, s, reply.tables);
    if !ok || page in s1.pages || reply.refused then (s1, false)
    else (s1.(pages := s1.pages[page := frame]), true)
  }

  function HandleFault(frames: seq<nat>, s: Paging, addr: nat, reply: MapReply): (Paging, Outcome) {
    if HEAP_START <= addr < HEAP_START + HEAP_SIZE && s.ready then
      match Nth(frames, s.next)
      case None => (s.(next := s.next + 1), Panicked)
      case Some(frame) =>
        var (s1, ok) := MapTo(frames, s.(next := s.next + 1), addr / FRAME_SIZE, frame, reply);
        (s1, if ok then Resumed else Panicked)
    else (s, Panicked)
  }

  class PageFaultHandler {
    const frameAllocator: BootInfoFrameAllocator
    var ready: bool
    var pages: map<nat, nat>
    var tables: seq<nat>

    ghost function State(): Paging
      reads this, frameAllocator
    {
      Paging(ready, frameAllocator.next, pages, tables)
    }

    constructor (frameAllocator: BootInfoFrameAllocator)
      ensures this.frameAllocator == frameAllocator
      ensures State() == Paging(true, frameAllocator.next, map[], [])
    {
      this.frameAllocator := frameAllocator;
      ready, pages, tables := true, map[], [];
    }

    /** The external mapper, which asks the frame allocator for each table it needs. */
    method CallMapTo(page: nat, frame: nat, reply: MapReply) returns (ok: bool)
      modifies `pages, `tables, frameAllocator
      ensures (State(), ok) == MapTo(UsableFrames(frameAllocator.memoryMap), old(State()), page, frame, reply)
    {
      hide UsableFrames, TakeTables;
      ok := DrawTables(reply.tables);
      if !ok || page in pages || reply.refused {
        return false;
      }
      pages := pages[page := frame];
    }

    /** Draws frames for n page tables, one after the other. */
    method DrawTables(n: nat) returns (ok: bool)
      modifies `tables, frameAllocator
      ensures (State(), ok) == TakeTables(UsableFrames(frameAllocator.memoryMap), old(State()), n)
    {
      hide UsableFrames, IsAnswer, PageAligned, TakeTables;
      ghost var frames, start := UsableFrames(frameAllocator.memoryMap), State();
      for i := 0 to n
        invariant TakeTables(frames, State(), n - i) == TakeTables(frames, start, n)
      {
        TakeOneTable(frames, State(), n - i);
        var table := frameAllocator.AllocateFrame();
        match table {
          case None =>
            return false;
          case Some(t) =>
            tables := tables + [t];
        }
      }
      TakeNoTable(frames, State(), 0);
      ok := true;
    }

    method PageFault(addr: nat, reply: MapReply) returns (outcome: Outcome)
      modifies this, frameAllocator
      ensures (State(), outcome) == HandleFault(UsableFrames(frameAllocator.memoryMap), old(State()), addr, reply)
    {
      hide UsableFrames, IsAnswer, PageAligned, MapTo;
      if addr >= HEAP_START && addr < HEAP_START + HEAP_SIZE {
        if ready {
          var page := addr / FRAME_SIZE;
          var frame := frameAllocator.AllocateFrame();
          if frame.Some? {
            var ok := CallMapTo(page, frame.value, reply);
            if ok {
              return Resumed;
            }
          }
        }
      }
      outcome := Panicked;
    }

    /** A run of faults, up to the first one that panics, and how many were resumed. */
    method HandleFaults(faults: seq<Fault>) returns (outcome: Outcome, resumed: nat)
      modifies this, frameAllocator
      ensures (State(), outcome) == RunFaults(UsableFrames(frameAllocator.memoryMap), old(State()), faults)
      ensures resumed == ResumedCount(UsableFrames(frameAllocator.memoryMap), old(State()), faults)
    {
      hide UsableFrames, HandleFault;
      ghost var frames, start := UsableFrames(frameAllocator.memoryMap), State();
      outcome, resumed := Resumed, 0;
      var k := 0;
      assert faults[0..] == faults;
      while k < |faults|
        invariant k <= |faults|
        invariant RunFaults(frames, State(), faults[k..]) == RunFaults(frames, start, faults)
        invariant resumed + ResumedCount(frames, State(), faults[k..]) == ResumedCount(frames, start, faults)
      {
        assert faults[k..][0] == faults[k] && faults[k..][1..] == faults[k + 1..];
        outcome := PageFault(faults[k].addr, faults[k].reply);
        if outcome == Panicked {
          return;
        }
        resumed := resumed + 1;
        k := k + 1;
      }
      assert faults[k..] == [];
      outcome := Resumed;
    }
  }

  lemma TakeOneTable(frames: seq<nat>, s: Paging, n: nat)
    requires n > 0
    ensures TakeTables(frames, s, n)
            == match Nth(frames, s.next)
               case None => (s.(next := s.next + 1), false)
               case Some(t) => TakeTables(frames, s.(next := s.next + 1, tables := s.tables + [t]), n - 1)
  {
  }

  lemma TakeNoTable(frames: seq<nat>, s: Paging, n: nat)
    requires n == 0
    ensures TakeTables(frames, s, n) == (s, true)
  {
  }

  // ----- the invariant

  ghost predicate HeapPage(page: nat) {
    HEAP_START <= page * FRAME_SIZE && page * FRAME_SIZE + FRAME_SIZE <= HEAP_START + HEAP_SIZE
  }

  ghost predicate Drawn(frames: seq<nat>, n: nat, f: nat) {
    exists k :: 0 <= k < n && k < |frames| && frames[k] == f
  }

  ghost predicate Injective(pages: map<nat, nat>) {
    forall p, q :: p in pages && q in pages && p != q ==> pages[p] != pages[q]
  }

  /** Heap pages have frames of their own, which are no page tables; all were drawn before `next`. */
  ghost predicate PagingInv(frames: seq<nat>, s: Paging) {
    && (forall p :: p in s.pages ==> HeapPage(p) && Drawn(frames, s.next, s.pages[p]))
    && Injective(s.pages)
    && (forall t :: t in s.tables ==> Drawn(frames, s.next, t))
    && NoDuplicates(s.tables)
    && (forall p :: p in s.pages ==> s.pages[p] !in s.tables)
  }

  /** So long as no fault has failed, every frame drawn is a heap page or a page table. */
  ghost predicate NothingLeaked(frames: seq<nat>, s: Paging) {
    s.next <= |frames| && s.next == |s.pages| + |s.tables|
  }

  /** The invariant while frame `held` is drawn but not yet mapped. */
  ghost predicate Holding(frames: seq<nat>, s: Paging, held: nat) {
    && PagingInv(frames, s) && Drawn(frames, s.next, held)
    && (forall p :: p in s.pages ==> s.pages[p] != held) && held !in s.tables
  }

  lemma FreshFrame(frames: seq<nat>, n: nat)
    requires NoDuplicates(frames) && n < |frames|
    ensures !Drawn(frames, n, frames[n]) && Drawn(frames, n + 1, frames[n])
    ensures forall f :: Drawn(frames, n, f) ==> Drawn(frames, n + 1, f)
  {
  }

  lemma DrawnGrows(frames: seq<nat>, n: nat, f: nat)
    requires Drawn(frames, n, f)
    ensures Drawn(frames, n + 1, f)
  {
  }

  lemma {:induction false} TakeTablesKeeps(frames: seq<nat>, s: Paging, n: nat, held: nat)
    requires NoDuplicates(frames) && Holding(frames, s, held)
    ensures var (s', ok) := TakeTables(frames, s, n);
            && Holding(frames, s', held) && s'.pages == s.pages
            && (ok && s.next <= |frames| ==> s'.next <= |frames| && s'.next - |s'.tables| == s.next - |s.tables|)
    decreases n
  {
    if n > 0 {
      if s.next < |frames| {
        FreshFrame(frames, s.next);
        var t := frames[s.next];
        hide NoDuplicates;
        AddTable(frames, s, t, held);
        TakeTablesKeeps(frames, s.(next := s.next + 1, tables := s.tables + [t]), n - 1, held);
      }
    }
  }

  lemma AddTable(frames: seq<nat>, s: Paging, t: nat, held: nat)
    requires Holding(frames, s, held)
    requires !Drawn(frames, s.next, t) && Drawn(frames, s.next + 1, t)
    ensures Holding(frames, s.(next := s.next + 1, tables := s.tables + [t]), held)
  {
    assert t !in s.tables;
  }

  lemma HeapPageOf(addr: nat)
    requires HEAP_START <= addr < HEAP_START + HEAP_SIZE
    ensures HeapPage(addr / FRAME_SIZE)
  {
  }

  /** One fault keeps the invariant; a fault that resumes maps one new page and leaks nothing. */
  lemma FaultKeepsInv(frames: seq<nat>, s: Paging, addr: nat, reply: MapReply)
    requires NoDuplicates(frames) && PagingInv(frames, s)
    ensures var (s', outcome) := HandleFault(frames, s, addr, reply);
            && PagingInv(frames, s')
            && (outcome == Resumed ==>
                  && s.next < |frames| && addr / FRAME_SIZE !in s.pages
                  && s'.pages == s.pages[addr / FRAME_SIZE := frames[s.next]] && |s'.pages| == |s.pages| + 1
                  && (NothingLeaked(frames, s) ==> NothingLeaked(frames, s')))
  {
    hide NoDuplicates, HeapPage, PagingInv, Holding, TakeTables;
    if HEAP_START <= addr < HEAP_START + HEAP_SIZE && s.ready && s.next < |frames| {
      HeapPageOf(addr);
      DrawFrame(frames, s);
      var s1 := s.(next := s.next + 1);
      TakeTablesKeeps(frames, s1, reply.tables, frames[s.next]);
      var (s2, ok) := TakeTables(frames, s1, reply.tables);
      HoldingIsGood(frames, s2, frames[s.next]);
      if addr / FRAME_SIZE !in s2.pages {
        MapHeld(frames, s2, addr / FRAME_SIZE, frames[s.next]);
      }
    } else {
      SkipFrame(frames, s);
    }
  }

  /** Drawing the next frame keeps the invariant and leaves a frame in hand that nothing else has. */
  lemma DrawFrame(frames: seq<nat>, s: Paging)
    requires NoDuplicates(frames) && PagingInv(frames, s) && s.next < |frames|
    ensures Holding(frames, s.(next := s.next + 1), frames[s.next])
  {
    FreshFrame(frames, s.next);
    hide NoDuplicates, HeapPage;
  }

  lemma SkipFrame(frames: seq<nat>, s: Paging)
    requires PagingInv(frames, s)
    ensures PagingInv(frames, s.(next := s.next + 1))
  {
    hide NoDuplicates, HeapPage;
    forall f | Drawn(frames, s.next, f)
      ensures Drawn(frames, s.next + 1, f)
    {
      DrawnGrows(frames, s.next, f);
    }
  }

  lemma HoldingIsGood(frames: seq<nat>, s: Paging, held: nat)
    requires Holding(frames, s, held)
    ensures PagingInv(frames, s)
  {
  }

  lemma MapHeld(frames: seq<nat>, s: Paging, page: nat, held: nat)
    requires Holding(frames, s, held) && HeapPage(page) && page !in s.pages
    ensures var pages := s.pages[page := held];
            && PagingInv(frames, s.(pages := pages))
            && pages.Keys == s.pages.Keys + {page} && |pages| == |s.pages| + 1
  {
    hide NoDuplicates, HeapPage, Drawn, Injective;
    InjectiveGrows(s.pages, page, held);
    OneMorePage(s.pages, page, held);
  }

  lemma InjectiveGrows(pages: map<nat, nat>, page: nat, frame: nat)
    requires Injective(pages) && forall p :: p in pages ==> pages[p] != frame
    ensures Injective(pages[page := frame])
  {
  }

  lemma OneMorePage(pages: map<nat, nat>, page: nat, frame: nat)
    requires page !in pages
    ensures pages[page := frame].Keys == pages.Keys + {page} && |pages[page := frame]| == |pages| + 1
  {
    assert pages[page := frame].Keys == pages.Keys + {page};
  }

  lemma {:induction false} TakeTablesSucceeds(frames: seq<nat>, s: Paging, n: nat)
    ensures TakeTables(frames, s, n).1 <==> n == 0 || s.next + n <= |frames|
    ensures TakeTables(frames, s, n).0.pages == s.pages
    decreases n
  {
    if n > 0 && s.next < |frames| {
      TakeTablesSucceeds(frames, s.(next := s.next + 1, tables := s.tables + [frames[s.next]]), n - 1);
    }
  }

  /** A fault is resumed exactly for an unmapped heap page with frames enough for it and its tables. */
  lemma FaultResumesExactly(frames: seq<nat>, s: Paging, addr: nat, reply: MapReply)
    ensures HandleFault(frames, s, addr, reply).1 == Resumed
            <==> 0x4444_4444_0000 <= addr < 0x4444_4444_0000 + 104857600 && s.ready && !reply.refused
                 && addr / FRAME_SIZE !in s.pages && s.next + 1 + reply.tables <= |frames|
  {
    hide TakeTables;
    TakeTablesSucceeds(frames, s.(next := s.next + 1), reply.tables);
  }

  // ----- runs

  datatype Fault = Fault(addr: nat, reply: MapReply)

  /** A run of faults, up to the first one that panics. */
  function RunFaults(frames: seq<nat>, s: Paging, faults: seq<Fault>): (Paging, Outcome)
    decreases |faults|
  {
    if faults == [] then (s, Resumed)
    else
      var (s1, outcome) := HandleFault(frames, s, faults[0].addr, faults[0].reply);
      if outcome == Panicked then (s1, Panicked) else RunFaults(frames, s1, faults[1..])
  }

  function ResumedCount(frames: seq<nat>, s: Paging, faults: seq<Fault>): nat
    decreases |faults|
  {
    if faults == [] then 0
    else
      var (s1, outcome) := HandleFault(frames, s, faults[0].addr, faults[0].reply);
      if outcome == Panicked then 0 else 1 + ResumedCount(frames, s1, faults[1..])
  }

  lemma {:induction false} RunKeepsInv(frames: seq<nat>, s: Paging, faults: seq<Fault>)
    requires NoDuplicates(frames) && PagingInv(frames, s)
    ensures var (s', outcome) := RunFaults(frames, s, faults);
            && PagingInv(frames, s')
            && (outcome == Resumed && NothingLeaked(frames, s) ==> NothingLeaked(frames, s'))
            && |s'.pages| == |s.pages| + ResumedCount(frames, s, faults)
            && (forall p :: p in s.pages ==> p in s'.pages && s'.pages[p] == s.pages[p])
    decreases |faults|
  {
    hide HandleFault, NoDuplicates, PagingInv, NothingLeaked;
    if faults != [] {
      FaultKeepsInv(frames, s, faults[0].addr, faults[0].reply);
      var (s1, outcome) := HandleFault(frames, s, faults[0].addr, faults[0].reply);
      if outcome == Resumed {
        RunKeepsInv(frames, s1, faults[1..]);
      } else {
        FailedFaultMapsNothing(frames, s, faults[0].addr, faults[0].reply);
      }
    }
  }

  lemma FailedFaultMapsNothing(frames: seq<nat>, s: Paging, addr: nat, reply: MapReply)
    requires HandleFault(frames, s, addr, reply).1 == Panicked
    ensures HandleFault(frames, s, addr, reply).0.pages == s.pages
  {
    hide TakeTables;
    TakeTablesSucceeds(frames, s.(next := s.next + 1), reply.tables);
  }

  lemma HeapPagesBound(pages: map<nat, nat>)
    requires forall p :: p in pages ==> HeapPage(p)
    ensures |pages| <= HEAP_PAGES
  {
    var first := HEAP_START / FRAME_SIZE;
    forall p | p in pages
      ensures first <= p < first + HEAP_PAGES
    {
      assert HeapPage(p);
    }
    BoundedSetSize(pages.Keys, first, first + HEAP_PAGES);
  }

  /**
   * From boot, with a memory map whose usable regions are apart: after any run of faults the page
   * map is injective and disjoint from the page tables, every mapped page lies wholly in the heap,
   * and at most 25600 faults have been resumed. Unless a fault failed, no drawn frame is lost.
   */
  lemma DemandPaging(memoryMap: seq<MemoryRegion>, faults: seq<Fault>)
    requires PageAligned(memoryMap) && UsableApart(memoryMap)
    ensures var frames := UsableFrames(memoryMap);
            var boot := Paging(true, 0, map[], []);
            var (s, outcome) := RunFaults(frames, boot, faults);
            && PagingInv(frames, s)
            && (outcome == Resumed ==> NothingLeaked(frames, s))
            && |s.pages| == ResumedCount(frames, boot, faults) <= HEAP_PAGES
  {
    hide UsableFrames, RunFaults, ResumedCount, NoDuplicates, UsableApart;
    FramesDistinct(memoryMap);
    var frames, boot := UsableFrames(memoryMap), Paging(true, 0, map[], []);
    EmptyTables();
    RunKeepsInv(frames, boot, faults);
    HeapPagesBound(RunFaults(frames, boot, faults).0.pages);
  }

  lemma EmptyTables()
    ensures NoDuplicates<nat>([])
  {
  }
}
