/** What every call keeps, and what holds over whole runs of calls, on the first-fit heap. */
module HeapRuns {
  import opened Collections
  import opened Alignment
  import opened FreeList

  // ----- one call

  lemma InitKeepsInv(start: nat, size: nat)
    requires 0 < start && start % 8 == 0 && NODE_SIZE <= size && start + size <= ADDRESS_LIMIT
    ensures HeapInv(start, start + size, InitHeap(start, size))
  {
    var h := InitHeap(start, size);
    assert Spans(h.live) == [];
    assert Pieces(h) == multiset{Region(start, size)};
    TotalOne(Region(start, size));
  }

  lemma EmptyInv(bound: nat, h: Heap)
    requires h == EMPTY && bound <= ADDRESS_LIMIT
    ensures HeapInv(bound, bound, h)
  {
    assert Spans(h.live) == [];
    assert Pieces(h) == multiset{};
  }

  /** The block cut from region r at `start` lies in it, is aligned, and leaves a tail of 0 or at least 16 bytes. */
  ghost predicate CutsWell(r: Region, a: Adjusted, start: nat) {
    var end := start + a.size;
    && r.start + a.align - 1 < WORD_RANGE
    && 0 < a.align && start % a.align == 0 && start % 8 == 0
    && r.start <= start < r.start + a.align
    && end <= r.End() < WORD_RANGE
    && (end == r.End() || (end % 8 == 0 && r.End() - end >= NODE_SIZE))
  }

  lemma RegionCutsWell(lo: nat, hi: nat, r: Region, l: Layout)
    requires GoodBounds(lo, hi) && GoodFreeRegion(lo, hi, r)
    requires ValidLayout(l) && SizeAlign(l).Some?
    ensures var a := SizeAlign(l).value;
            && 0 < a.align <= WORD_RANGE
            && (Suits(r, a.size, a.align) ==> CutsWell(r, a, AllocFromRegion(r, a.size, a.align).value))
  {
    SizeAlignFacts(l);
    var a := SizeAlign(l).value;
    if Suits(r, a.size, a.align) {
      var start := AllocFromRegion(r, a.size, a.align).value;
      AlignUpIsLeast(r.start, a.align);
      assert start == AlignUp(r.start, a.align);
      assert start % a.align == 0;
      MultipleOfEight(start, a.align);
      SumOfEights(start, a.size);
    }
  }

  /** The block is aligned, lies in the region from its first aligned address on, and leaves 0 or at least 16 bytes. */
  ghost predicate BlockFits(r: Region, a: Adjusted, start: nat) {
    HasRoom(r, a, start) && start < r.start + a.align
  }

  /** The block is aligned, lies anywhere in the region, and leaves 0 or at least 16 bytes behind it. */
  ghost predicate HasRoom(r: Region, a: Adjusted, start: nat) {
    && a.align > 0 && start % a.align == 0 && r.start <= start
    && (start + a.size == r.End() || start + a.size + NODE_SIZE <= r.End())
  }

  /** A region is accepted exactly when a block fits at its first aligned address. */
  lemma SuitsExactly(lo: nat, hi: nat, r: Region, l: Layout)
    requires GoodBounds(lo, hi) && GoodFreeRegion(lo, hi, r)
    requires ValidLayout(l) && SizeAlign(l).Some?
    ensures var a := SizeAlign(l).value;
            && 0 < a.align <= WORD_RANGE
            && (Suits(r, a.size, a.align) <==> exists start: nat :: BlockFits(r, a, start))
  {
    SizeAlignFacts(l);
    var a := SizeAlign(l).value;
    AlignUpIsLeast(r.start, a.align);
    RegionCutsWell(lo, hi, r, l);
    hide AlignUp, SizeAlign;
    var first := AlignUp(r.start, a.align);
    if Suits(r, a.size, a.align) {
      assert BlockFits(r, a, first);
    }
    forall start: nat | BlockFits(r, a, start)
      ensures Suits(r, a.size, a.align)
    {
      MultiplesApart(first, start, a.align);
      assert start == first;
    }
  }

  /** The one kind of region that has room and is refused: alignment 8, and 8 bytes more than the block. */
  ghost predicate EightOver(r: Region, a: Adjusted) {
    a.align == NODE_ALIGN && r.size == a.size + 8
  }

  /** A later aligned address helps only where the first one leaves 8 bytes and the next leaves none. */
  lemma LaterStart(r: Region, a: Adjusted, first: nat, start: nat)
    requires IsPow2(a.align) && a.align >= NODE_ALIGN
    requires first % a.align == 0 && r.start <= first < r.start + a.align
    requires HasRoom(r, a, start)
    ensures first <= start
    ensures first == start || first + a.size + NODE_SIZE <= r.End()
            || (a.align == NODE_ALIGN && start == first + 8 && first + a.size + 8 == r.End())
  {
    MultiplesApart(start, first, a.align);
    if first < start && r.End() < first + a.size + NODE_SIZE {
      StartsApart(first, start, a.align);
      MultipleOfEight(first, a.align);
      MultipleOfEight(start, a.align);
      AlignBelowSixteen(a.align);
    }
  }

  lemma StartsApart(first: nat, start: nat, align: nat)
    requires 0 < align && first % align == 0 && start % align == 0 && first < start
    ensures first + align <= start
  {
    if start < first + align {
      MultiplesApart(first, start, align);
    }
  }

  /** Only one power of two lies from 8 up to below 16. */
  lemma AlignBelowSixteen(align: nat)
    requires IsPow2(align)
    ensures 8 <= align < 16 ==> align == 8
  {
    var k: nat :| align == Pow2(k);
    assert Pow2(3) == 8 && Pow2(4) == 2 * Pow2(3);
    if k > 4 {
      Pow2Monotone(4, k);
    } else if k < 3 {
      Pow2Monotone(k, 2);
      assert Pow2(3) == 2 * Pow2(2);
    }
  }

  /** Some aligned address in a region has room exactly when the region is accepted or is 8 bytes over. */
  lemma RoomExactly(lo: nat, hi: nat, r: Region, l: Layout)
    requires GoodBounds(lo, hi) && GoodFreeRegion(lo, hi, r)
    requires ValidLayout(l) && SizeAlign(l).Some?
    ensures var a := SizeAlign(l).value;
            && 0 < a.align <= WORD_RANGE
            && ((exists start: nat :: HasRoom(r, a, start)) <==> Suits(r, a.size, a.align) || EightOver(r, a))
            && (EightOver(r, a) ==> !Suits(r, a.size, a.align))
  {
    SizeAlignFacts(l);
    var a := SizeAlign(l).value;
    AlignUpIsLeast(r.start, a.align);
    var first := AlignUp(r.start, a.align);
    SuitsExactly(lo, hi, r, l);
    hide AlignUp, SizeAlign, Suits, IsPow2;
    if Suits(r, a.size, a.align) {
      var start: nat :| BlockFits(r, a, start);
      assert HasRoom(r, a, start);
    }
    if EightOver(r, a) {
      assert HasRoom(r, a, r.start + 8);
      assert first == r.start;
      forall start: nat
        ensures !BlockFits(r, a, start)
      {
      }
    }
    forall start: nat | HasRoom(r, a, start)
      ensures Suits(r, a.size, a.align) || EightOver(r, a)
    {
      LaterStart(r, a, first, start);
      if first == start || first + a.size + NODE_SIZE <= r.End() {
        assert BlockFits(r, a, first);
      } else {
        assert first == r.start;
      }
    }
  }

  /**
   * `alloc` looks at the first aligned address of each region only. So it returns null exactly when
   * every free region either has no room for the adjusted layout at any aligned address, or asks for
   * alignment 8 and is larger than the block by exactly 8 bytes.
   */
  lemma NullExactly(lo: nat, hi: nat, h: Heap, l: Layout)
    requires GoodBounds(lo, hi) && GoodFree(lo, hi, h.free) && ValidLayout(l) && SizeAlign(l).Some?
    ensures var a := SizeAlign(l).value;
            Alloc(h, l).1 == Null
            <==> forall r :: r in h.free ==> EightOver(r, a) || forall start: nat :: !HasRoom(r, a, start)
  {
    hide HasRoom, EightOver, GoodFreeRegion, AllocFromRegion, SizeAlign;
    assert 0 < SizeAlign(l).value.align <= WORD_RANGE by { SizeAlignFacts(l); }
    var a := SizeAlign(l).value;
    forall r | r in h.free
      ensures Suits(r, a.size, a.align) <==> !(EightOver(r, a) || forall start: nat :: !HasRoom(r, a, start))
    {
      RoomExactly(lo, hi, r, l);
    }
    if FirstFit(h.free, a.size, a.align).Some? {
      var r := h.free[FirstFit(h.free, a.size, a.align).value];
      assert r in h.free;
    } else {
      forall r | r in h.free
        ensures !Suits(r, a.size, a.align)
      {
        var k :| 0 <= k < |h.free| && h.free[k] == r;
      }
    }
  }

  /** A fresh heap of 24 bytes refuses 16 bytes at alignment 8, although they fit at its second word. */
  lemma RefusedWithRoom(h: Heap, l: Layout)
    requires h == InitHeap(8, 24) && l == Layout(16, 8)
    ensures ValidLayout(l) && SizeAlign(l) == Some(Adjusted(16, 8))
    ensures Alloc(h, l).1 == Null && HasRoom(h.free[0], Adjusted(16, 8), 16)
  {
    assert Pow2(3) == 8;
    SizeAlignFacts(l);
    hide AlignUp, SizeAlign, AllocFromRegion, FirstFit, Alloc;
    assert SizeAlign(l).value.size <= 16;
    assert EightOver(h.free[0], SizeAlign(l).value);
    NullExactly(8, 32, h, l);
  }

  lemma SumOfEights(x: nat, y: nat)
    requires x % 8 == 0 && y % 8 == 0
    ensures (x + y) % 8 == 0
  {
  }

  /**
   * No step of `alloc` fails inside: the mask arithmetic does not wrap, the subtraction does not
   * underflow, and the tail of a split region passes both assertions of `add_free_region`. The
   * only panic is that of `align_to`, for an alignment below 8 and a size within 7 of the limit.
   */
  lemma NoInternalFailure(lo: nat, hi: nat, h: Heap, l: Layout)
    requires GoodBounds(lo, hi) && GoodFree(lo, hi, h.free) && ValidLayout(l)
    ensures Alloc(h, l).1 == Panicked <==> l.align < NODE_ALIGN && l.size > ISIZE_MAX - 7
    ensures SizeAlign(l).Some? ==>
              var a := SizeAlign(l).value;
              && 0 < a.align <= WORD_RANGE
              && var i := FirstFit(h.free, a.size, a.align);
                 i.Some? ==> CutsWell(h.free[i.value], a, AllocFromRegion(h.free[i.value], a.size, a.align).value)
  {
    SizeAlignFacts(l);
    if SizeAlign(l).Some? {
      var a := SizeAlign(l).value;
      var i := FirstFit(h.free, a.size, a.align);
      if i.Some? {
        assert h.free[i.value] in h.free;
        RegionCutsWell(lo, hi, h.free[i.value], l);
      }
    }
  }

  /** The region a layout is cut from, and where the block starts. */
  ghost predicate Chosen(h: Heap, l: Layout, i: nat, start: nat) {
    && ValidLayout(l) && SizeAlign(l).Some?
    && var a := SizeAlign(l).value;
       && 0 < a.align <= WORD_RANGE
       && FirstFit(h.free, a.size, a.align) == Some(i)
       && i < |h.free|
       && AllocFromRegion(h.free[i], a.size, a.align) == Some(start)
  }

  lemma ChosenHeap(h: Heap, l: Layout, i: nat, start: nat)
    requires Chosen(h, l, i, start)
    ensures var r, size := h.free[i], SizeAlign(l).value.size;
            Alloc(h, l) == (Heap(Back(r, start + size) + RemoveAt(h.free, i),
                                 h.live + [Block(start, l)],
                                 h.lost + Front(r, start)),
                            Pointer(start))
  {
  }

  lemma ChoiceExists(h: Heap, l: Layout) returns (i: nat, start: nat)
    requires ValidLayout(l) && Alloc(h, l).1.Pointer?
    ensures Chosen(h, l, i, start)
  {
    SizeAlignFacts(l);
    var a := SizeAlign(l).value;
    i := FirstFit(h.free, a.size, a.align).value;
    start := AllocFromRegion(h.free[i], a.size, a.align).value;
  }

  ghost function Parts(r: Region, start: nat, size: nat): seq<Region> {
    Front(r, start) + ([Region(start, size)] + Back(r, start + size))
  }

  /** The pieces after a successful `alloc`: the chosen region is replaced by its parts. */
  lemma AllocPieces(h: Heap, l: Layout, i: nat, start: nat)
    requires Chosen(h, l, i, start)
    ensures Pieces(Alloc(h, l).0)
            == Pieces(h) - multiset{h.free[i]} + multiset(Parts(h.free[i], start, SizeAlign(l).value.size))
  {
    ChosenHeap(h, l, i, start);
    BlockSpanIs(start, l);
    hide Alloc, SizeAlign, Span, Spans, FirstFit, AllocFromRegion, ValidLayout, Pieces, Front, Back, RemoveAt;
    var r, size := h.free[i], SizeAlign(l).value.size;
    PiecesReplaced(h, Alloc(h, l).0, i, Front(r, start), Block(start, l), Back(r, start + size));
  }

  lemma BlockSpanIs(start: nat, l: Layout)
    requires ValidLayout(l) && SizeAlign(l).Some?
    ensures Span(Block(start, l)) == Region(start, SizeAlign(l).value.size)
  {
    SizeAlignFacts(l);
  }

  lemma PiecesReplaced(h: Heap, h': Heap, i: nat, front: seq<Region>, b: Block, back: seq<Region>)
    requires i < |h.free|
    requires h' == Heap(back + RemoveAt(h.free, i), h.live + [b], h.lost + front)
    ensures Pieces(h') == Pieces(h) - multiset{h.free[i]} + multiset(front + ([Span(b)] + back))
  {
    hide RemoveAt, Span, Spans;
    RemoveAtMultiset(h.free, i);
    SpansAppend(h.live, b);
  }

  lemma AllocKeepsBalance(lo: nat, hi: nat, h: Heap, l: Layout, i: nat, start: nat)
    requires Chosen(h, l, i, start) && Balanced(lo, hi, h)
    requires CutsWell(h.free[i], SizeAlign(l).value, start)
    ensures Balanced(lo, hi, Alloc(h, l).0)
  {
    var r, size := h.free[i], SizeAlign(l).value.size;
    ChosenHeap(h, l, i, start);
    BlockSpanIs(start, l);
    hide Alloc, SizeAlign, Span, Spans, FirstFit, AllocFromRegion, SizeUpTo;
    TotalRemoveAt(h.free, i);
    TotalAppend(Back(r, start + size), RemoveAt(h.free, i));
    TotalAppend(h.lost, Front(r, start));
    SpansAppend(h.live, Block(start, l));
    TotalAppend(Spans(h.live), [Span(Block(start, l))]);
    PartsAddUp(r, start, size);
    TotalOne(Span(Block(start, l)));
  }

  lemma PartsAddUp(r: Region, start: nat, size: nat)
    requires r.start <= start && start + size <= r.End()
    ensures TotalSize(Front(r, start)) + size + TotalSize(Back(r, start + size)) == r.size
  {
    TotalOne(Region(r.start, start - r.start));
    TotalOne(Region(start + size, r.End() - (start + size)));
  }

  lemma PartsSeparate(r: Region, a: Adjusted, start: nat)
    requires CutsWell(r, a, start) && a.size > 0
    ensures Separate(multiset(Parts(r, start, a.size)))
  {
    hide Separate, Back, Front;
    BlockAndBack(r, start, a.size);
    FrontSeparate(r, start, [Region(start, a.size)] + Back(r, start + a.size));
  }

  lemma BlockAndBack(r: Region, start: nat, size: nat)
    requires size > 0
    ensures Separate(multiset([Region(start, size)] + Back(r, start + size)))
    ensures forall p :: p in [Region(start, size)] + Back(r, start + size) ==> start <= p.start
  {
    hide Separate;
    BackSeparate(r, start + size);
    ConsSeparate(Region(start, size), Back(r, start + size));
  }

  lemma FrontSeparate(r: Region, start: nat, rest: seq<Region>)
    requires Separate(multiset(rest)) && forall p :: p in rest ==> start <= p.start
    ensures Separate(multiset(Front(r, start) + rest))
  {
    hide Separate;
    if r.start < start {
      ConsSeparate(Region(r.start, start - r.start), rest);
    } else {
      assert Front(r, start) + rest == rest;
    }
  }

  lemma PartsInside(r: Region, a: Adjusted, start: nat)
    requires CutsWell(r, a, start)
    ensures forall p :: p in Parts(r, start, a.size) ==> Inside(p, r)
  {
  }

  lemma BackSeparate(r: Region, end: nat)
    ensures Separate(multiset(Back(r, end)))
  {
  }

  lemma ConsSeparate(x: Region, s: seq<Region>)
    requires Separate(multiset(s)) && x.size > 0
    requires forall p :: p in s ==> x.End() <= p.start
    ensures Separate(multiset([x] + s))
  {
    hide Separate;
    PutBefore(x, multiset(s));
    assert multiset([x] + s) == multiset{x} + multiset(s);
  }

  lemma PutBefore(x: Region, m: multiset<Region>)
    requires Separate(m) && x.size > 0
    requires forall p :: p in m ==> x.End() <= p.start
    ensures Separate(multiset{x} + m)
  {
    assert x !in m;
  }

  lemma AllocKeepsInv(lo: nat, hi: nat, h: Heap, l: Layout)
    requires HeapInv(lo, hi, h) && ValidLayout(l)
    ensures HeapInv(lo, hi, Alloc(h, l).0)
  {
    if Alloc(h, l).1.Pointer? {
      var i, start := ChoiceExists(h, l);
      assert h.free[i] in h.free;
      RegionCutsWell(lo, hi, h.free[i], l);
      AllocKeepsSeparate(h, l, i, start);
      AllocKeepsBalance(lo, hi, h, l, i, start);
      AllocKeepsGood(lo, hi, h, l, i, start);
    }
  }

  lemma AllocKeepsSeparate(h: Heap, l: Layout, i: nat, start: nat)
    requires Chosen(h, l, i, start) && CutsWell(h.free[i], SizeAlign(l).value, start)
    requires Separate(Pieces(h))
    ensures Separate(Pieces(Alloc(h, l).0))
  {
    SizeAlignFacts(l);
    AllocPieces(h, l, i, start);
    hide Separate, SizeAlign;
    PartsSeparate(h.free[i], SizeAlign(l).value, start);
    PartsInside(h.free[i], SizeAlign(l).value, start);
    assert h.free[i] in Pieces(h);
    SplitKeepsSeparate(Pieces(h), h.free[i], multiset(Parts(h.free[i], start, SizeAlign(l).value.size)));
  }

  lemma AllocKeepsGood(lo: nat, hi: nat, h: Heap, l: Layout, i: nat, start: nat)
    requires Chosen(h, l, i, start) && CutsWell(h.free[i], SizeAlign(l).value, start)
    requires GoodFree(lo, hi, h.free) && GoodLive(lo, hi, h.live) && GoodLost(lo, hi, h.lost)
    ensures var h' := Alloc(h, l).0;
            GoodFree(lo, hi, h'.free) && GoodLive(lo, hi, h'.live) && GoodLost(lo, hi, h'.lost)
  {
    ChosenHeap(h, l, i, start);
    var h', r, size := Alloc(h, l).0, h.free[i], SizeAlign(l).value.size;
    assert r in h.free;
    assert GoodBlock(lo, hi, Block(start, l));
    KeptFree(lo, hi, h.free, i, Back(r, start + size));
    KeptLost(lo, hi, h.lost, r, start);
  }

  lemma KeptFree(lo: nat, hi: nat, free: seq<Region>, i: nat, back: seq<Region>)
    requires GoodFree(lo, hi, free) && i < |free| && GoodFree(lo, hi, back)
    ensures GoodFree(lo, hi, back + RemoveAt(free, i))
  {
    forall x | x in back + RemoveAt(free, i)
      ensures GoodFreeRegion(lo, hi, x)
    {
      assert x in back || x in free;
    }
  }

  lemma KeptLost(lo: nat, hi: nat, lost: seq<Region>, r: Region, start: nat)
    requires GoodLost(lo, hi, lost) && GoodFreeRegion(lo, hi, r)
    requires start % 8 == 0 && start <= r.End()
    ensures GoodLost(lo, hi, lost + Front(r, start))
  {
  }

  /** `dealloc` moves one piece from the live blocks to the head of the free list. */
  lemma DeallocPieces(h: Heap, ptr: nat, l: Layout)
    requires Block(ptr, l) in h.live
    ensures Pieces(Dealloc(h, ptr, l)) == Pieces(h)
  {
    var b := Block(ptr, l);
    var k := IndexOf(h.live, b);
    hide Span, Spans, RemoveAt;
    SpansRemoveAt(h.live, k);
    RemoveAtMultiset(Spans(h.live), k);
    assert multiset([Span(b)] + h.free) == multiset{Span(b)} + multiset(h.free);
  }

  lemma BlockSpan(lo: nat, hi: nat, b: Block)
    requires GoodBlock(lo, hi, b)
    ensures GoodFreeRegion(lo, hi, Span(b))
    ensures Span(b).size % 8 == 0 && Span(b).size >= b.layout.size
  {
    SizeAlignFacts(b.layout);
    MultipleOfEight(b.start, SizeAlign(b.layout).value.align);
  }

  lemma DeallocKeepsBalance(lo: nat, hi: nat, h: Heap, ptr: nat, l: Layout)
    requires Balanced(lo, hi, h) && Block(ptr, l) in h.live
    ensures Balanced(lo, hi, Dealloc(h, ptr, l))
  {
    var b := Block(ptr, l);
    var k := IndexOf(h.live, b);
    hide Span, Spans, RemoveAt, SizeUpTo;
    SpansRemoveAt(h.live, k);
    TotalRemoveAt(Spans(h.live), k);
    TotalAppend([Span(b)], h.free);
    TotalOne(Span(b));
  }

  lemma DeallocKeepsInv(lo: nat, hi: nat, h: Heap, ptr: nat, l: Layout)
    requires HeapInv(lo, hi, h) && Block(ptr, l) in h.live
    ensures HeapInv(lo, hi, Dealloc(h, ptr, l))
  {
    hide Separate, Pieces, Balanced, GoodBlock, GoodFreeRegion, Span;
    DeallocPieces(h, ptr, l);
    DeallocKeepsBalance(lo, hi, h, ptr, l);
    BlockSpan(lo, hi, Block(ptr, l));
  }

  // ----- runs

  datatype Op = AllocOp(layout: Layout) | DeallocOp(ptr: nat, layout: Layout)

  /** What `GlobalAlloc` asks of its callers: real layouts, and only live blocks are freed. */
  ghost predicate Legal(h: Heap, op: Op) {
    match op
    case AllocOp(l) => ValidLayout(l)
    case DeallocOp(ptr, l) => Block(ptr, l) in h.live
  }

  ghost function Step(h: Heap, op: Op): Heap
    requires Legal(h, op)
  {
    match op
    case AllocOp(l) => Alloc(h, l).0
    case DeallocOp(ptr, l) => Dealloc(h, ptr, l)
  }

  ghost predicate LegalRun(h: Heap, ops: seq<Op>)
    decreases |ops|
  {
    ops == [] || (Legal(h, ops[0]) && LegalRun(Step(h, ops[0]), ops[1..]))
  }

  ghost function Run(h: Heap, ops: seq<Op>): Heap
    requires LegalRun(h, ops)
    decreases |ops|
  {
    if ops == [] then h else Run(Step(h, ops[0]), ops[1..])
  }

  lemma StepKeepsInv(lo: nat, hi: nat, h: Heap, op: Op)
    requires HeapInv(lo, hi, h) && Legal(h, op)
    ensures HeapInv(lo, hi, Step(h, op))
  {
    match op
    case AllocOp(l) => AllocKeepsInv(lo, hi, h, l);
    case DeallocOp(ptr, l) => DeallocKeepsInv(lo, hi, h, ptr, l);
  }

  /** Safety over all runs. */
  lemma {:induction false} RunKeepsInv(lo: nat, hi: nat, h: Heap, ops: seq<Op>)
    requires HeapInv(lo, hi, h) && LegalRun(h, ops)
    ensures HeapInv(lo, hi, Run(h, ops))
    decreases |ops|
  {
    if ops != [] {
      StepKeepsInv(lo, hi, h, ops[0]);
      RunKeepsInv(lo, hi, Step(h, ops[0]), ops[1..]);
    }
  }

  /** Byte conservation: what is free, live and lost always adds up to the heap handed to `init`. */
  lemma BytesConserved(start: nat, size: nat, ops: seq<Op>)
    requires 0 < start && start % 8 == 0 && NODE_SIZE <= size && start + size <= ADDRESS_LIMIT
    requires LegalRun(InitHeap(start, size), ops)
    ensures var h := Run(InitHeap(start, size), ops);
            TotalSize(h.free) + TotalSize(Spans(h.live)) + TotalSize(h.lost) == size
  {
    InitKeepsInv(start, size);
    RunKeepsInv(start, start + size, InitHeap(start, size), ops);
  }

  /** Live block i is aligned for its layout, holds it, is inside, and shares no byte with any other piece in use. */
  ghost predicate SafeBlock(lo: nat, hi: nat, h: Heap, i: nat)
    requires i < |h.live|
  {
    var b := h.live[i];
    && b.layout.align > 0 && b.start % b.layout.align == 0
    && lo <= b.start && b.start + b.layout.size <= Span(b).End() <= hi
    && (forall j :: 0 <= j < |h.live| && j != i ==> Disjoint(Span(b), Span(h.live[j])))
    && (forall r :: r in h.free ==> Disjoint(Span(b), r))
  }

  /** Free region i is 8-aligned, holds a list node, is inside, and shares no byte with another free region. */
  ghost predicate SafeRegion(lo: nat, hi: nat, h: Heap, i: nat)
    requires i < |h.free|
  {
    var r := h.free[i];
    && r.start % 8 == 0 && r.size >= 16 && lo <= r.start && r.End() <= hi
    && (forall j :: 0 <= j < |h.free| && j != i ==> Disjoint(r, h.free[j]))
  }

  lemma LiveBlockSafe(lo: nat, hi: nat, h: Heap, i: nat)
    requires HeapInv(lo, hi, h) && i < |h.live|
    ensures SafeBlock(lo, hi, h, i)
  {
    hide Separate, Pieces, Balanced, SizeAlign, Span, Spans, GoodFree, GoodLost;
    var b := h.live[i];
    assert b in h.live && GoodBlock(lo, hi, b);
    BlockSpan(lo, hi, b);
    BlockAligned(lo, hi, b);
    forall j | 0 <= j < |h.live| && j != i
      ensures Disjoint(Span(b), Span(h.live[j]))
    {
      LiveApart(h, i, j);
    }
    forall r | r in h.free
      ensures Disjoint(Span(b), r)
    {
      LiveFromFree(h, i, r);
    }
  }

  lemma BlockAligned(lo: nat, hi: nat, b: Block)
    requires GoodBlock(lo, hi, b)
    ensures b.layout.align > 0 && b.start % b.layout.align == 0 && Span(b).start == b.start
  {
    SizeAlignFacts(b.layout);
    AlignedForLess(b.start, b.layout.align);
  }

  lemma FreeRegionSafe(lo: nat, hi: nat, h: Heap, i: nat)
    requires HeapInv(lo, hi, h) && i < |h.free|
    ensures SafeRegion(lo, hi, h, i)
  {
    hide Separate, Pieces, Balanced, GoodLive, GoodLost;
    assert h.free[i] in h.free;
    forall j | 0 <= j < |h.free| && j != i
      ensures Disjoint(h.free[i], h.free[j])
    {
      FreeApart(h, i, j);
    }
  }

  /** Regions at different positions of the free list are disjoint. */
  lemma FreeApart(h: Heap, i: nat, j: nat)
    requires Separate(Pieces(h)) && i < |h.free| && j < |h.free| && i != j
    ensures Disjoint(h.free[i], h.free[j])
  {
    assert h.free[i] in Pieces(h) && h.free[j] in Pieces(h);
    if h.free[i] == h.free[j] {
      TwiceInMultiset(h.free, i, j);
      assert false;
    }
  }

  /** In every heap reachable from `init`, every live block and every free region is safe. */
  lemma ReachableHeapSafe(lo: nat, hi: nat, h: Heap, ops: seq<Op>)
    requires 0 < lo && lo % 8 == 0 && lo + NODE_SIZE <= hi <= ADDRESS_LIMIT
    requires h == InitHeap(lo, hi - lo) && LegalRun(h, ops)
    ensures var h' := Run(h, ops);
            && (forall i :: 0 <= i < |h'.live| ==> SafeBlock(lo, hi, h', i))
            && (forall i :: 0 <= i < |h'.free| ==> SafeRegion(lo, hi, h', i))
  {
    hide HeapInv, SafeBlock, SafeRegion, InitHeap, Run, LegalRun;
    InitKeepsInv(lo, hi - lo);
    RunKeepsInv(lo, hi, h, ops);
    var h' := Run(h, ops);
    forall i | 0 <= i < |h'.live|
      ensures SafeBlock(lo, hi, h', i)
    {
      LiveBlockSafe(lo, hi, h', i);
    }
    forall i | 0 <= i < |h'.free|
      ensures SafeRegion(lo, hi, h', i)
    {
      FreeRegionSafe(lo, hi, h', i);
    }
  }

  /** Two blocks at different positions have different spans, so they are disjoint pieces. */
  lemma LiveApart(h: Heap, i: nat, j: nat)
    requires Separate(Pieces(h)) && i < |h.live| && j < |h.live| && i != j
    ensures Disjoint(Span(h.live[i]), Span(h.live[j]))
  {
    var s := Spans(h.live);
    assert s[i] in Pieces(h) && s[j] in Pieces(h);
    if s[i] == s[j] {
      TwiceInMultiset(s, i, j);
      assert false;
    }
  }

  lemma LiveFromFree(h: Heap, i: nat, r: Region)
    requires Separate(Pieces(h)) && i < |h.live| && r in h.free
    ensures Disjoint(Span(h.live[i]), r)
  {
    var s := Spans(h.live);
    assert s[i] in s && multiset(s)[s[i]] >= 1 && multiset(h.free)[r] >= 1;
    assert s[i] in Pieces(h) && r in Pieces(h);
  }

  lemma TwiceInMultiset<T>(s: seq<T>, i: nat, j: nat)
    requires i < |s| && j < |s| && i != j && s[i] == s[j]
    ensures multiset(s)[s[i]] >= 2
  {
    RemoveAtMultiset(s, i);
    var r := RemoveAt(s, i);
    assert r[if j < i then j else j - 1] == s[j];
    assert s[j] in r;
  }

  /** A multiple of max(align, 8) is a multiple of align. */
  lemma AlignedForLess(x: nat, align: nat)
    requires IsPow2(align) && x % Max(align, NODE_ALIGN) == 0
    ensures x % align == 0
  {
    assert Pow2(3) == 8;
    MultipleOfSmaller(x, align, Max(align, NODE_ALIGN));
  }

  // ----- whole-run laws

  /** An allocation splits when the region it takes has bytes left behind the block. */
  ghost predicate Splits(h: Heap, op: Op)
    requires Legal(h, op)
  {
    op.AllocOp? && exists i: nat, start: nat :: Chosen(h, op.layout, i, start) && BytesBehind(h, op.layout, i, start)
  }

  /** An allocation loses a gap when the block starts above the start of the region it is cut from. */
  ghost predicate LosesGap(h: Heap, op: Op)
    requires Legal(h, op)
  {
    op.AllocOp? && exists i: nat, start: nat :: Chosen(h, op.layout, i, start) && h.free[i].start < start
  }

  ghost predicate BytesBehind(h: Heap, l: Layout, i: nat, start: nat)
    requires Chosen(h, l, i, start)
  {
    start + SizeAlign(l).value.size < h.free[i].End()
  }

  ghost function SplitCount(h: Heap, ops: seq<Op>): nat
    requires LegalRun(h, ops)
    decreases |ops|
  {
    if ops == [] then 0
    else (if Splits(h, ops[0]) then 1 else 0) + SplitCount(Step(h, ops[0]), ops[1..])
  }

  ghost function GapCount(h: Heap, ops: seq<Op>): nat
    requires LegalRun(h, ops)
    decreases |ops|
  {
    if ops == [] then 0
    else (if LosesGap(h, ops[0]) then 1 else 0) + GapCount(Step(h, ops[0]), ops[1..])
  }

  /** There is one choice, and it is there exactly when a pointer is answered. */
  lemma ChosenOnce(h: Heap, l: Layout, i: nat, start: nat)
    requires Chosen(h, l, i, start)
    ensures forall i', start' :: Chosen(h, l, i', start') ==> i' == i && start' == start
  {
  }

  lemma NothingChosen(h: Heap, l: Layout)
    requires ValidLayout(l) && !Alloc(h, l).1.Pointer?
    ensures forall i, start :: !Chosen(h, l, i, start)
    ensures Alloc(h, l).0 == h
  {
    forall i, start | Chosen(h, l, i, start)
      ensures false
    {
      ChosenHeap(h, l, i, start);
    }
  }

  /**
   * Free regions and live blocks together grow by one exactly when an allocation leaves bytes behind
   * its block, and never shrink; gaps grow by one exactly when the block starts above its region.
   */
  lemma StepCounts(h: Heap, op: Op)
    requires Legal(h, op)
    ensures var h' := Step(h, op);
            && |h'.free| + |h'.live| == |h.free| + |h.live| + (if Splits(h, op) then 1 else 0)
            && |h'.lost| == |h.lost| + (if LosesGap(h, op) then 1 else 0)
  {
    if op.AllocOp? {
      var l := op.layout;
      if Alloc(h, l).1.Pointer? {
        var i, start := ChoiceExists(h, l);
        ChosenOnce(h, l, i, start);
        ChosenHeap(h, l, i, start);
        assert i < |h.free|;
        hide Alloc, SizeAlign, Chosen;
      } else {
        NothingChosen(h, l);
      }
    }
  }

  lemma {:induction false} RunCounts(h: Heap, ops: seq<Op>)
    requires LegalRun(h, ops)
    ensures var h' := Run(h, ops);
            && |h'.free| + |h'.live| == |h.free| + |h.live| + SplitCount(h, ops)
            && |h'.lost| == |h.lost| + GapCount(h, ops)
    decreases |ops|
  {
    if ops != [] {
      StepCounts(h, ops[0]);
      RunCounts(Step(h, ops[0]), ops[1..]);
    }
  }

  /** Each free region and live block takes 16 bytes at least, each gap 8 at least. */
  lemma PieceBound(lo: nat, hi: nat, h: Heap)
    requires HeapInv(lo, hi, h)
    ensures 16 * (|h.free| + |h.live|) + 8 * |h.lost| <= hi - lo
  {
    forall r | r in Spans(h.live)
      ensures r.size >= 16
    {
      var k :| 0 <= k < |h.live| && Spans(h.live)[k] == r;
      assert h.live[k] in h.live;
      BlockSpan(lo, hi, h.live[k]);
    }
    SizeUpToAtLeast(h.free, 16, |h.free|);
    SizeUpToAtLeast(Spans(h.live), 16, |h.live|);
    SizeUpToAtLeast(h.lost, 8, |h.lost|);
  }

  /**
   * Fragmentation is bounded for ever: however long the run, the number of splits and the number
   * of gaps lost to alignment stay below fixed fractions of the heap size.
   */
  lemma FragmentationLaw(start: nat, size: nat, h: Heap, ops: seq<Op>)
    requires 0 < start && start % 8 == 0 && NODE_SIZE <= size && start + size <= ADDRESS_LIMIT
    requires h == InitHeap(start, size) && LegalRun(h, ops)
    ensures 16 * (1 + SplitCount(h, ops)) + 8 * GapCount(h, ops) <= size
    ensures SplitCount(h, ops) <= size / 16 - 1
    ensures GapCount(h, ops) <= size / 8
  {
    InitKeepsInv(start, size);
    RunKeepsInv(start, start + size, h, ops);
    RunCounts(h, ops);
    PieceBound(start, start + size, Run(h, ops));
  }

  /** A gap cut off in front of the block that a call for layout l returned. */
  ghost predicate IsGap(gap: Region, ptr: nat, l: Layout) {
    gap.End() == ptr && gap.size % 8 == 0 && 0 < gap.size < Max(l.align, NODE_ALIGN)
  }

  /** One call loses at most one gap: a multiple of 8, smaller than the adjusted alignment. */
  lemma GapSize(lo: nat, hi: nat, h: Heap, l: Layout)
    requires GoodBounds(lo, hi) && GoodFree(lo, hi, h.free) && ValidLayout(l)
    ensures var (h', answer) := Alloc(h, l);
            || h'.lost == h.lost
            || (answer.Pointer? && |h'.lost| == |h.lost| + 1 && h'.lost[..|h.lost|] == h.lost
                && IsGap(h'.lost[|h.lost|], answer.addr, l))
  {
    if Alloc(h, l).1.Pointer? {
      var i, start := ChoiceExists(h, l);
      ChosenHeap(h, l, i, start);
      assert h.free[i] in h.free;
      RegionCutsWell(lo, hi, h.free[i], l);
      SizeAlignFacts(l);
      FrontIsGap(h.free[i], start, l);
    }
  }

  lemma FrontIsGap(r: Region, start: nat, l: Layout)
    requires r.start % 8 == 0 && start % 8 == 0 && r.start <= start < r.start + Max(l.align, NODE_ALIGN)
    ensures Front(r, start) == [] || (|Front(r, start)| == 1 && IsGap(Front(r, start)[0], start, l))
  {
  }

  lemma NoGapAtEight(lo: nat, hi: nat, h: Heap, l: Layout)
    requires GoodBounds(lo, hi) && GoodFree(lo, hi, h.free) && ValidLayout(l) && l.align <= NODE_ALIGN
    ensures Alloc(h, l).0.lost == h.lost
  {
    hide Alloc, GoodFree, ValidLayout;
    GapSize(lo, hi, h, l);
  }

  ghost predicate SmallAlignments(ops: seq<Op>) {
    forall op :: op in ops && op.AllocOp? ==> op.layout.align <= NODE_ALIGN
  }

  /** Nothing is ever lost to alignment in a run whose layouts all ask for at most 8. */
  lemma {:induction false} NothingLostAtEight(lo: nat, hi: nat, h: Heap, ops: seq<Op>)
    requires HeapInv(lo, hi, h) && LegalRun(h, ops) && SmallAlignments(ops)
    ensures Run(h, ops).lost == h.lost
    decreases |ops|
  {
    if ops != [] {
      hide Separate, Pieces, Balanced, GoodFree, GoodLive, GoodLost, Alloc;
      if ops[0].AllocOp? {
        assert ops[0] in ops;
        NoGapAtEight(lo, hi, h, ops[0].layout);
      }
      StepKeepsInv(lo, hi, h, ops[0]);
      NothingLostAtEight(lo, hi, Step(h, ops[0]), ops[1..]);
    }
  }

  // ----- what clients see

  /** A pointer answer is a new live block, safe at once; any other answer changes nothing. */
  lemma AnswerIsNewBlock(lo: nat, hi: nat, h: Heap, l: Layout)
    requires HeapInv(lo, hi, h) && ValidLayout(l)
    ensures var (h', answer) := Alloc(h, l);
            if answer.Pointer? then
              && h'.live == h.live + [Block(answer.addr, l)]
              && SafeBlock(lo, hi, h', |h.live|)
            else h' == h
  {
    if Alloc(h, l).1.Pointer? {
      AllocKeepsInv(lo, hi, h, l);
      hide HeapInv, SafeBlock;
      var i, start := ChoiceExists(h, l);
      ChosenHeap(h, l, i, start);
      hide Alloc, Chosen;
      LiveBlockSafe(lo, hi, Alloc(h, l).0, |h.live|);
    } else {
      NothingChosen(h, l);
    }
  }

  /** The answers to the allocations of a run, in order. */
  ghost function Answers(h: Heap, ops: seq<Op>): seq<Answer>
    requires LegalRun(h, ops)
    decreases |ops|
  {
    if ops == [] then []
    else AnswerTo(h, ops[0]) + Answers(Step(h, ops[0]), ops[1..])
  }

  ghost function AnswerTo(h: Heap, op: Op): seq<Answer>
    requires Legal(h, op)
  {
    match op
    case AllocOp(l) => [Alloc(h, l).1]
    case DeallocOp(_, _) => []
  }

  /** The blocks that the pointer answers to these calls stand for. */
  ghost function HandedOut(ops: seq<Op>, answers: seq<Answer>): multiset<Block>
    decreases |ops|
  {
    if ops == [] || (ops[0].AllocOp? && answers == []) then multiset{}
    else if ops[0].DeallocOp? then HandedOut(ops[1..], answers)
    else BlockAnswered(ops[0].layout, answers[0]) + HandedOut(ops[1..], answers[1..])
  }

  ghost function BlockAnswered(l: Layout, answer: Answer): multiset<Block> {
    if answer.Pointer? then multiset{Block(answer.addr, l)} else multiset{}
  }

  /** The blocks that these calls free. */
  ghost function TakenBack(ops: seq<Op>): multiset<Block>
    decreases |ops|
  {
    if ops == [] then multiset{}
    else FreedBy(ops[0]) + TakenBack(ops[1..])
  }

  ghost function FreedBy(op: Op): multiset<Block> {
    match op
    case AllocOp(_) => multiset{}
    case DeallocOp(ptr, l) => multiset{Block(ptr, l)}
  }

  lemma AnswersUnfold(h: Heap, ops: seq<Op>)
    requires LegalRun(h, ops) && ops != []
    ensures HandedOut(ops, Answers(h, ops))
            == HandedOut(ops[..1], AnswerTo(h, ops[0])) + HandedOut(ops[1..], Answers(Step(h, ops[0]), ops[1..]))
  {
    hide Alloc, Step;
    var answers, rest := Answers(h, ops), Answers(Step(h, ops[0]), ops[1..]);
    assert ops[..1][1..] == [];
    if ops[0].AllocOp? {
      assert answers[1..] == rest;
    } else {
      assert answers == rest;
    }
  }

  lemma StepBalance(h: Heap, op: Op)
    requires Legal(h, op)
    ensures multiset(Step(h, op).live) + FreedBy(op) == multiset(h.live) + HandedOut([op], AnswerTo(h, op))
  {
    assert [op][1..] == [];
    match op
    case AllocOp(l) =>
      if Alloc(h, l).1.Pointer? {
        var i, start := ChoiceExists(h, l);
        ChosenHeap(h, l, i, start);
        hide Alloc, Chosen;
      } else {
        NothingChosen(h, l);
      }
    case DeallocOp(ptr, l) => RemoveAtMultiset(h.live, IndexOf(h.live, Block(ptr, l)));
  }

  /**
   * Over any run the live blocks are those of the start, and those the answers handed out, without
   * those freed; so their number grows by the pointer answers and shrinks by the frees.
   */
  lemma LiveBlocksBalance(h: Heap, ops: seq<Op>)
    requires LegalRun(h, ops)
    ensures var h' := Run(h, ops);
            var out := HandedOut(ops, Answers(h, ops));
            && multiset(h'.live) + TakenBack(ops) == multiset(h.live) + out
            && |h'.live| == |h.live| + |out| - |TakenBack(ops)|
  {
    LiveBlocksAddUp(h, ops);
    hide Run, HandedOut, TakenBack, Answers, LegalRun;
    var live', live, out := multiset(Run(h, ops).live), multiset(h.live), HandedOut(ops, Answers(h, ops));
    assert |live' + TakenBack(ops)| == |live + out|;
  }

  lemma {:induction false} LiveBlocksAddUp(h: Heap, ops: seq<Op>)
    requires LegalRun(h, ops)
    ensures multiset(Run(h, ops).live) + TakenBack(ops) == multiset(h.live) + HandedOut(ops, Answers(h, ops))
    decreases |ops|
  {
    hide Step, HandedOut, FreedBy, AnswerTo;
    if ops == [] {
      NothingHandedOut(h, ops);
    } else {
      assert ops[..1] == [ops[0]];
      StepBalance(h, ops[0]);
      LiveBlocksAddUp(Step(h, ops[0]), ops[1..]);
      AnswersUnfold(h, ops);
      var h1, rest := Step(h, ops[0]), ops[1..];
      Telescope(multiset(h.live), HandedOut([ops[0]], AnswerTo(h, ops[0])), FreedBy(ops[0]), multiset(h1.live),
                HandedOut(rest, Answers(h1, rest)), TakenBack(rest), multiset(Run(h, ops).live));
    }
  }

  /** Two balances in a row make one. */
  lemma Telescope<T>(a: multiset<T>, in1: multiset<T>, out1: multiset<T>, b: multiset<T>,
                     in2: multiset<T>, out2: multiset<T>, c: multiset<T>)
    requires b + out1 == a + in1 && c + out2 == b + in2
    ensures c + (out1 + out2) == a + (in1 + in2)
  {
    assert c + (out1 + out2) == (c + out2) + out1 == (b + in2) + out1 == (b + out1) + in2;
  }

  lemma NothingHandedOut(h: Heap, ops: seq<Op>)
    requires ops == [] && LegalRun(h, ops)
    ensures HandedOut(ops, Answers(h, ops)) == multiset{}
  {
  }

  /** What is left of a run at position k, one call further. */
  lemma RunFrom(h: Heap, ops: seq<Op>, k: nat)
    requires k < |ops| && LegalRun(h, ops[k..])
    ensures Legal(h, ops[k]) && LegalRun(Step(h, ops[k]), ops[k + 1..])
    ensures Run(h, ops[k..]) == Run(Step(h, ops[k]), ops[k + 1..])
    ensures Answers(h, ops[k..]) == AnswerTo(h, ops[k]) + Answers(Step(h, ops[k]), ops[k + 1..])
  {
    hide Legal, Step, AnswerTo;
    assert ops[k..][0] == ops[k] && ops[k..][1..] == ops[k + 1..];
  }

  lemma RunNothing(h: Heap)
    ensures LegalRun(h, []) && Run(h, []) == h && Answers(h, []) == []
  {
  }

  lemma {:induction false} RunSnoc(h: Heap, ops: seq<Op>, op: Op)
    requires LegalRun(h, ops + [op])
    ensures LegalRun(h, ops) && Legal(Run(h, ops), op)
    ensures Run(h, ops + [op]) == Step(Run(h, ops), op)
    decreases |ops|
  {
    hide Legal, Step;
    if ops == [] {
      assert [op][1..] == [] && ops + [op] == [op];
    } else {
      assert (ops + [op])[1..] == ops[1..] + [op];
      RunSnoc(Step(h, ops[0]), ops[1..], op);
    }
  }

  /** A run that ends by freeing a block has that block, in its adjusted size, in front of its free list. */
  lemma FreedAtHead(lo: nat, hi: nat, h: Heap, ops: seq<Op>, ptr: nat, l: Layout)
    requires HeapInv(lo, hi, h) && LegalRun(h, ops + [DeallocOp(ptr, l)])
    ensures ValidLayout(l) && SizeAlign(l).Some? && LegalRun(h, ops)
    ensures var h' := Run(h, ops + [DeallocOp(ptr, l)]);
            && h'.free == [Region(ptr, SizeAlign(l).value.size)] + Run(h, ops).free
            && h'.lost == Run(h, ops).lost
            && Block(ptr, l) !in h'.live
  {
    RunSnoc(h, ops, DeallocOp(ptr, l));
    RunKeepsInv(lo, hi, h, ops);
    var h1 := Run(h, ops);
    hide Run, LegalRun;
    BlockSpan(lo, hi, Block(ptr, l));
    assert GoodBlock(lo, hi, Block(ptr, l));
    BlockSpanIs(ptr, l);
    LiveOnce(h1, Block(ptr, l));
  }

  lemma LiveOnce(h: Heap, b: Block)
    requires Separate(Pieces(h)) && b in h.live
    ensures b !in RemoveAt(h.live, IndexOf(h.live, b))
  {
    hide Separate, Pieces, Span, Spans;
    var k := IndexOf(h.live, b);
    var rest := RemoveAt(h.live, k);
    if b in rest {
      var j :| 0 <= j < |rest| && rest[j] == b;
      var i := if j < k then j else j + 1;
      assert h.live[i] == b && i != k;
      LiveApart(h, i, k);
      SpanNotEmpty(h, k);
      assert false;
    }
  }

  lemma SpanNotEmpty(h: Heap, k: nat)
    requires Separate(Pieces(h)) && k < |h.live|
    ensures !Disjoint(Span(h.live[k]), Span(h.live[k]))
  {
    assert Spans(h.live)[k] in Pieces(h);
  }

  // ----- freeing and allocating again

  /** Freeing a block and asking for the same layout returns the block and the prior free list. */
  lemma FreeThenReuse(lo: nat, hi: nat, h: Heap, ptr: nat, l: Layout)
    requires HeapInv(lo, hi, h) && Block(ptr, l) in h.live && ValidLayout(l)
    ensures var freed := Dealloc(h, ptr, l);
            var (again, answer) := Alloc(freed, l);
            && freed.free == [Span(Block(ptr, l))] + h.free
            && answer == Pointer(ptr)
            && again.free == h.free && again.lost == h.lost
            && multiset(again.live) == multiset(h.live)
  {
    var b := Block(ptr, l);
    var freed := Dealloc(h, ptr, l);
    ExactFitFirst(lo, hi, freed, ptr, l);
    ChosenHeap(freed, l, 0, ptr);
    assert RemoveAt(freed.free, 0) == h.free;
    RemoveAtMultiset(h.live, IndexOf(h.live, b));
    assert multiset(freed.live + [b]) == multiset(freed.live) + multiset{b};
  }

  lemma ExactFitFirst(lo: nat, hi: nat, h: Heap, ptr: nat, l: Layout)
    requires GoodBounds(lo, hi) && GoodBlock(lo, hi, Block(ptr, l))
    requires h.free != [] && h.free[0] == Span(Block(ptr, l))
    ensures Chosen(h, l, 0, ptr) && h.free[0].End() == ptr + SizeAlign(l).value.size
  {
    SizeAlignFacts(l);
    var a := SizeAlign(l).value;
    AlignUpIsLeast(ptr, a.align);
    assert AllocFromRegion(h.free[0], a.size, a.align) == Some(ptr);
  }
}
