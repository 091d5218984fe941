/**
 * The linked-list allocator in raw memory. A free region stores its own list node in its first
 * two words: its size, and the address of the next node (0 for none).
 */
module LinkedList {
  import opened Collections
  import opened Alignment
  import opened Memory
  import opened FreeList
  import HeapRuns

  /** The address of the node at position i, or 0 past the end. */
  function NodeAt(free: seq<Region>, i: nat): nat {
    if i < |free| then free[i].start else 0
  }

  ghost predicate IsNode(mem: Words, free: seq<Region>, i: nat)
    requires i < |free|
  {
    Read(mem, free[i].start) == free[i].size && Read(mem, free[i].start + 8) == NodeAt(free, i + 1)
  }

  /** The nodes in memory, from `first` on, describe exactly these regions in this order. */
  ghost predicate IsChain(mem: Words, first: nat, free: seq<Region>) {
    first == NodeAt(free, 0) && forall i :: 0 <= i < |free| ==> IsNode(mem, free, i)
  }

  /** The nodes are at real addresses and no two of them share a word. */
  ghost predicate NodesApart(free: seq<Region>) {
    && (forall i :: 0 <= i < |free| ==> free[i].start > 0 && free[i].size >= NODE_SIZE)
    && (forall i, j :: 0 <= i < j < |free| ==> Disjoint(free[i], free[j]))
  }

  ghost predicate AwayFrom(r: Region, free: seq<Region>) {
    forall i :: 0 <= i < |free| ==> Disjoint(r, free[i])
  }

  /** Follow `next` addresses through memory alone, for at most `fuel` nodes. */
  function Walk(mem: Words, first: nat, fuel: nat): seq<Region>
    decreases fuel
  {
    if first == 0 || fuel == 0 then []
    else [Region(first, Read(mem, first))] + Walk(mem, Read(mem, first + 8), fuel - 1)
  }

  /** Walking the raw words meets exactly the regions of the free list, then the end of the list. */
  lemma {:induction false} WalkFromNode(mem: Words, first: nat, free: seq<Region>, i: nat, fuel: nat)
    requires IsChain(mem, first, free) && NodesApart(free)
    requires i <= |free| && |free| - i <= fuel
    ensures Walk(mem, NodeAt(free, i), fuel) == free[i..]
    decreases fuel
  {
    if i < |free| {
      assert IsNode(mem, free, i);
      WalkFromNode(mem, first, free, i + 1, fuel - 1);
    }
  }

  /** Nodes of one list are at most as many as 16-byte pieces fit into the heap. */
  lemma WalkIsFreeList(lo: nat, hi: nat, h: Heap, mem: Words, first: nat)
    requires HeapInv(lo, hi, h) && IsChain(mem, first, h.free)
    ensures Walk(mem, first, (hi - lo) / 16) == h.free
    ensures forall more: nat :: (hi - lo) / 16 <= more ==> Walk(mem, first, more) == h.free
  {
    HeapRuns.PieceBound(lo, hi, h);
    FreeNodesApart(lo, hi, h);
    forall more: nat | (hi - lo) / 16 <= more
      ensures Walk(mem, first, more) == h.free
    {
      WalkFromNode(mem, first, h.free, 0, more);
    }
  }

  lemma FreeNodesApart(lo: nat, hi: nat, h: Heap)
    requires GoodFree(lo, hi, h.free) && Separate(Pieces(h))
    ensures NodesApart(h.free)
  {
    forall i | 0 <= i < |h.free|
      ensures h.free[i].start > 0 && h.free[i].size >= NODE_SIZE
    {
      assert h.free[i] in h.free;
    }
    forall i, j | 0 <= i < j < |h.free|
      ensures Disjoint(h.free[i], h.free[j])
    {
      HeapRuns.FreeApart(h, i, j);
    }
  }

  lemma NodeFacts(free: seq<Region>, i: nat)
    requires NodesApart(free) && i < |free|
    ensures free[i].start > 0 && free[i].size >= NODE_SIZE
    ensures i > 0 ==> free[i - 1].size >= NODE_SIZE && Disjoint(free[i - 1], free[i])
  {
  }

  // ----- what single writes do to a chain

  /** Relinking the node before position i, or the head, past the node at position i. */
  lemma UnlinkKeepsChain(mem: Words, first: nat, free: seq<Region>, i: nat, mem': Words, first': nat)
    requires IsChain(mem, first, free) && NodesApart(free) && i < |free|
    requires first' == if i == 0 then NodeAt(free, 1) else first
    requires forall a: nat ::
               a != free[i].start + 8 && (i == 0 || a != free[i - 1].start + 8) ==> Read(mem', a) == Read(mem, a)
    requires i > 0 ==> Read(mem', free[i - 1].start + 8) == NodeAt(free, i + 1)
    ensures IsChain(mem', first', RemoveAt(free, i)) && NodesApart(RemoveAt(free, i))
  {
    hide IsNode, NodesApart;
    var rest := RemoveAt(free, i);
    forall j | 0 <= j < |rest|
      ensures IsNode(mem', rest, j)
    {
      var k := if j < i then j else j + 1;
      assert IsNode(mem, free, k);
      UnlinkKeepsNode(mem, free, i, mem', j, k);
    }
    RestApart(free, i);
  }

  lemma UnlinkKeepsNode(mem: Words, free: seq<Region>, i: nat, mem': Words, j: nat, k: nat)
    requires NodesApart(free) && i < |free| && j + 1 < |free| && k == (if j < i then j else j + 1)
    requires IsNode(mem, free, k)
    requires forall a: nat ::
               a != free[i].start + 8 && (i == 0 || a != free[i - 1].start + 8) ==> Read(mem', a) == Read(mem, a)
    requires i > 0 ==> Read(mem', free[i - 1].start + 8) == NodeAt(free, i + 1)
    ensures IsNode(mem', RemoveAt(free, i), j)
  {
    hide NodesApart, RemoveAt, Read;
    NodeWordsDiffer(free, k, i);
    if i > 0 && k != i - 1 {
      NodeWordsDiffer(free, k, i - 1);
    }
    var rest := RemoveAt(free, i);
    var next := if k + 1 == i then i + 1 else k + 1;
    assert rest[j] == free[k] && NodeAt(rest, j + 1) == NodeAt(free, next);
    hide NodeAt;
    assert Read(mem', free[k].start) == Read(mem, free[k].start);
    assert Read(mem', free[k].start + 8) == NodeAt(free, next);
  }

  lemma RestApart(free: seq<Region>, i: nat)
    requires NodesApart(free) && i < |free|
    ensures NodesApart(RemoveAt(free, i))
  {
  }

  lemma NodeWordsDiffer(free: seq<Region>, k: nat, i: nat)
    requires NodesApart(free) && k < |free| && i < |free| && k != i
    ensures free[k].start != free[i].start + 8 && free[k].start + 8 != free[i].start + 8
  {
    assert Disjoint(free[if k < i then k else i], free[if k < i then i else k]);
  }

  /** Writing a new head node, in memory that no other node occupies. */
  lemma LinkKeepsChain(mem: Words, first: nat, free: seq<Region>, r: Region)
    requires IsChain(mem, first, free) && NodesApart(free)
    requires r.start > 0 && r.size >= NODE_SIZE && AwayFrom(r, free)
    ensures IsChain(mem[r.start := r.size][r.start + 8 := first], r.start, [r] + free)
    ensures NodesApart([r] + free)
  {
    var mem', free' := mem[r.start := r.size][r.start + 8 := first], [r] + free;
    forall j | 0 <= j < |free'|
      ensures IsNode(mem', free', j)
    {
      if j > 0 {
        assert free'[j] == free[j - 1] && IsNode(mem, free, j - 1) && Disjoint(r, free[j - 1]);
      }
    }
  }

  /** A write that no free region contains leaves the chain as it is. */
  lemma OutsideWriteKeepsChain(mem: Words, first: nat, free: seq<Region>, a: nat, v: nat)
    requires IsChain(mem, first, free) && NodesApart(free)
    requires AwayFrom(Region(a, 1), free)
    ensures IsChain(mem[a := v], first, free)
  {
    var mem' := mem[a := v];
    forall i | 0 <= i < |free|
      ensures IsNode(mem', free, i)
    {
      assert IsNode(mem, free, i) && Disjoint(Region(a, 1), free[i]);
    }
  }

  /** Words outside these regions are the same in both memories. */
  ghost predicate ChangesOnly(mem: Words, mem': Words, regions: seq<Region>) {
    forall a: nat :: Read(mem', a) != Read(mem, a) ==> exists r :: r in regions && r.start <= a < r.End()
  }

  lemma LiveUntouched(h: Heap, mem: Words, mem': Words, k: nat)
    requires Separate(Pieces(h)) && k < |h.live| && ChangesOnly(mem, mem', h.free)
    ensures SameBetween(mem, mem', Span(h.live[k]).start, Span(h.live[k]).End())
  {
    var s := Span(h.live[k]);
    forall a | s.start <= a < s.End()
      ensures Read(mem', a) == Read(mem, a)
    {
      if Read(mem', a) != Read(mem, a) {
        var r :| r in h.free && r.start <= a < r.End();
        HeapRuns.LiveFromFree(h, k, r);
        assert false;
      }
    }
  }

  class LinkedListAllocator {
    /** The words of the heap, shared with the clients. */
    var mem: Words
    /** The `next` field of the list head, which is not in the heap. */
    var headNext: nat

    ghost var lo: nat
    ghost var hi: nat
    ghost var heap: Heap

    ghost predicate Valid()
      reads this
    {
      HeapInv(lo, hi, heap) && IsChain(mem, headNext, heap.free)
    }

    constructor ()
      ensures Valid() && heap == EMPTY && lo == hi
    {
      mem, headNext := map[], 0;
      ghost var nowhere: nat :| nowhere <= ADDRESS_LIMIT;
      lo, hi, heap := nowhere, nowhere, EMPTY;
      new;
      HeapRuns.EmptyInv(lo, heap);
    }

    /** Fails an assertion exactly when the bounds are not those of an aligned region of 16 bytes or more. */
    method Init(heapStart: nat, heapSize: nat) returns (panicked: bool)
      requires Valid() && heap == EMPTY && lo == hi
      requires 0 < heapStart && heapStart + heapSize <= ADDRESS_LIMIT
      modifies this
      ensures panicked <==> heapStart % NODE_ALIGN != 0 || heapSize < NODE_SIZE
      ensures Valid()
      ensures if panicked then heap == EMPTY
              else heap == InitHeap(heapStart, heapSize) && lo == heapStart && hi == heapStart + heapSize
    {
      panicked := AddFreeRegion(heapStart, heapSize);
      if !panicked {
        assert heap.free == InitHeap(heapStart, heapSize).free;
        lo, hi, heap := heapStart, heapStart + heapSize, InitHeap(heapStart, heapSize);
        HeapRuns.InitKeepsInv(heapStart, heapSize);
      }
    }

    /** Puts a region at the front of the list, or fails an assertion and changes nothing. */
    method AddFreeRegion(addr: nat, size: nat) returns (panicked: bool)
      requires 0 < addr <= ADDRESS_LIMIT
      requires IsChain(mem, headNext, heap.free) && NodesApart(heap.free)
      requires AwayFrom(Region(addr, size), heap.free)
      modifies `mem, `headNext, `heap
      ensures panicked <==> addr % NODE_ALIGN != 0 || size < NODE_SIZE
      ensures panicked ==> mem == old(mem) && headNext == old(headNext) && heap == old(heap)
      ensures !panicked ==>
                && heap == old(heap).(free := [Region(addr, size)] + old(heap.free))
                && IsChain(mem, headNext, heap.free)
                && ChangesOnly(old(mem), mem, [Region(addr, size)])
    {
      AlignedAtEight(addr);
      if AlignUp(addr, NODE_ALIGN) != addr {
        return true;
      }
      if size < NODE_SIZE {
        return true;
      }
      var next := headNext;
      headNext := 0;
      mem := mem[addr := size];
      mem := mem[addr + 8 := next];
      headNext := addr;
      LinkKeepsChain(old(mem), next, heap.free, Region(addr, size));
      heap := heap.(free := [Region(addr, size)] + heap.free);
      assert Region(addr, size) in [Region(addr, size)];
      panicked := false;
    }

    /**
     * Walks the list with `current` one node behind, 0 standing for the head, and unlinks the
     * first suitable region.
     */
    method FindRegion(size: nat, align: nat) returns (found: Option<(nat, nat)>)
      requires 0 < align <= WORD_RANGE
      requires IsChain(mem, headNext, heap.free) && NodesApart(heap.free)
      modifies `mem, `headNext, `heap
      ensures IsChain(mem, headNext, heap.free) && NodesApart(heap.free)
      ensures ChangesOnly(old(mem), mem, old(heap.free))
      ensures match FirstFit(old(heap.free), size, align)
              case None => found == None && mem == old(mem) && heap == old(heap)
              case Some(i) =>
                && found == Some((old(heap.free)[i].start, AllocFromRegion(old(heap.free)[i], size, align).value))
                && Read(mem, old(heap.free)[i].start) == old(heap.free)[i].size
                && heap == old(heap).(free := RemoveAt(old(heap.free), i))
    {
      hide AllocFromRegion, NodesApart, FirstFit;
      ghost var free := heap.free;
      ghost var i := 0;
      var current := 0;
      var region := headNext;
      while region != 0
        invariant i <= |free| && region == NodeAt(free, i)
        invariant current == (if i == 0 then 0 else free[i - 1].start) && (i > 0 ==> current > 0)
        invariant forall j :: 0 <= j < i ==> !Suits(free[j], size, align)
        invariant heap == old(heap) && mem == old(mem) && headNext == old(headNext)
        decreases |free| - i
      {
        assert i < |free| && IsNode(mem, free, i);
        NodeFacts(free, i);
        assert Region(region, Read(mem, region)) == free[i];
        match AllocFromRegion(Region(region, Read(mem, region)), size, align) {
          case Some(allocStart) =>
            var next := Read(mem, region + 8);
            mem := mem[region + 8 := 0];
            if current == 0 {
              headNext := next;
            } else {
              mem := mem[current + 8 := next];
            }
            FirstFitUnique(free, size, align, i);
            ghost var before := if i == 0 then free[i] else free[i - 1];
            assert before in free && free[i] in free;
            UnlinkKeepsChain(old(mem), old(headNext), free, i, mem, headNext);
            heap := heap.(free := RemoveAt(free, i));
            return Some((region, allocStart));
          case None =>
            current := region;
            region := Read(mem, current + 8);
            i := i + 1;
        }
      }
      assert i == |free| by {
        if i < |free| {
          NodeFacts(free, i);
        }
      }
      found := None;
    }

    /**
     * Refines `FreeList.Alloc`, and writes no byte of a block that is live. A pointer answer is a new
     * live block, aligned, large enough and apart from everything else; any other answer changes nothing.
     */
    method Alloc(layout: Layout) returns (answer: Answer)
      requires Valid() && ValidLayout(layout)
      modifies `mem, `headNext, `heap
      ensures Valid()
      ensures (heap, answer) == FreeList.Alloc(old(heap), layout)
      ensures answer == Panicked <==> layout.align < NODE_ALIGN && layout.size > ISIZE_MAX - 7
      ensures if answer.Pointer? then
                && heap.live == old(heap.live) + [Block(answer.addr, layout)]
                && HeapRuns.SafeBlock(lo, hi, heap, |old(heap.live)|)
              else heap == old(heap) && mem == old(mem)
      ensures ChangesOnly(old(mem), mem, old(heap.free))
      ensures forall k :: 0 <= k < |old(heap.live)| ==>
                var s := Span(old(heap.live)[k]); SameBetween(old(mem), mem, s.start, s.End())
    {
      hide HeapInv, FreeList.Alloc, NodesApart, IsChain, AwayFrom, FirstFit, AllocFromRegion, SizeAlign, Span, Spans;
      hide HeapRuns.SafeBlock;
      ghost var h := heap;
      BeforeAlloc(lo, hi, h, layout);
      HeapRuns.AnswerIsNewBlock(lo, hi, h, layout);
      match SizeAlign(layout) {
        case None =>
          answer := Panicked;
        case Some(a) =>
          var found := FindRegion(a.size, a.align);
          match found {
            case None =>
              answer := Null;
            case Some((region, allocStart)) =>
              ghost var i := FirstFit(h.free, a.size, a.align).value;
              CutFacts(lo, hi, h, layout, i, allocStart);
              var allocEnd := allocStart + a.size;
              var excess := region + Read(mem, region) - allocEnd;
              if excess > 0 {
                ghost var unlinked := mem;
                var panicked := AddFreeRegion(allocEnd, excess);
                assert !panicked;
                TwoChanges(old(mem), unlinked, mem, h.free, i, Region(allocEnd, excess));
              }
              assert heap.free == FreeList.Alloc(h, layout).0.free;
              heap := FreeList.Alloc(h, layout).0;
              answer := Pointer(allocStart);
          }
      }
      LiveAllUntouched(lo, hi, h, old(mem), mem);
    }

    /** Refines `FreeList.Dealloc` without failing, and writes only bytes of the block it is given. */
    method Dealloc(ptr: nat, layout: Layout) returns (panicked: bool)
      requires Valid() && Block(ptr, layout) in heap.live
      modifies `mem, `headNext, `heap
      ensures Valid() && !panicked
      ensures heap == FreeList.Dealloc(old(heap), ptr, layout)
      ensures ChangesOnly(old(mem), mem, [Span(Block(ptr, layout))])
    {
      hide HeapInv;
      ghost var h := heap;
      BeforeDealloc(lo, hi, h, ptr, layout);
      var a := SizeAlign(layout).value;
      panicked := AddFreeRegion(ptr, a.size);
      heap := FreeList.Dealloc(h, ptr, layout);
    }

    /**
     * Serves a run of calls. The heap and the answers are those of `HeapRuns`, and a block that is
     * live at the start and not freed keeps every word.
     */
    method Serve(ops: seq<HeapRuns.Op>) returns (answers: seq<Answer>)
      requires Valid() && HeapRuns.LegalRun(heap, ops)
      modifies `mem, `headNext, `heap
      ensures Valid() && heap == HeapRuns.Run(old(heap), ops)
      ensures answers == HeapRuns.Answers(old(heap), ops)
      ensures BlocksKept(old(heap), ops, old(mem), heap, mem)
    {
      hide HeapInv, IsChain, FreeList.Alloc, FreeList.Dealloc, Span, BlocksKept;
      hide HeapRuns.SafeBlock, HeapRuns.Run, HeapRuns.LegalRun, HeapRuns.Answers;
      ghost var h, m := heap, mem;
      answers := [];
      var k := 0;
      assert ops[0..] == ops;
      NoCallKeeps(h, ops, m);
      while k < |ops|
        invariant k <= |ops| && Valid() && HeapRuns.LegalRun(heap, ops[k..])
        invariant HeapRuns.Run(heap, ops[k..]) == HeapRuns.Run(h, ops)
        invariant answers + HeapRuns.Answers(heap, ops[k..]) == HeapRuns.Answers(h, ops)
        invariant BlocksKept(h, ops, m, heap, mem)
      {
        ghost var before, words := heap, mem;
        HeapRuns.RunFrom(heap, ops, k);
        match ops[k] {
          case AllocOp(layout) =>
            var answer := Alloc(layout);
            answers := answers + [answer];
            AllocKeepsBlocks(h, ops, m, before, words, layout, heap, mem);
          case DeallocOp(ptr, layout) =>
            var panicked := Dealloc(ptr, layout);
            DeallocKeepsBlocks(lo, hi, h, ops, m, before, words, k, heap, mem);
        }
        assert heap == HeapRuns.Step(before, ops[k]);
        k := k + 1;
      }
      assert ops[k..] == [];
      HeapRuns.RunNothing(heap);
    }

    /** A client writes one word of a block that is live: the allocator's state is not affected. */
    method ClientWrite(ghost k: nat, a: nat, v: nat)
      requires Valid() && k < |heap.live|
      requires Span(heap.live[k]).start <= a < Span(heap.live[k]).End()
      modifies `mem
      ensures Valid() && mem == old(mem)[a := v]
    {
      hide HeapInv, IsChain, NodesApart, AwayFrom;
      LiveWordAway(lo, hi, heap, k, a);
      OutsideWriteKeepsChain(mem, headNext, heap.free, a, v);
      mem := mem[a := v];
    }
  }

  /** Blocks live at the start that these calls do not free are still live, with the same words. */
  ghost predicate BlocksKept(h: Heap, ops: seq<HeapRuns.Op>, mem: Words, h': Heap, mem': Words) {
    forall b :: b in h.live && b !in HeapRuns.TakenBack(ops) ==>
      b in h'.live && SameBetween(mem, mem', Span(b).start, Span(b).End())
  }

  lemma NoCallKeeps(h: Heap, ops: seq<HeapRuns.Op>, mem: Words)
    ensures BlocksKept(h, ops, mem, h, mem)
  {
  }

  lemma AllocKeepsBlocks(h: Heap, ops: seq<HeapRuns.Op>, mem: Words, h1: Heap, mem1: Words, l: Layout, h2: Heap, mem2: Words)
    requires BlocksKept(h, ops, mem, h1, mem1)
    requires forall b :: b in h1.live ==> b in h2.live
    requires forall k :: 0 <= k < |h1.live| ==>
               var s := Span(h1.live[k]); SameBetween(mem1, mem2, s.start, s.End())
    ensures BlocksKept(h, ops, mem, h2, mem2)
  {
    hide Span, HeapRuns.TakenBack;
    forall b | b in h.live && b !in HeapRuns.TakenBack(ops)
      ensures b in h2.live && SameBetween(mem, mem2, Span(b).start, Span(b).End())
    {
      var k :| 0 <= k < |h1.live| && h1.live[k] == b;
      assert SameBetween(mem1, mem2, Span(h1.live[k]).start, Span(h1.live[k]).End());
    }
  }

  lemma DeallocKeepsBlocks(lo: nat, hi: nat, h: Heap, ops: seq<HeapRuns.Op>, mem: Words,
                           h1: Heap, mem1: Words, k: nat, h2: Heap, mem2: Words)
    requires BlocksKept(h, ops, mem, h1, mem1) && HeapInv(lo, hi, h1)
    requires k < |ops| && ops[k].DeallocOp? && HeapRuns.Legal(h1, ops[k])
    requires h2 == FreeList.Dealloc(h1, ops[k].ptr, ops[k].layout)
    requires ChangesOnly(mem1, mem2, [Span(Block(ops[k].ptr, ops[k].layout))])
    ensures BlocksKept(h, ops, mem, h2, mem2)
  {
    hide Span, Separate, Pieces, HeapRuns.TakenBack;
    var freed := Block(ops[k].ptr, ops[k].layout);
    FreedInRun(ops, k);
    forall b | b in h.live && b !in HeapRuns.TakenBack(ops)
      ensures b in h2.live && SameBetween(mem, mem2, Span(b).start, Span(b).End())
    {
      OtherBlockStays(h1, freed, b, mem1, mem2);
    }
  }

  lemma {:induction false} FreedInRun(ops: seq<HeapRuns.Op>, k: nat)
    requires k < |ops| && ops[k].DeallocOp?
    ensures Block(ops[k].ptr, ops[k].layout) in HeapRuns.TakenBack(ops)
    decreases |ops|
  {
    if k > 0 {
      FreedInRun(ops[1..], k - 1);
    }
  }

  /** Freeing one block neither ends the life of another nor writes to it. */
  lemma OtherBlockStays(h: Heap, freed: Block, b: Block, mem: Words, mem': Words)
    requires Separate(Pieces(h)) && freed in h.live && b in h.live && b != freed
    requires ChangesOnly(mem, mem', [Span(freed)])
    ensures b in RemoveAt(h.live, IndexOf(h.live, freed))
    ensures SameBetween(mem, mem', Span(b).start, Span(b).End())
  {
    hide Span, Separate, Pieces;
    var i, j := IndexOf(h.live, freed), IndexOf(h.live, b);
    var rest := RemoveAt(h.live, i);
    assert rest[if j < i then j else j - 1] == b;
    HeapRuns.LiveApart(h, j, i);
    var r, s := Span(b), Span(freed);
    forall a | r.start <= a < r.End()
      ensures Read(mem', a) == Read(mem, a)
    {
      if Read(mem', a) != Read(mem, a) {
        assert false;
      }
    }
  }

  lemma AlignedAtEight(addr: nat)
    requires addr <= ADDRESS_LIMIT
    ensures AlignUp(addr, NODE_ALIGN) == addr <==> addr % NODE_ALIGN == 0
  {
    assert Pow2(3) == 8;
    AlignUpIsLeast(addr, NODE_ALIGN);
  }

  /** The tail of region i is away from every other region of the list. */
  lemma TailAway(free: seq<Region>, i: nat, tail: Region)
    requires NodesApart(free) && i < |free| && Inside(tail, free[i])
    ensures AwayFrom(tail, RemoveAt(free, i))
  {
    var rest := RemoveAt(free, i);
    forall j | 0 <= j < |rest|
      ensures Disjoint(tail, rest[j])
    {
      var k := if j < i then j else j + 1;
      assert Disjoint(free[if k < i then k else i], free[if k < i then i else k]);
    }
  }

  lemma LiveAllUntouched(lo: nat, hi: nat, h: Heap, mem: Words, mem': Words)
    requires HeapInv(lo, hi, h) && ChangesOnly(mem, mem', h.free)
    ensures forall k :: 0 <= k < |h.live| ==>
              var s := Span(h.live[k]); SameBetween(mem, mem', s.start, s.End())
  {
    forall k | 0 <= k < |h.live|
      ensures SameBetween(mem, mem', Span(h.live[k]).start, Span(h.live[k]).End())
    {
      LiveUntouched(h, mem, mem', k);
    }
  }

  lemma LiveWordAway(lo: nat, hi: nat, h: Heap, k: nat, a: nat)
    requires HeapInv(lo, hi, h) && k < |h.live|
    requires Span(h.live[k]).start <= a < Span(h.live[k]).End()
    ensures NodesApart(h.free) && AwayFrom(Region(a, 1), h.free)
  {
    FreeNodesApart(lo, hi, h);
    BlockAway(h, h.live[k]);
  }

  lemma BeforeAlloc(lo: nat, hi: nat, h: Heap, l: Layout)
    requires HeapInv(lo, hi, h) && ValidLayout(l)
    ensures HeapInv(lo, hi, FreeList.Alloc(h, l).0)
    ensures NodesApart(h.free)
    ensures FreeList.Alloc(h, l).1 == Panicked <==> l.align < NODE_ALIGN && l.size > ISIZE_MAX - 7
    ensures match SizeAlign(l)
            case None => FreeList.Alloc(h, l) == (h, Panicked)
            case Some(a) =>
              && 0 < a.align <= WORD_RANGE
              && match FirstFit(h.free, a.size, a.align)
                 case None => FreeList.Alloc(h, l) == (h, Null)
                 case Some(i) => HeapRuns.Chosen(h, l, i, AllocFromRegion(h.free[i], a.size, a.align).value)
  {
    HeapRuns.NoInternalFailure(lo, hi, h, l);
    HeapRuns.AllocKeepsInv(lo, hi, h, l);
    FreeNodesApart(lo, hi, h);
  }

  lemma BeforeDealloc(lo: nat, hi: nat, h: Heap, ptr: nat, l: Layout)
    requires HeapInv(lo, hi, h) && Block(ptr, l) in h.live
    ensures HeapInv(lo, hi, FreeList.Dealloc(h, ptr, l))
    ensures NodesApart(h.free) && AwayFrom(Span(Block(ptr, l)), h.free)
    ensures SizeAlign(l).Some? && Span(Block(ptr, l)) == Region(ptr, SizeAlign(l).value.size)
    ensures 0 < ptr <= ADDRESS_LIMIT && ptr % NODE_ALIGN == 0 && SizeAlign(l).value.size >= NODE_SIZE
  {
    HeapRuns.BlockSpan(lo, hi, Block(ptr, l));
    SizeAlignFacts(l);
    HeapRuns.DeallocKeepsInv(lo, hi, h, ptr, l);
    FreeNodesApart(lo, hi, h);
    BlockAway(h, Block(ptr, l));
  }

  /** What `alloc` needs to know about the region it has just unlinked. */
  lemma CutFacts(lo: nat, hi: nat, h: Heap, l: Layout, i: nat, start: nat)
    requires HeapInv(lo, hi, h) && NodesApart(h.free)
    requires HeapRuns.Chosen(h, l, i, start)
    ensures var r, end := h.free[i], start + SizeAlign(l).value.size;
            && end <= r.End() <= ADDRESS_LIMIT
            && FreeList.Alloc(h, l).0.free
               == (if end < r.End() then [Region(end, r.End() - end)] else []) + RemoveAt(h.free, i)
            && FreeList.Alloc(h, l).1 == Pointer(start)
            && (end < r.End() ==>
                  && 0 < end && end % NODE_ALIGN == 0 && r.End() - end >= NODE_SIZE
                  && Inside(Region(end, r.End() - end), r)
                  && AwayFrom(Region(end, r.End() - end), RemoveAt(h.free, i)))
  {
    HeapRuns.ChosenHeap(h, l, i, start);
    CutRegionFacts(lo, hi, h, l, i, start);
    hide FreeList.Alloc, SizeAlign, FirstFit, AllocFromRegion, HeapInv, HeapRuns.Chosen, NodesApart, RemoveAt, AwayFrom;
    var r, end := h.free[i], start + SizeAlign(l).value.size;
    if end < r.End() {
      TailAway(h.free, i, Region(end, r.End() - end));
    }
  }

  lemma CutRegionFacts(lo: nat, hi: nat, h: Heap, l: Layout, i: nat, start: nat)
    requires GoodBounds(lo, hi) && GoodFree(lo, hi, h.free)
    requires HeapRuns.Chosen(h, l, i, start)
    ensures var r, end := h.free[i], start + SizeAlign(l).value.size;
            && end <= r.End() <= ADDRESS_LIMIT && 0 < end
            && (end < r.End() ==>
                  end % NODE_ALIGN == 0 && r.End() - end >= NODE_SIZE && Inside(Region(end, r.End() - end), r))
  {
    assert h.free[i] in h.free && GoodFreeRegion(lo, hi, h.free[i]);
    HeapRuns.RegionCutsWell(lo, hi, h.free[i], l);
    hide GoodFree, SizeAlign, FirstFit;
  }

  lemma TwoChanges(m0: Words, m1: Words, m2: Words, free: seq<Region>, i: nat, tail: Region)
    requires ChangesOnly(m0, m1, free) && ChangesOnly(m1, m2, [tail])
    requires i < |free| && Inside(tail, free[i])
    ensures ChangesOnly(m0, m2, free)
  {
    forall a: nat | Read(m2, a) != Read(m0, a)
      ensures exists r :: r in free && r.start <= a < r.End()
    {
      if Read(m2, a) != Read(m1, a) {
        assert free[i] in free;
      }
    }
  }

  lemma BlockAway(h: Heap, b: Block)
    requires Separate(Pieces(h)) && b in h.live
    ensures AwayFrom(Span(b), h.free)
  {
    var k :| 0 <= k < |h.live| && h.live[k] == b;
    forall i | 0 <= i < |h.free|
      ensures Disjoint(Span(b), h.free[i])
    {
      assert h.free[i] in h.free;
      HeapRuns.LiveFromFree(h, k, h.free[i]);
    }
  }
}
