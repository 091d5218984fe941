/**
 * The first-fit heap on values: the free list in list order, the blocks handed out, and the
 * gaps that alignment has cut off for good. The allocator in raw memory refines this.
 */
module FreeList {
  import opened Collections
  import opened Alignment

  const NODE_SIZE: nat := 16
  const NODE_ALIGN: nat := 8
  const ISIZE_MAX: nat := 0x7FFF_FFFF_FFFF_FFFF
  /** Heaps lie in the lower half of the address space. */
  const ADDRESS_LIMIT: nat := 0x8000_0000_0000_0000

  datatype Region = Region(start: nat, size: nat) {
    function End(): nat { start + size }
  }

  datatype Layout = Layout(size: nat, align: nat)

  /** What a `Layout` value promises: rounding its size up to its alignment stays in `isize`. */
  ghost predicate ValidLayout(l: Layout) {
    IsPow2(l.align) && l.size + l.align - 1 <= ISIZE_MAX
  }

  datatype Adjusted = Adjusted(size: nat, align: nat)

  /** The size and alignment used for a layout, or None where `align_to` fails and the call panics. */
  function SizeAlign(l: Layout): Option<Adjusted>
    requires l.align <= WORD_RANGE
  {
    var align := Max(l.align, NODE_ALIGN);
    if l.size + align > ISIZE_MAX + 1 then None
    else Some(Adjusted(Max(AlignUp(l.size, align), NODE_SIZE), align))
  }

  /**
   * The adjusted size is the least multiple of the adjusted alignment that holds the layout and a
   * list node; only an empty layout may end with 16 bytes whatever its alignment. Adjusting fails
   * exactly for an alignment below 8 and a size within 7 of the limit.
   */
  lemma SizeAlignFacts(l: Layout)
    requires ValidLayout(l)
    ensures SizeAlign(l).None? <==> l.align < NODE_ALIGN && l.size > ISIZE_MAX - 7
    ensures SizeAlign(l).Some? ==>
              var a := SizeAlign(l).value;
              && a.align == Max(l.align, NODE_ALIGN) && IsPow2(a.align) && a.align <= ADDRESS_LIMIT
              && a.size % 8 == 0 && NODE_SIZE <= a.size <= ISIZE_MAX && l.size <= a.size
              && (if l.size == 0 then a.size == NODE_SIZE else a.size % a.align == 0)
              && (forall m: nat :: m % a.align == 0 && NODE_SIZE <= m && l.size <= m ==> a.size <= m)
  {
    var align := Max(l.align, NODE_ALIGN);
    assert Pow2(3) == 8;
    if l.size + align <= ISIZE_MAX + 1 {
      var up := AlignUp(l.size, align);
      AlignUpIsLeast(l.size, align);
      hide AlignUp, IsPow2;
      MultipleOfEight(up, align);
      SmallMultiple(up, align);
      if l.size == 0 {
        assert up <= 0 by { assert 0 % align == 0; }
      }
    }
  }

  /** A positive multiple of an alignment, when it is below 16, is 8 and so is the alignment. */
  lemma SmallMultiple(x: nat, align: nat)
    requires 8 <= align && x % 8 == 0 && x % align == 0
    ensures 0 < x < NODE_SIZE ==> x == 8 && align == 8
  {
    if 0 < x < NODE_SIZE && align > x {
      DivModUnique(x, align, 0, x);
    }
  }

  /** Where a block of this size and alignment would start in the region, if the region is suitable. */
  function AllocFromRegion(region: Region, size: nat, align: nat): Option<nat>
    requires 0 < align <= WORD_RANGE
  {
    var allocStart := AlignUp(region.start, align);
    if allocStart + size >= WORD_RANGE then None
    else
      var allocEnd := allocStart + size;
      if allocEnd > region.End() then None
      else
        var excess := region.End() - allocEnd;
        if 0 < excess < NODE_SIZE then None else Some(allocStart)
  }

  predicate Suits(region: Region, size: nat, align: nat)
    requires 0 < align <= WORD_RANGE
  {
    AllocFromRegion(region, size, align).Some?
  }

  /** The position of the first suitable region in list order. */
  function FirstFit(free: seq<Region>, size: nat, align: nat): (i: Option<nat>)
    requires 0 < align <= WORD_RANGE
    ensures i.Some? ==> i.value < |free| && Suits(free[i.value], size, align)
    ensures i.Some? ==> forall j :: 0 <= j < i.value ==> !Suits(free[j], size, align)
    ensures i.None? ==> forall j :: 0 <= j < |free| ==> !Suits(free[j], size, align)
  {
    if free == [] then None
    else if Suits(free[0], size, align) then Some(0)
    else match FirstFit(free[1..], size, align)
         case None => None
         case Some(i) => Some(i + 1)
  }

  lemma FirstFitUnique(free: seq<Region>, size: nat, align: nat, i: nat)
    requires 0 < align <= WORD_RANGE
    requires i < |free| && Suits(free[i], size, align)
    requires forall j :: 0 <= j < i ==> !Suits(free[j], size, align)
    ensures FirstFit(free, size, align) == Some(i)
  {
  }

  datatype Block = Block(start: nat, layout: Layout)

  /** The bytes a block occupies: its adjusted size, not only the bytes the client asked for. */
  function Span(b: Block): Region {
    if b.layout.align <= WORD_RANGE && SizeAlign(b.layout).Some?
    then Region(b.start, SizeAlign(b.layout).value.size)
    else Region(b.start, 0)
  }

  function Spans(live: seq<Block>): (r: seq<Region>)
    ensures |r| == |live|
    ensures forall i :: 0 <= i < |r| ==> r[i] == Span(live[i])
  {
    if live == [] then [] else Spans(live[..|live| - 1]) + [Span(live[|live| - 1])]
  }

  datatype Heap = Heap(free: seq<Region>, live: seq<Block>, lost: seq<Region>)

  const EMPTY: Heap := Heap([], [], [])

  datatype Answer = Panicked | Null | Pointer(addr: nat)

  function InitHeap(start: nat, size: nat): Heap {
    Heap([Region(start, size)], [], [])
  }

  /** The bytes of `region` before, within and after a block [start, start + size). */
  function Front(region: Region, start: nat): seq<Region> {
    if region.start < start then [Region(region.start, start - region.start)] else []
  }

  function Back(region: Region, end: nat): seq<Region> {
    if end < region.End() then [Region(end, region.End() - end)] else []
  }

  /** One `alloc` call: the new heap and the returned pointer. */
  function Alloc(h: Heap, l: Layout): (Heap, Answer)
    requires ValidLayout(l)
  {
    match SizeAlign(l)
    case None => (h, Panicked)
    case Some(a) =>
      SizeAlignFacts(l);
      match FirstFit(h.free, a.size, a.align)
      case None => (h, Null)
      case Some(i) =>
        var start := AllocFromRegion(h.free[i], a.size, a.align).value;
        (Heap(Back(h.free[i], start + a.size) + RemoveAt(h.free, i),
              h.live + [Block(start, l)],
              h.lost + Front(h.free[i], start)),
         Pointer(start))
  }

  /** One `dealloc` call for a live block. */
  function Dealloc(h: Heap, ptr: nat, l: Layout): Heap
    requires Block(ptr, l) in h.live
  {
    Heap([Span(Block(ptr, l))] + h.free, RemoveAt(h.live, IndexOf(h.live, Block(ptr, l))), h.lost)
  }

  // ----- the heap invariant

  ghost predicate Disjoint(a: Region, b: Region) {
    a.End() <= b.start || b.End() <= a.start
  }

  ghost predicate Inside(a: Region, b: Region) {
    b.start <= a.start && a.End() <= b.End()
  }

  ghost function Pieces(h: Heap): multiset<Region> {
    multiset(h.free) + multiset(Spans(h.live)) + multiset(h.lost)
  }

  /** No piece is empty, none is listed twice, and no two of them share a byte. */
  ghost predicate Separate(m: multiset<Region>) {
    && (forall r :: r in m ==> r.size > 0 && m[r] == 1)
    && (forall r, s :: r in m && s in m && r != s ==> Disjoint(r, s))
  }

  /** The bytes of the first n regions. */
  function SizeUpTo(s: seq<Region>, n: nat): nat
    requires n <= |s|
  {
    if n == 0 then 0 else SizeUpTo(s, n - 1) + s[n - 1].size
  }

  function TotalSize(s: seq<Region>): nat {
    SizeUpTo(s, |s|)
  }

  /** The bounds of a heap, in the lower half of the address space. */
  ghost predicate GoodBounds(lo: nat, hi: nat) {
    lo <= hi <= ADDRESS_LIMIT
  }

  ghost predicate GoodFreeRegion(lo: nat, hi: nat, r: Region) {
    0 < r.start && lo <= r.start && r.End() <= hi && r.start % NODE_ALIGN == 0 && r.size >= NODE_SIZE
  }

  ghost predicate GoodFree(lo: nat, hi: nat, free: seq<Region>) {
    forall r :: r in free ==> GoodFreeRegion(lo, hi, r)
  }

  ghost predicate GoodBlock(lo: nat, hi: nat, b: Block) {
    && ValidLayout(b.layout) && SizeAlign(b.layout).Some?
    && 0 < b.start && lo <= b.start && b.start + SizeAlign(b.layout).value.size <= hi
    && b.start % SizeAlign(b.layout).value.align == 0
  }

  ghost predicate GoodLive(lo: nat, hi: nat, live: seq<Block>) {
    forall b :: b in live ==> GoodBlock(lo, hi, b)
  }

  ghost predicate GoodLost(lo: nat, hi: nat, lost: seq<Region>) {
    forall r :: r in lost ==> lo <= r.start && r.End() <= hi && r.size >= 8 && r.size % 8 == 0
  }

  ghost predicate Balanced(lo: nat, hi: nat, h: Heap) {
    TotalSize(h.free) + TotalSize(Spans(h.live)) + TotalSize(h.lost) == hi - lo
  }

  ghost predicate HeapInv(lo: nat, hi: nat, h: Heap) {
    && GoodBounds(lo, hi)
    && GoodFree(lo, hi, h.free)
    && GoodLive(lo, hi, h.live)
    && GoodLost(lo, hi, h.lost)
    && Separate(Pieces(h))
    && Balanced(lo, hi, h)
  }

  // ----- lemmas about totals and pieces

  lemma {:induction false} SizeUpToAppend(s: seq<Region>, t: seq<Region>, n: nat)
    requires n <= |s| + |t|
    ensures SizeUpTo(s + t, n)
            == if n <= |s| then SizeUpTo(s, n) else TotalSize(s) + SizeUpTo(t, n - |s|)
  {
    if n > 0 {
      SizeUpToAppend(s, t, n - 1);
    }
  }

  lemma TotalAppend(s: seq<Region>, t: seq<Region>)
    ensures TotalSize(s + t) == TotalSize(s) + TotalSize(t)
  {
    SizeUpToAppend(s, t, |s| + |t|);
  }

  lemma TotalOne(r: Region)
    ensures TotalSize([r]) == r.size
  {
    assert SizeUpTo([r], 1) == SizeUpTo([r], 0) + r.size;
  }

  lemma TotalRemoveAt(s: seq<Region>, k: nat)
    requires k < |s|
    ensures TotalSize(s) == TotalSize(RemoveAt(s, k)) + s[k].size
  {
    assert s == s[..k] + ([s[k]] + s[k + 1..]);
    TotalAppend(s[..k], [s[k]] + s[k + 1..]);
    TotalAppend([s[k]], s[k + 1..]);
    TotalOne(s[k]);
    TotalAppend(s[..k], s[k + 1..]);
  }

  lemma {:induction false} SizeUpToAtLeast(s: seq<Region>, least: nat, n: nat)
    requires n <= |s| && forall r :: r in s ==> r.size >= least
    ensures SizeUpTo(s, n) >= least * n
  {
    if n > 0 {
      SizeUpToAtLeast(s, least, n - 1);
      assert s[n - 1] in s;
    }
  }

  lemma SpansRemoveAt(live: seq<Block>, k: nat)
    requires k < |live|
    ensures Spans(RemoveAt(live, k)) == RemoveAt(Spans(live), k)
  {
    hide Span, Spans;
  }

  lemma SpansAppend(live: seq<Block>, b: Block)
    ensures Spans(live + [b]) == Spans(live) + [Span(b)]
  {
    hide Span, Spans;
  }

  /** Replacing a piece by separate parts of itself keeps all pieces separate. */
  lemma SplitKeepsSeparate(m: multiset<Region>, r: Region, parts: multiset<Region>)
    requires Separate(m) && r in m && Separate(parts)
    requires forall p :: p in parts ==> Inside(p, r)
    ensures Separate(m - multiset{r} + parts)
  {
    var rest := m - multiset{r};
    forall x | x in rest
      ensures x in m && x != r && Disjoint(x, r) && rest[x] == 1 && x !in parts
    {
      assert m[r] == 1;
    }
  }
}
