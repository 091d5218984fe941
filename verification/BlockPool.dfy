/**
 * Nine stacks of equal blocks over a fallback allocator, on values. The fallback is known only by
 * what its answers promise, so everything here holds over any fallback that keeps the promise.
 */
module BlockPool {
  import opened Collections
  import opened Alignment
  import opened FreeList

  const CLASSES: nat := 9

  function BlockSizes(): seq<nat> {
    [8, 16, 32, 64, 128, 256, 512, 1024, 2048]
  }

  /** The position of the first size that is at least `required`. */
  function Position(sizes: seq<nat>, required: nat): (i: Option<nat>)
    ensures i.Some? ==> i.value < |sizes| && sizes[i.value] >= required
    ensures i.Some? ==> forall j :: 0 <= j < i.value ==> sizes[j] < required
    ensures i.None? ==> forall j :: 0 <= j < |sizes| ==> sizes[j] < required
  {
    if sizes == [] then None
    else if sizes[0] >= required then Some(0)
    else match Position(sizes[1..], required)
         case None => None
         case Some(i) => Some(i + 1)
  }

  function ListIndex(l: Layout): Option<nat> {
    Position(BlockSizes(), Max(l.size, l.align))
  }

  function BlockSize(i: nat): nat
    requires i < CLASSES
  {
    BlockSizes()[i]
  }

  /** The layout asked of the fallback for a block of class i. */
  function ClassLayout(i: nat): Layout
    requires i < CLASSES
  {
    Layout(BlockSize(i), BlockSize(i))
  }

  lemma SizesFacts()
    ensures |BlockSizes()| == CLASSES
    ensures forall i, j :: 0 <= i < j < CLASSES ==> BlockSizes()[i] < BlockSizes()[j]
    ensures forall i :: 0 <= i < CLASSES ==> 8 <= BlockSizes()[i] <= 2048
  {
  }

  lemma SizeIsPow2(i: nat)
    requires i < CLASSES
    ensures |BlockSizes()| == CLASSES && BlockSize(i) == Pow2(i + 3)
  {
    assert Pow2(3) == 8;
    assert Pow2(4) == 16 && Pow2(5) == 32 && Pow2(6) == 64;
    assert Pow2(7) == 2 * Pow2(6) && Pow2(8) == 2 * Pow2(7) && Pow2(9) == 2 * Pow2(8);
    assert Pow2(10) == 2 * Pow2(9) && Pow2(11) == 2 * Pow2(10);
  }

  /** The class is the least one whose blocks are large and aligned enough. */
  lemma ListIndexIsLeast(l: Layout)
    ensures match ListIndex(l)
            case Some(i) =>
              i < CLASSES
              && forall j: nat :: j < CLASSES ==> (i <= j <==> BlockSize(j) >= Max(l.size, l.align))
            case None => Max(l.size, l.align) > 2048
  {
    hide Position;
    SizesFacts();
    if ListIndex(l).None? {
      assert BlockSizes()[8] < Max(l.size, l.align);
    }
  }

  /** The fallback request for a class is a valid layout, and it is of that very class. */
  lemma ClassLayoutFacts(i: nat)
    requires i < CLASSES
    ensures ListIndex(ClassLayout(i)) == Some(i) && ValidLayout(ClassLayout(i))
  {
    hide Position, BlockSizes;
    SizesFacts();
    SizeIsPow2(i);
    var l := ClassLayout(i);
    ListIndexIsLeast(l);
  }

  // ----- the pool

  datatype Pool = Pool(
    lists: seq<seq<nat>>,        // the free blocks of each class, top of the stack first
    live: map<nat, Layout>,      // blocks handed out, with the client's layout
    issued: map<nat, Layout>)    // blocks held from the fallback, with the layout asked of it

  function EmptyLists(n: nat): (s: seq<seq<nat>>)
    ensures |s| == n && forall i :: 0 <= i < n ==> s[i] == []
  {
    if n == 0 then [] else EmptyLists(n - 1) + [[]]
  }

  function EmptyPool(): Pool {
    Pool(EmptyLists(CLASSES), map[], map[])
  }

  /** The layout asked of the fallback when a block for layout l has to be fetched. */
  function AskedFor(l: Layout): Layout {
    ListIndexIsLeast(l);
    match ListIndex(l)
    case Some(i) => ClassLayout(i)
    case None => l
  }

  /** What this call asks of the fallback, if it asks at all. */
  function Request(s: Pool, l: Layout): Option<Layout>
    requires |s.lists| == CLASSES
  {
    ListIndexIsLeast(l);
    match ListIndex(l)
    case Some(i) => if s.lists[i] == [] then Some(AskedFor(l)) else None
    case None => Some(AskedFor(l))
  }

  function Take(s: Pool, l: Layout, reply: Option<nat>): (Pool, Option<nat>)
    requires |s.lists| == CLASSES
  {
    ListIndexIsLeast(l);
    match Request(s, l)
    case None =>
      var i := ListIndex(l).value;
      var p := s.lists[i][0];
      (s.(lists := s.lists[i := s.lists[i][1..]], live := s.live[p := l]), Some(p))
    case Some(asked) =>
      match reply
      case None => (s, None)
      case Some(p) => (s.(live := s.live[p := l], issued := s.issued[p := asked]), Some(p))
  }

  function Give(s: Pool, p: nat, l: Layout): Pool
    requires |s.lists| == CLASSES
  {
    ListIndexIsLeast(l);
    match ListIndex(l)
    case Some(i) => s.(lists := s.lists[i := [p] + s.lists[i]], live := s.live - {p})
    case None => s.(live := s.live - {p}, issued := s.issued - {p})
  }

  /** What the fallback promises: a fresh block, aligned, disjoint from every block it has out, or none. */
  ghost predicate GoodReply(issued: map<nat, Layout>, asked: Layout, reply: Option<nat>) {
    reply.Some? ==>
      var p := reply.value;
      && p > 0 && p !in issued && asked.align > 0 && p % asked.align == 0
      && forall q :: q in issued ==> Disjoint(Region(p, asked.size), Region(q, issued[q].size))
  }

  // ----- the invariant

  /** Every live block is held from the fallback under the layout that its client's layout calls for. */
  ghost predicate LiveHeld(live: map<nat, Layout>, issued: map<nat, Layout>) {
    forall p :: p in live ==> p in issued && ValidLayout(live[p]) && issued[p] == AskedFor(live[p])
  }

  /** Every block on the free list of class i was fetched for class i and is not live. */
  ghost predicate FreeHeld(lists: seq<seq<nat>>, live: map<nat, Layout>, issued: map<nat, Layout>) {
    && |lists| == CLASSES
    && (forall i, p :: 0 <= i < CLASSES && p in lists[i] ==> p in issued && issued[p] == ClassLayout(i) && p !in live)
    && (forall i :: 0 <= i < CLASSES ==> NoDuplicates(lists[i]))
  }

  /** Block p is live, or it is on the free list of its class. */
  ghost predicate Accounted(lists: seq<seq<nat>>, live: map<nat, Layout>, p: nat, asked: Layout)
    requires |lists| == CLASSES
  {
    p in live || exists i :: 0 <= i < CLASSES && p in lists[i] && asked == ClassLayout(i)
  }

  ghost predicate AllAccounted(lists: seq<seq<nat>>, live: map<nat, Layout>, issued: map<nat, Layout>)
    requires |lists| == CLASSES
  {
    forall p :: p in issued ==> Accounted(lists, live, p, issued[p])
  }

  ghost predicate BlocksApart(issued: map<nat, Layout>) {
    && (forall p :: p in issued ==> p > 0 && issued[p].align > 0 && p % issued[p].align == 0)
    && (forall p, q :: p in issued && q in issued && p != q ==>
          Disjoint(Region(p, issued[p].size), Region(q, issued[q].size)))
  }

  ghost predicate PoolInv(s: Pool) {
    && |s.lists| == CLASSES
    && LiveHeld(s.live, s.issued)
    && FreeHeld(s.lists, s.live, s.issued)
    && AllAccounted(s.lists, s.live, s.issued)
    && BlocksApart(s.issued)
  }

  datatype PoolOp = TakeOp(layout: Layout, reply: Option<nat>) | GiveOp(ptr: nat, layout: Layout)

  ghost predicate LegalOp(s: Pool, op: PoolOp)
    requires |s.lists| == CLASSES
  {
    match op
    case TakeOp(l, reply) =>
      ValidLayout(l) && (Request(s, l).Some? ==> GoodReply(s.issued, Request(s, l).value, reply))
    case GiveOp(p, l) => p in s.live && s.live[p] == l
  }

  function StepPool(s: Pool, op: PoolOp): (s': Pool)
    requires |s.lists| == CLASSES
    ensures |s'.lists| == CLASSES
  {
    match op
    case TakeOp(l, reply) => Take(s, l, reply).0
    case GiveOp(p, l) => Give(s, p, l)
  }

  // ----- every step keeps the invariant

  lemma EmptyPoolInv()
    ensures PoolInv(EmptyPool())
  {
  }

  lemma BlocksApartExtended(issued: map<nat, Layout>, p: nat, asked: Layout)
    requires BlocksApart(issued) && GoodReply(issued, asked, Some(p))
    ensures BlocksApart(issued[p := asked])
  {
  }

  lemma FetchKeepsInv(s: Pool, l: Layout, p: nat)
    requires PoolInv(s) && ValidLayout(l) && Request(s, l).Some?
    requires GoodReply(s.issued, AskedFor(l), Some(p))
    ensures PoolInv(Take(s, l, Some(p)).0)
  {
    hide Disjoint, ValidLayout, ListIndex, AskedFor, BlocksApart, BlockSize;
    assert p !in s.issued && p !in s.live;
    BlocksApartExtended(s.issued, p, AskedFor(l));
    var s' := Take(s, l, Some(p)).0;
    forall q | q in s'.issued
      ensures Accounted(s'.lists, s'.live, q, s'.issued[q])
    {
      if q != p {
        assert Accounted(s.lists, s.live, q, s.issued[q]);
      }
    }
  }

  /** A block is on the list of one class only. */
  lemma SameClass(i: nat, j: nat)
    requires i < CLASSES && j < CLASSES && ClassLayout(i) == ClassLayout(j)
    ensures i == j
  {
    ClassLayoutFacts(i);
    ClassLayoutFacts(j);
  }

  lemma PopKeepsFree(s: Pool, l: Layout, i: nat)
    requires |s.lists| == CLASSES && i < CLASSES && s.lists[i] != []
    requires FreeHeld(s.lists, s.live, s.issued)
    ensures FreeHeld(s.lists[i := s.lists[i][1..]], s.live[s.lists[i][0] := l], s.issued)
  {
    hide ClassLayout;
    var p, lists, live := s.lists[i][0], s.lists[i := s.lists[i][1..]], s.live[s.lists[i][0] := l];
    assert p in s.lists[i] && p in s.issued && s.issued[p] == ClassLayout(i);
    forall j, q | 0 <= j < CLASSES && q in lists[j]
      ensures q in s.issued && s.issued[q] == ClassLayout(j) && q !in live
    {
      assert q in s.lists[j] && q in s.issued && s.issued[q] == ClassLayout(j);
      if q == p {
        SameClass(i, j);
        assert false;
      }
    }
  }

  lemma PopKeepsInv(s: Pool, l: Layout)
    requires PoolInv(s) && ValidLayout(l) && Request(s, l).None?
    ensures PoolInv(Take(s, l, None).0)
  {
    hide Disjoint, ValidLayout, ListIndex, BlocksApart, BlockSize, FreeHeld;
    ListIndexIsLeast(l);
    var i := ListIndex(l).value;
    var p := s.lists[i][0];
    assert p in s.lists[i];
    HeadIsHeld(s, i);
    PopKeepsFree(s, l, i);
    var s' := Take(s, l, None).0;
    forall q | q in s'.issued
      ensures Accounted(s'.lists, s'.live, q, s'.issued[q])
    {
      assert Accounted(s.lists, s.live, q, s.issued[q]);
    }
  }

  lemma HeadIsHeld(s: Pool, i: nat)
    requires i < CLASSES && FreeHeld(s.lists, s.live, s.issued) && s.lists[i] != []
    ensures var p := s.lists[i][0]; p in s.issued && s.issued[p] == ClassLayout(i) && p !in s.live
  {
    assert s.lists[i][0] in s.lists[i];
  }

  lemma PushKeepsFree(s: Pool, p: nat, i: nat)
    requires |s.lists| == CLASSES && i < CLASSES && p in s.live && p in s.issued && s.issued[p] == ClassLayout(i)
    requires FreeHeld(s.lists, s.live, s.issued)
    ensures FreeHeld(s.lists[i := [p] + s.lists[i]], s.live - {p}, s.issued)
  {
    hide ClassLayout;
    assert p !in s.lists[i];
  }

  lemma GiveKeepsInv(s: Pool, p: nat, l: Layout)
    requires PoolInv(s) && p in s.live && s.live[p] == l
    ensures PoolInv(Give(s, p, l))
  {
    hide Disjoint, ValidLayout, ListIndex, BlocksApart, BlockSize, FreeHeld;
    ListIndexIsLeast(l);
    var s' := Give(s, p, l);
    match ListIndex(l) {
      case Some(i) =>
        PushKeepsFree(s, p, i);
        assert p in s'.lists[i];
        forall q | q in s'.issued
          ensures Accounted(s'.lists, s'.live, q, s'.issued[q])
        {
          assert Accounted(s.lists, s.live, q, s.issued[q]);
          PushKeepsMembers(s.lists, p, i, q);
        }
      case None =>
        ReturnKeepsRest(s, p);
        forall q | q in s'.issued
          ensures Accounted(s'.lists, s'.live, q, s'.issued[q])
        {
          assert Accounted(s.lists, s.live, q, s.issued[q]);
        }
    }
  }

  lemma PushKeepsMembers(lists: seq<seq<nat>>, p: nat, i: nat, q: nat)
    requires i < |lists|
    ensures forall j :: 0 <= j < |lists| && q in lists[j] ==> q in lists[i := [p] + lists[i]][j]
  {
  }

  lemma ReturnKeepsRest(s: Pool, p: nat)
    requires p in s.live && FreeHeld(s.lists, s.live, s.issued) && BlocksApart(s.issued)
    ensures FreeHeld(s.lists, s.live - {p}, s.issued - {p}) && BlocksApart(s.issued - {p})
  {
  }

  lemma StepKeepsPool(s: Pool, op: PoolOp)
    requires PoolInv(s) && LegalOp(s, op)
    ensures PoolInv(StepPool(s, op))
  {
    hide LiveHeld, FreeHeld, AllAccounted, GoodReply, BlocksApart, ListIndex, AskedFor;
    match op
    case TakeOp(l, reply) =>
      if Request(s, l).None? {
        PopKeepsInv(s, l);
      } else if reply.Some? {
        FetchKeepsInv(s, l, reply.value);
      }
    case GiveOp(p, l) => GiveKeepsInv(s, p, l);
  }
}
