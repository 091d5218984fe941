/** The fixed-size-block allocator in raw memory: a free block stores the address of the next one. */
module FixedSizeBlock {
  import opened Collections
  import opened Alignment
  import opened Memory
  import opened FreeList
  import opened BlockPool
  import PoolRuns

  /** The list node of a free block is one pointer. */
  const LINK_SIZE: nat := 8
  const LINK_ALIGN: nat := 8

  /** The fallback's answer to one call: a block or none, and the memory it leaves behind. */
  datatype Reply = Reply(ptr: Option<nat>, mem: Words)

  function First(list: seq<nat>, k: nat): nat {
    if k < |list| then list[k] else 0
  }

  /** The chain of blocks from `head` is exactly this list. */
  ghost predicate IsStack(mem: Words, head: nat, list: seq<nat>) {
    head == First(list, 0) && forall k :: 0 <= k < |list| ==> Read(mem, list[k]) == First(list, k + 1)
  }

  ghost predicate AreStacks(mem: Words, heads: seq<nat>, lists: seq<seq<nat>>) {
    |heads| == |lists| == CLASSES && forall i :: 0 <= i < CLASSES ==> IsStack(mem, heads[i], lists[i])
  }

  /** Blocks that are out of the fallback's hands keep their words. */
  ghost predicate BlocksKept(issued: map<nat, Layout>, mem: Words, mem': Words) {
    forall p :: p in issued ==> SameBetween(mem, mem', p, p + issued[p].size)
  }

  /** Every live block other than `except` keeps its words. */
  ghost predicate LiveKept(s: Pool, mem: Words, mem': Words, except: nat) {
    forall p :: p in s.live && p in s.issued && p != except ==> SameBetween(mem, mem', p, p + s.issued[p].size)
  }

  lemma FreeBlockWord(s: Pool, i: nat, p: nat)
    requires PoolInv(s) && i < CLASSES && p in s.lists[i]
    ensures p in s.issued && s.issued[p].size >= 8
  {
    hide BlocksApart, AllAccounted, LiveHeld, BlockSizes;
    SizesFacts();
  }

  lemma StacksKept(s: Pool, heads: seq<nat>, mem: Words, mem': Words)
    requires PoolInv(s) && AreStacks(mem, heads, s.lists) && BlocksKept(s.issued, mem, mem')
    ensures AreStacks(mem', heads, s.lists)
  {
    hide PoolInv;
    forall i | 0 <= i < CLASSES
      ensures IsStack(mem', heads[i], s.lists[i])
    {
      var list := s.lists[i];
      assert IsStack(mem, heads[i], list);
      forall k | 0 <= k < |list|
        ensures Read(mem', list[k]) == Read(mem, list[k])
      {
        FreeBlockWord(s, i, list[k]);
        assert SameBetween(mem, mem', list[k], list[k] + s.issued[list[k]].size);
      }
    }
  }

  /** A write to a block that is on no list leaves the stacks alone. */
  lemma WriteOutsideLists(s: Pool, heads: seq<nat>, mem: Words, a: nat, v: nat)
    requires AreStacks(mem, heads, s.lists)
    requires |s.lists| == CLASSES && forall i :: 0 <= i < CLASSES ==> a !in s.lists[i]
    ensures AreStacks(mem[a := v], heads, s.lists)
  {
  }

  /** A stack that does not hold p keeps its shape when p is written. */
  lemma StackWithout(mem: Words, head: nat, list: seq<nat>, p: nat, v: nat)
    requires IsStack(mem, head, list) && p !in list
    ensures IsStack(mem[p := v], head, list)
  {
    forall k | 0 <= k < |list|
      ensures Read(mem[p := v], list[k]) == First(list, k + 1)
    {
      assert list[k] in list;
    }
  }

  /** The rest of a stack is a stack from the word that its head block holds. */
  lemma StackTail(mem: Words, head: nat, list: seq<nat>)
    requires IsStack(mem, head, list) && list != []
    ensures head == list[0] && IsStack(mem, Read(mem, head), list[1..])
  {
    var tail := list[1..];
    assert Read(mem, list[0]) == First(list, 1);
    forall k | 0 <= k < |tail|
      ensures Read(mem, tail[k]) == First(tail, k + 1)
    {
      assert tail[k] == list[k + 1] && Read(mem, list[k + 1]) == First(list, k + 2);
    }
  }

  /** The head block of list i is on no other list and only once on its own. */
  lemma HeadOnNoOther(s: Pool, i: nat, j: nat)
    requires PoolInv(s) && i < CLASSES && j < CLASSES && s.lists[i] != []
    ensures s.lists[i][0] !in (if j == i then s.lists[i][1..] else s.lists[j])
  {
    hide BlocksApart, AllAccounted, LiveHeld, ListIndex, BlockSizes, ClassLayout;
    var p := s.lists[i][0];
    assert p in s.lists[i] && s.issued[p] == ClassLayout(i);
    if j != i && p in s.lists[j] {
      SameClass(i, j);
      assert false;
    }
  }

  lemma PopStack(s: Pool, heads: seq<nat>, mem: Words, i: nat)
    requires PoolInv(s) && AreStacks(mem, heads, s.lists) && i < CLASSES && s.lists[i] != []
    ensures AreStacks(mem[heads[i] := 0], heads[i := Read(mem, heads[i])], s.lists[i := s.lists[i][1..]])
  {
    assert |s.lists| == CLASSES;
    hide PoolInv;
    var p, next, tail := s.lists[i][0], Read(mem, heads[i]), s.lists[i][1..];
    assert IsStack(mem, heads[i], s.lists[i]);
    StackTail(mem, heads[i], s.lists[i]);
    hide IsStack;
    var mem', heads', lists' := mem[p := 0], heads[i := next], s.lists[i := tail];
    forall j | 0 <= j < CLASSES
      ensures IsStack(mem', heads'[j], lists'[j])
    {
      HeadOnNoOther(s, i, j);
      if j == i {
        StackWithout(mem, next, tail, p, 0);
      } else {
        StackWithout(mem, heads[j], s.lists[j], p, 0);
      }
    }
  }

  lemma PushStack(s: Pool, heads: seq<nat>, mem: Words, i: nat, p: nat)
    requires AreStacks(mem, heads, s.lists) && i < CLASSES
    requires |s.lists| == CLASSES && forall j :: 0 <= j < CLASSES ==> p !in s.lists[j]
    ensures AreStacks(mem[p := heads[i]], heads[i := p], s.lists[i := [p] + s.lists[i]])
  {
    var mem', lists := mem[p := heads[i]], s.lists[i := [p] + s.lists[i]];
    forall j | 0 <= j < CLASSES
      ensures IsStack(mem', heads[i := p][j], lists[j])
    {
      assert IsStack(mem, heads[j], s.lists[j]);
    }
  }

  /** A word of one block is not a word of another. */
  lemma OtherBlockKept(s: Pool, mem: Words, p: nat, v: nat)
    requires PoolInv(s) && p in s.issued && s.issued[p].size > 0
    ensures LiveKept(s, mem, mem[p := v], p)
  {
    hide FreeHeld, AllAccounted, LiveHeld;
    forall q | q in s.live && q in s.issued && q != p
      ensures SameBetween(mem, mem[p := v], q, q + s.issued[q].size)
    {
      assert Disjoint(Region(p, s.issued[p].size), Region(q, s.issued[q].size));
    }
  }

  lemma LiveOnNoList(s: Pool, p: nat)
    requires PoolInv(s) && p in s.live
    ensures p in s.issued && s.issued[p] == AskedFor(s.live[p])
    ensures forall i :: 0 <= i < CLASSES ==> p !in s.lists[i]
  {
    hide BlocksApart, AllAccounted, AskedFor;
  }

  class FixedSizeBlockAllocator {
    var mem: Words
    const heads: array<nat>
    ghost var pool: Pool

    ghost predicate Valid()
      reads this, heads
    {
      heads.Length == CLASSES && PoolInv(pool) && AreStacks(mem, heads[..], pool.lists)
    }

    constructor (initial: Words)
      ensures Valid() && pool == EmptyPool() && mem == initial
    {
      mem := initial;
      heads := new nat[CLASSES](_ => 0);
      pool := EmptyPool();
      EmptyPoolInv();
    }

    /** Passes a request to the fallback; its answer and its writes are given. */
    method FallbackAlloc(ghost asked: Layout, reply: Reply) returns (ptr: Option<nat>)
      requires Valid()
      requires GoodReply(pool.issued, asked, reply.ptr) && BlocksKept(pool.issued, mem, reply.mem)
      modifies `mem
      ensures Valid() && ptr == reply.ptr && mem == reply.mem
    {
      hide PoolInv, AreStacks;
      StacksKept(pool, heads[..], mem, reply.mem);
      mem := reply.mem;
      ptr := reply.ptr;
    }

    /**
     * Refines `BlockPool.Take`, and writes no byte of a live block. A pointer answer is a block that was
     * not live before and is safe for its layout now; the answer is null exactly when the fallback was
     * asked and had none.
     */
    method Alloc(layout: Layout, reply: Reply) returns (ptr: Option<nat>)
      requires Valid() && ValidLayout(layout)
      requires Request(pool, layout).Some? ==>
                 GoodReply(pool.issued, Request(pool, layout).value, reply.ptr) && BlocksKept(pool.issued, mem, reply.mem)
      modifies this`mem, this`pool, heads
      ensures Valid() && (pool, ptr) == Take(old(pool), layout, reply.ptr)
      ensures ptr == None <==> Request(old(pool), layout).Some? && reply.ptr == None
      ensures ptr == None ==> pool == old(pool)
      ensures ptr.Some? ==>
                && ptr.value !in old(pool.live) && pool.live == old(pool.live)[ptr.value := layout]
                && PoolRuns.SafeBlock(pool, ptr.value)
      ensures if Request(old(pool), layout).Some? then ptr == reply.ptr && mem == reply.mem
              else ptr.Some? && mem == old(mem)[ptr.value := 0]
      ensures forall p :: p in old(pool.live) && p in old(pool.issued) ==>
                SameBetween(old(mem), mem, p, p + old(pool.issued)[p].size)
    {
      hide PoolInv, AreStacks, GoodReply, ListIndex, AskedFor, SameBetween, Disjoint;
      ghost var s := pool;
      PoolSize(s);
      ListIndexIsLeast(layout);
      TakeKeepsInv(s, layout, reply.ptr);
      TakeIsSafe(s, layout, reply.ptr);
      hide PoolRuns.SafeBlock;
      match ListIndex(layout) {
        case Some(index) =>
          var node := heads[index];
          HeadsOf(s, heads[..], mem, index);
          if node != 0 {
            ghost var before := heads[..];
            PopStack(s, heads[..], mem, index);
            PopKeepsLive(s, mem, index);
            heads[index] := Read(mem, node);
            mem := mem[node := 0];
            ptr := Some(node);
            assert heads[..] == before[index := Read(old(mem), node)];
          } else {
            ptr := FallbackAlloc(AskedFor(layout), reply);
          }
        case None =>
          ptr := FallbackAlloc(AskedFor(layout), reply);
      }
      pool := Take(s, layout, reply.ptr).0;
    }

    /**
     * Refines `BlockPool.Give`, fails neither assertion nor the null check, and writes no byte of any
     * other live block.
     */
    method Dealloc(ptr: nat, layout: Layout, fallbackMem: Words) returns (panicked: bool)
      requires Valid() && ptr in pool.live && pool.live[ptr] == layout
      requires ListIndex(layout).None? ==> BlocksKept(pool.issued - {ptr}, mem, fallbackMem)
      modifies this`mem, this`pool, heads
      ensures Valid() && !panicked && pool == Give(old(pool), ptr, layout)
      ensures LiveKept(old(pool), old(mem), mem, ptr)
      ensures if ListIndex(layout).None? then mem == fallbackMem
              else forall a: nat :: a != ptr ==> Read(mem, a) == Read(old(mem), a)
    {
      hide PoolInv, AreStacks, ListIndex, AskedFor, SameBetween, Disjoint;
      ghost var s := pool;
      PoolSize(s);
      ListIndexIsLeast(layout);
      LiveOnNoList(s, ptr);
      GiveKeeps(s, ptr, layout);
      match ListIndex(layout) {
        case Some(index) =>
          ghost var before := heads[..];
          PushStack(s, heads[..], mem, index, ptr);
          OtherBlockKept(s, mem, ptr, heads[index]);
          var next := heads[index];
          heads[index] := 0;
          panicked := !(LINK_SIZE <= BlockSize(index) && LINK_ALIGN <= BlockSize(index));
          if !panicked {
            mem := mem[ptr := next];
            heads[index] := ptr;
          }
          assert heads[..] == before[index := ptr];
          pool := Give(s, ptr, layout);
        case None =>
          panicked := ptr == 0;
          pool := Give(s, ptr, layout);
          assert pool.issued == s.issued - {ptr};
          StacksKept(pool, heads[..], mem, fallbackMem);
          RestKept(s, mem, fallbackMem, ptr);
          if !panicked {
            mem := fallbackMem;
          }
      }
    }

    /**
     * Serves a run of calls over a fallback that answers as the run says and keeps the words of every
     * block that is out of its hands; `writes` is the memory it leaves at each call. The pool and the
     * answers are those of `PoolRuns`, and a block that stays live throughout keeps every word.
     */
    method Serve(ops: seq<PoolOp>, writes: (nat, Words) -> Words) returns (answers: seq<Option<nat>>)
      requires Valid() && PoolRuns.LegalRun(pool, ops) && FallbackKeeps(pool, ops, writes)
      modifies this`mem, this`pool, heads
      ensures Valid() && pool == PoolRuns.Run(old(pool), ops)
      ensures answers == PoolRuns.Answers(old(pool), ops)
      ensures ClientsKept(old(pool), ops, old(mem), pool, mem)
    {
      hide PoolInv, AreStacks, Take, Give, GoodReply, BlocksKept, LiveKept, ClientsKept, Request, ListIndex;
      hide PoolRuns.LegalRun, PoolRuns.Run, PoolRuns.Answers, PoolRuns.SafeBlock;
      ghost var s, m := pool, mem;
      PoolSize(s);
      answers := [];
      var k := 0;
      assert ops[0..] == ops && ops[..0] == [];
      PoolRuns.RunNothing(s);
      NoCallKeeps(s, ops, m);
      while k < |ops|
        invariant k <= |ops| && Valid() && |s.lists| == |pool.lists| == CLASSES
        invariant pool == PoolRuns.Run(s, ops[..k]) && PoolRuns.LegalRun(pool, ops[k..])
        invariant answers + PoolRuns.Answers(pool, ops[k..]) == PoolRuns.Answers(s, ops)
        invariant ClientsKept(s, ops, m, pool, mem)
      {
        ghost var before, words := pool, mem;
        PoolRuns.RunFrom(pool, ops, k);
        PoolRuns.RunSnoc(s, ops[..k], ops[k]);
        assert ops[..k + 1] == ops[..k] + [ops[k]];
        assert BlocksKept(OutOfHands(pool, ops[k]), mem, writes(k, mem));
        match ops[k] {
          case TakeOp(layout, reply) =>
            var ptr := Alloc(layout, Reply(reply, writes(k, mem)));
            answers := answers + [ptr];
            TakeKeepsClients(s, ops, m, before, words, layout, reply, mem);
          case GiveOp(ptr, layout) =>
            var panicked := Dealloc(ptr, layout, writes(k, mem));
            GiveKeepsClients(s, ops, m, before, words, k, mem);
        }
        PoolSize(pool);
        k := k + 1;
      }
      assert ops[..k] == ops && ops[k..] == [];
      PoolRuns.RunNothing(pool);
    }

    /** A client writes a word of its live block. */
    method ClientWrite(ghost p: nat, a: nat, v: nat)
      requires Valid() && p in pool.live && p in pool.issued && p <= a < p + pool.issued[p].size
      modifies `mem
      ensures Valid() && mem == old(mem)[a := v]
    {
      hide PoolInv, AreStacks;
      PoolSize(pool);
      WordOnNoList(pool, p, a);
      WriteOutsideLists(pool, heads[..], mem, a, v);
      mem := mem[a := v];
    }
  }

  /** The blocks that the fallback may not write during this call. */
  function OutOfHands(s: Pool, op: PoolOp): map<nat, Layout> {
    match op
    case TakeOp(_, _) => s.issued
    case GiveOp(p, _) => s.issued - {p}
  }

  ghost predicate FallbackKeeps(s: Pool, ops: seq<PoolOp>, writes: (nat, Words) -> Words)
    requires |s.lists| == CLASSES
  {
    forall k, m :: 0 <= k < |ops| ==> BlocksKept(OutOfHands(PoolRuns.Run(s, ops[..k]), ops[k]), m, writes(k, m))
  }

  ghost predicate IsGiven(ops: seq<PoolOp>, p: nat) {
    exists k :: 0 <= k < |ops| && ops[k].GiveOp? && ops[k].ptr == p
  }

  /** Blocks live at the start that these calls do not free are live under the same layout, with the same words. */
  ghost predicate ClientsKept(s: Pool, ops: seq<PoolOp>, mem: Words, s': Pool, mem': Words) {
    forall p :: p in s.live && p in s.issued && !IsGiven(ops, p) ==>
      && p in s'.live && s'.live[p] == s.live[p] && p in s'.issued && s'.issued[p] == s.issued[p]
      && SameBetween(mem, mem', p, p + s.issued[p].size)
  }

  lemma NoCallKeeps(s: Pool, ops: seq<PoolOp>, mem: Words)
    ensures ClientsKept(s, ops, mem, s, mem)
  {
  }

  lemma TakeKeepsClients(s: Pool, ops: seq<PoolOp>, mem: Words, s1: Pool, mem1: Words,
                         l: Layout, reply: Option<nat>, mem2: Words)
    requires ClientsKept(s, ops, mem, s1, mem1)
    requires PoolInv(s1) && LegalOp(s1, TakeOp(l, reply))
    requires forall p :: p in s1.live && p in s1.issued ==> SameBetween(mem1, mem2, p, p + s1.issued[p].size)
    ensures ClientsKept(s, ops, mem, Take(s1, l, reply).0, mem2)
  {
    hide LiveHeld, FreeHeld, AllAccounted, BlocksApart, Take, LegalOp, PoolRuns.SafeBlock, IsGiven;
    PoolRuns.TakeAnswers(s1, l, reply);
    TakeKeepsIssued(s1, l, reply);
  }

  /** Taking a block leaves every block held so far as it was issued. */
  lemma TakeKeepsIssued(s: Pool, l: Layout, reply: Option<nat>)
    requires PoolInv(s) && LegalOp(s, TakeOp(l, reply))
    ensures var s' := Take(s, l, reply).0;
            forall p :: p in s.issued ==> p in s'.issued && s'.issued[p] == s.issued[p]
  {
    hide LiveHeld, FreeHeld, AllAccounted, BlocksApart, ListIndex, AskedFor;
  }

  lemma GiveKeepsClients(s: Pool, ops: seq<PoolOp>, mem: Words, s1: Pool, mem1: Words, k: nat, mem2: Words)
    requires ClientsKept(s, ops, mem, s1, mem1) && |s1.lists| == CLASSES
    requires k < |ops| && ops[k].GiveOp? && LiveKept(s1, mem1, mem2, ops[k].ptr)
    ensures ClientsKept(s, ops, mem, Give(s1, ops[k].ptr, ops[k].layout), mem2)
  {
    GiveKeepsOthers(s1, ops[k].ptr, ops[k].layout);
    hide Give;
  }

  lemma GiveKeepsOthers(s: Pool, p: nat, l: Layout)
    requires |s.lists| == CLASSES
    ensures var s' := Give(s, p, l);
            && s'.live == s.live - {p}
            && forall q :: q in s.issued && q != p ==> q in s'.issued && s'.issued[q] == s.issued[q]
  {
    hide ListIndex;
  }

  lemma TakeIsSafe(s: Pool, l: Layout, reply: Option<nat>)
    requires PoolInv(s) && ValidLayout(l)
    requires Request(s, l).Some? ==> GoodReply(s.issued, Request(s, l).value, reply)
    ensures var (s', ptr) := Take(s, l, reply);
            && (ptr == None <==> Request(s, l).Some? && reply == None)
            && (ptr == None ==> s' == s)
            && (Request(s, l).Some? ==> ptr == reply)
            && (ptr.Some? ==>
                  && ptr.value !in s.live && s'.live == s.live[ptr.value := l]
                  && PoolRuns.SafeBlock(s', ptr.value))
  {
    hide Take, PoolRuns.SafeBlock, LiveHeld, FreeHeld, AllAccounted, BlocksApart, GoodReply, ListIndex;
    PoolRuns.TakeAnswers(s, l, reply);
  }

  lemma RestKept(s: Pool, mem: Words, mem': Words, p: nat)
    requires BlocksKept(s.issued - {p}, mem, mem')
    ensures LiveKept(s, mem, mem', p)
  {
    var rest := s.issued - {p};
    forall q | q in s.live && q in s.issued && q != p
      ensures SameBetween(mem, mem', q, q + s.issued[q].size)
    {
      assert q in rest && rest[q] == s.issued[q];
    }
  }

  lemma PoolSize(s: Pool)
    requires PoolInv(s)
    ensures |s.lists| == CLASSES
  {
  }

  lemma TakeKeepsInv(s: Pool, l: Layout, reply: Option<nat>)
    requires PoolInv(s) && ValidLayout(l)
    requires Request(s, l).Some? ==> GoodReply(s.issued, Request(s, l).value, reply)
    ensures PoolInv(Take(s, l, reply).0)
  {
    hide LiveHeld, FreeHeld, AllAccounted, BlocksApart, GoodReply, ListIndex;
    StepKeepsPool(s, TakeOp(l, reply));
  }

  /** The head of a list is 0 exactly when the list is empty. */
  lemma HeadsOf(s: Pool, heads: seq<nat>, mem: Words, i: nat)
    requires PoolInv(s) && AreStacks(mem, heads, s.lists) && i < CLASSES
    ensures heads[i] == First(s.lists[i], 0) && (heads[i] == 0 <==> s.lists[i] == [])
  {
    hide AllAccounted, LiveHeld, ListIndex;
    assert IsStack(mem, heads[i], s.lists[i]);
    if s.lists[i] != [] {
      HeadIsHeld(s, i);
    }
  }

  lemma PopKeepsLive(s: Pool, mem: Words, i: nat)
    requires PoolInv(s) && i < CLASSES && s.lists[i] != []
    ensures forall p :: p in s.live && p in s.issued ==>
              SameBetween(mem, mem[s.lists[i][0] := 0], p, p + s.issued[p].size)
  {
    hide AllAccounted, LiveHeld, ListIndex, BlockSizes, BlocksApart;
    HeadIsHeld(s, i);
    FreeBlockWord(s, i, s.lists[i][0]);
    OtherBlockKept(s, mem, s.lists[i][0], 0);
  }

  lemma GiveKeeps(s: Pool, p: nat, l: Layout)
    requires PoolInv(s) && p in s.live && s.live[p] == l
    ensures PoolInv(Give(s, p, l)) && p in s.issued && p > 0
    ensures match ListIndex(l)
            case Some(i) => i < CLASSES && s.issued[p].size == BlockSize(i) >= LINK_SIZE
            case None => true
  {
    hide FreeHeld, AllAccounted, ListIndex, BlockSizes;
    SizesFacts();
    ListIndexIsLeast(l);
    GiveKeepsInv(s, p, l);
  }

  lemma WordOnNoList(s: Pool, p: nat, a: nat)
    requires PoolInv(s) && p in s.live && p in s.issued && p <= a < p + s.issued[p].size
    ensures forall i :: 0 <= i < CLASSES ==> a !in s.lists[i]
  {
    hide AllAccounted, LiveHeld, ListIndex, BlockSizes;
    forall i, q | 0 <= i < CLASSES && q in s.lists[i]
      ensures q != a
    {
      assert Disjoint(Region(p, s.issued[p].size), Region(q, s.issued[q].size));
      FreeBlockWord(s, i, q);
    }
  }
}
