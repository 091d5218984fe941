/** What holds over whole runs of the block pool, whatever its fallback answers. */
module PoolRuns {
  import opened Collections
  import opened Alignment
  import opened FreeList
  import opened BlockPool

  ghost predicate LegalRun(s: Pool, ops: seq<PoolOp>)
    requires |s.lists| == CLASSES
    decreases |ops|
  {
    ops == [] || (LegalOp(s, ops[0]) && LegalRun(StepPool(s, ops[0]), ops[1..]))
  }

  function Run(s: Pool, ops: seq<PoolOp>): (s': Pool)
    requires |s.lists| == CLASSES
    ensures |s'.lists| == CLASSES
    decreases |ops|
  {
    if ops == [] then s else Run(StepPool(s, ops[0]), ops[1..])
  }

  lemma {:induction false} RunKeepsInv(s: Pool, ops: seq<PoolOp>)
    requires PoolInv(s) && LegalRun(s, ops)
    ensures PoolInv(Run(s, ops))
    decreases |ops|
  {
    hide StepPool, LiveHeld, FreeHeld, AllAccounted, BlocksApart;
    if ops != [] {
      StepKeepsPool(s, ops[0]);
      RunKeepsInv(StepPool(s, ops[0]), ops[1..]);
    }
  }

  /** A live block satisfies its client's layout, lies apart from every other block, and is on no free list. */
  ghost predicate SafeBlock(s: Pool, p: nat)
    requires |s.lists| == CLASSES
  {
    && p in s.live && p in s.issued && s.issued[p].size >= s.live[p].size
    && s.live[p].align > 0 && p % s.live[p].align == 0
    && (forall q :: q in s.live && q != p ==>
          q in s.issued && Disjoint(Region(p, s.issued[p].size), Region(q, s.issued[q].size)))
    && (forall i :: 0 <= i < CLASSES ==> p !in s.lists[i])
  }

  lemma LiveBlockSafe(s: Pool, p: nat)
    requires PoolInv(s) && p in s.live
    ensures SafeBlock(s, p)
  {
    hide AskedFor, ListIndex, AllAccounted, ValidLayout, ClassLayout;
    AskedIsEnough(s.live[p], p);
  }

  /**
   * A pointer answer is a block that was not live before, and is live and safe for its layout after:
   * the one the fallback just gave, if it was asked. The answer is null exactly when the fallback was
   * asked and had none, and then nothing changes.
   */
  lemma TakeAnswers(s: Pool, l: Layout, reply: Option<nat>)
    requires PoolInv(s) && LegalOp(s, TakeOp(l, reply))
    ensures var (s', ptr) := Take(s, l, reply);
            && (ptr == None <==> Request(s, l).Some? && reply == None)
            && (ptr == None ==> s' == s)
            && (Request(s, l).Some? ==> ptr == reply)
            && (ptr.Some? ==>
                  && ptr.value !in s.live && s'.live == s.live[ptr.value := l]
                  && SafeBlock(s', ptr.value))
  {
    var (s', ptr) := Take(s, l, reply);
    StepKeepsPool(s, TakeOp(l, reply));
    hide ListIndex, AskedFor, AllAccounted, BlocksApart, ValidLayout, SafeBlock;
    ListIndexIsLeast(l);
    if Request(s, l).None? {
      HeadIsHeld(s, ListIndex(l).value);
    }
    if ptr.Some? {
      LiveBlockSafe(s', ptr.value);
    }
  }

  /** From any good pool, such as the empty one, every pool in a run has only safe live blocks. */
  lemma LiveBlocksSafe(s: Pool, ops: seq<PoolOp>, p: nat)
    requires PoolInv(s) && LegalRun(s, ops) && p in Run(s, ops).live
    ensures SafeBlock(Run(s, ops), p)
  {
    hide LiveHeld, FreeHeld, AllAccounted, BlocksApart, StepPool;
    RunKeepsInv(s, ops);
    LiveBlockSafe(Run(s, ops), p);
  }

  /** What is asked of the fallback is as large and as aligned as the client's layout needs. */
  lemma AskedIsEnough(l: Layout, p: nat)
    requires ValidLayout(l) && AskedFor(l).align > 0 && p % AskedFor(l).align == 0
    ensures AskedFor(l).size >= l.size && l.align > 0 && p % l.align == 0
  {
    hide BlockSizes, ListIndex;
    ListIndexIsLeast(l);
    match ListIndex(l)
    case Some(i) =>
      SizeIsPow2(i);
      MultipleOfSmaller(p, l.align, BlockSize(i));
    case None =>
  }

  /** The block is live and nowhere else, or it is on the list of class i and nowhere else. */
  ghost predicate InOnePlace(s: Pool, p: nat)
    requires |s.lists| == CLASSES
  {
    || (p in s.live && forall i :: 0 <= i < CLASSES ==> p !in s.lists[i])
    || (p !in s.live && exists i :: 0 <= i < CLASSES && p in s.lists[i] && OnlyOn(s, p, i))
  }

  ghost predicate OnlyOn(s: Pool, p: nat, i: nat)
    requires |s.lists| == CLASSES && i < CLASSES
  {
    forall j :: 0 <= j < CLASSES && p in s.lists[j] ==> j == i
  }

  lemma HeldBlockInOnePlace(s: Pool, p: nat)
    requires PoolInv(s) && p in s.issued
    ensures InOnePlace(s, p)
  {
    hide AskedFor, ListIndex, BlocksApart, ValidLayout, ClassLayout;
    assert Accounted(s.lists, s.live, p, s.issued[p]);
    if p !in s.live {
      var i :| 0 <= i < CLASSES && p in s.lists[i] && s.issued[p] == ClassLayout(i);
      forall j | 0 <= j < CLASSES && p in s.lists[j]
        ensures j == i
      {
        SameClass(i, j);
      }
      assert OnlyOn(s, p, i);
    }
  }

  /** Each block that is held is at every moment live or on exactly one free list. */
  lemma HeldBlocksAccounted(s: Pool, ops: seq<PoolOp>, p: nat)
    requires PoolInv(s) && LegalRun(s, ops) && p in Run(s, ops).issued
    ensures InOnePlace(Run(s, ops), p)
  {
    hide LiveHeld, FreeHeld, AllAccounted, BlocksApart, StepPool;
    RunKeepsInv(s, ops);
    HeldBlockInOnePlace(Run(s, ops), p);
  }

  /** A block of a class stays held, under the same layout, for the rest of the run. */
  lemma {:induction false} SmallBlocksStay(s: Pool, ops: seq<PoolOp>, p: nat)
    requires PoolInv(s) && LegalRun(s, ops)
    requires p in s.issued && ListIndex(s.issued[p]).Some?
    ensures p in Run(s, ops).issued && Run(s, ops).issued[p] == s.issued[p]
    decreases |ops|
  {
    hide ListIndex, FreeHeld, AllAccounted, BlocksApart;
    if ops != [] {
      StepKeepsPool(s, ops[0]);
      StepKeepsSmall(s, ops[0], p);
      SmallBlocksStay(StepPool(s, ops[0]), ops[1..], p);
    }
  }

  lemma StepKeepsSmall(s: Pool, op: PoolOp, p: nat)
    requires PoolInv(s) && LegalOp(s, op) && p in s.issued && ListIndex(s.issued[p]).Some?
    ensures p in StepPool(s, op).issued && StepPool(s, op).issued[p] == s.issued[p]
  {
    hide ListIndex, FreeHeld, AllAccounted, BlocksApart;
  }

  /** What `dealloc` passes to the fallback: only large blocks that it issued, with the layout it was asked for. */
  lemma ReturnedAsIssued(s: Pool, p: nat, l: Layout)
    requires PoolInv(s) && p in s.live && s.live[p] == l
    ensures ListIndex(l).None? ==> p in s.issued && s.issued[p] == l && Give(s, p, l).issued == s.issued - {p}
    ensures ListIndex(l).Some? ==> Give(s, p, l).issued == s.issued
  {
    hide ListIndex, FreeHeld, AllAccounted, BlocksApart;
  }

  /** Freed blocks are used again last in, first out: the next request of the class gets the block back. */
  lemma LastInFirstOut(s: Pool, p: nat, l: Layout, next: Layout, reply: Option<nat>)
    requires PoolInv(s) && p in s.live && s.live[p] == l
    requires ListIndex(l).Some? && ListIndex(next) == ListIndex(l)
    ensures var freed := Give(s, p, l);
            && Request(freed, next) == None
            && Take(freed, next, reply) == (s.(live := s.live[p := next]), Some(p))
  {
    hide ListIndex, LiveHeld, FreeHeld, AllAccounted, BlocksApart;
    ListIndexIsLeast(l);
    var i := ListIndex(l).value;
    var freed := Give(s, p, l);
    assert freed.lists[i][1..] == s.lists[i];
    assert freed.lists[i := s.lists[i]] == s.lists;
    assert freed.live[p := next] == s.live[p := next];
  }

  // ----- the course of a run

  /** The answers to the requests of a run, in order. */
  ghost function Answers(s: Pool, ops: seq<PoolOp>): seq<Option<nat>>
    requires |s.lists| == CLASSES
    decreases |ops|
  {
    if ops == [] then [] else AnswerTo(s, ops[0]) + Answers(StepPool(s, ops[0]), ops[1..])
  }

  ghost function AnswerTo(s: Pool, op: PoolOp): seq<Option<nat>>
    requires |s.lists| == CLASSES
  {
    match op
    case TakeOp(l, reply) => [Take(s, l, reply).1]
    case GiveOp(_, _) => []
  }

  /** What is left of a run at position k, one call further. */
  lemma RunFrom(s: Pool, ops: seq<PoolOp>, k: nat)
    requires |s.lists| == CLASSES && k < |ops| && LegalRun(s, ops[k..])
    ensures LegalOp(s, ops[k]) && LegalRun(StepPool(s, ops[k]), ops[k + 1..])
    ensures Answers(s, ops[k..]) == AnswerTo(s, ops[k]) + Answers(StepPool(s, ops[k]), ops[k + 1..])
  {
    hide LegalOp, StepPool, AnswerTo;
    assert ops[k..][0] == ops[k] && ops[k..][1..] == ops[k + 1..];
  }

  lemma {:induction false} RunSnoc(s: Pool, ops: seq<PoolOp>, op: PoolOp)
    requires |s.lists| == CLASSES
    ensures Run(s, ops + [op]) == StepPool(Run(s, ops), op)
    decreases |ops|
  {
    hide StepPool;
    if ops == [] {
      assert [op][1..] == [] && ops + [op] == [op];
    } else {
      assert (ops + [op])[1..] == ops[1..] + [op];
      RunSnoc(StepPool(s, ops[0]), ops[1..], op);
    }
  }

  lemma RunNothing(s: Pool)
    requires |s.lists| == CLASSES
    ensures LegalRun(s, []) && Run(s, []) == s && Answers(s, []) == []
  {
  }

  // ----- how many blocks are live

  function Pointers(answers: seq<Option<nat>>): nat {
    if answers == [] then 0 else (if answers[0].Some? then 1 else 0) + Pointers(answers[1..])
  }

  ghost function GiveCount(ops: seq<PoolOp>): nat {
    if ops == [] then 0 else (if ops[0].GiveOp? then 1 else 0) + GiveCount(ops[1..])
  }

  lemma StepLive(s: Pool, op: PoolOp)
    requires PoolInv(s) && LegalOp(s, op)
    ensures |StepPool(s, op).live| + (if op.GiveOp? then 1 else 0)
            == |s.live| + Pointers(AnswerTo(s, op))
    ensures op.GiveOp? ==> op.ptr !in StepPool(s, op).live
  {
    hide LiveHeld, FreeHeld, AllAccounted, BlocksApart, Take, Give, SafeBlock;
    match op
    case TakeOp(l, reply) =>
      TakeAnswers(s, l, reply);
      var ptr := Take(s, l, reply).1;
      var answers: seq<Option<nat>> := [ptr];
      assert answers[1..] == [];
      if ptr.Some? {
        OneMoreKey(s.live, ptr.value, l);
      }
    case GiveOp(p, l) =>
      GiveEndsLife(s, p, l);
      OneMoreKey(s.live - {p}, p, l);
      assert (s.live - {p})[p := l] == s.live;
  }

  lemma GiveEndsLife(s: Pool, p: nat, l: Layout)
    requires |s.lists| == CLASSES
    ensures Give(s, p, l).live == s.live - {p}
  {
    hide ListIndex;
  }

  lemma OneMoreKey<T>(m: map<nat, T>, p: nat, x: T)
    requires p !in m
    ensures |m[p := x]| == |m| + 1
  {
    assert m[p := x].Keys == m.Keys + {p};
  }

  lemma {:induction false} PointersAppend(a: seq<Option<nat>>, b: seq<Option<nat>>)
    ensures Pointers(a + b) == Pointers(a) + Pointers(b)
  {
    if a == [] {
      assert a + b == b;
    } else {
      assert (a + b)[1..] == a[1..] + b;
      PointersAppend(a[1..], b);
    }
  }

  /** The number of live blocks grows by one with each pointer answer and shrinks by one with each free. */
  lemma {:induction false} LiveCount(s: Pool, ops: seq<PoolOp>)
    requires PoolInv(s) && LegalRun(s, ops)
    ensures |Run(s, ops).live| + GiveCount(ops) == |s.live| + Pointers(Answers(s, ops))
    decreases |ops|
  {
    hide StepPool, LiveHeld, FreeHeld, AllAccounted, BlocksApart, LegalOp, AnswerTo;
    if ops != [] {
      PointersAppend(AnswerTo(s, ops[0]), Answers(StepPool(s, ops[0]), ops[1..]));
      StepKeepsPool(s, ops[0]);
      StepLive(s, ops[0]);
      LiveCount(StepPool(s, ops[0]), ops[1..]);
    }
  }

  // ----- the peak law

  function LiveOf(s: Pool, i: nat): set<nat> {
    set p | p in s.live && ListIndex(s.live[p]) == Some(i)
  }

  function HeldOf(s: Pool, i: nat): set<nat> {
    set p | p in s.issued && ListIndex(s.issued[p]) == Some(i)
  }

  /** The blocks held for class i are those live and those on its list. */
  lemma HeldCount(s: Pool, i: nat)
    requires PoolInv(s) && i < CLASSES
    ensures |HeldOf(s, i)| == |LiveOf(s, i)| + |s.lists[i]|
  {
    var free := set p | p in s.lists[i];
    DistinctCount(s.lists[i]);
    HeldSplits(s, i);
    assert LiveOf(s, i) * free == {};
  }

  lemma HeldSplits(s: Pool, i: nat)
    requires PoolInv(s) && i < CLASSES
    ensures HeldOf(s, i) == LiveOf(s, i) + set p | p in s.lists[i]
  {
    hide ListIndex, BlocksApart;
    var free := set p | p in s.lists[i];
    ClassLayoutFacts(i);
    forall p
      ensures p in HeldOf(s, i) <==> p in LiveOf(s, i) + free
    {
      if p in s.issued {
        assert Accounted(s.lists, s.live, p, s.issued[p]);
        if p in s.live {
          AskedSameClass(s.live[p]);
        } else {
          var j :| 0 <= j < CLASSES && p in s.lists[j] && s.issued[p] == ClassLayout(j);
          ClassLayoutFacts(j);
        }
      }
    }
  }

  /** The layout asked of the fallback is of the same class as the client's. */
  lemma AskedSameClass(l: Layout)
    ensures ListIndex(AskedFor(l)) == ListIndex(l)
  {
    hide ListIndex;
    ListIndexIsLeast(l);
    if ListIndex(l).Some? {
      ClassLayoutFacts(ListIndex(l).value);
    }
  }

  /** The most blocks of class i that are live at one moment of the run. */
  function PeakLive(s: Pool, ops: seq<PoolOp>, i: nat): nat
    requires |s.lists| == CLASSES
    decreases |ops|
  {
    if ops == [] then |LiveOf(s, i)| else Max(|LiveOf(s, i)|, PeakLive(StepPool(s, ops[0]), ops[1..], i))
  }

  /** A call that fetches a block of class i from the fallback. */
  ghost predicate Fetches(s: Pool, op: PoolOp, i: nat)
    requires |s.lists| == CLASSES
  {
    op.TakeOp? && ListIndex(op.layout) == Some(i) && Request(s, op.layout).Some? && op.reply.Some?
  }

  ghost function FetchCount(s: Pool, ops: seq<PoolOp>, i: nat): nat
    requires |s.lists| == CLASSES
    decreases |ops|
  {
    if ops == [] then 0
    else (if Fetches(s, ops[0], i) then 1 else 0) + FetchCount(StepPool(s, ops[0]), ops[1..], i)
  }

  lemma StepHeld(s: Pool, op: PoolOp, i: nat)
    requires PoolInv(s) && LegalOp(s, op) && i < CLASSES
    ensures HeldOf(StepPool(s, op), i)
            == if Fetches(s, op, i) then HeldOf(s, i) + {op.reply.value} else HeldOf(s, i)
    ensures Fetches(s, op, i) ==> op.reply.value !in HeldOf(s, i)
  {
    hide ListIndex, FreeHeld, AllAccounted, BlocksApart;
    match op
    case TakeOp(l, reply) => AskedSameClass(l);
    case GiveOp(p, l) => AskedSameClass(l);
  }

  /** A block is fetched only when every block held for the class is live. */
  lemma StepPeak(s: Pool, op: PoolOp, i: nat)
    requires PoolInv(s) && LegalOp(s, op) && i < CLASSES
    ensures var s' := StepPool(s, op);
            && |HeldOf(s', i)| == |HeldOf(s, i)| + (if Fetches(s, op, i) then 1 else 0)
            && |HeldOf(s', i)| == Max(|HeldOf(s, i)|, |LiveOf(s', i)|)
  {
    hide ListIndex, LiveHeld, FreeHeld, AllAccounted, BlocksApart, HeldOf, LiveOf;
    var s' := StepPool(s, op);
    StepKeepsPool(s, op);
    StepHeld(s, op, i);
    HeldCount(s, i);
    HeldCount(s', i);
    if Fetches(s, op, i) {
      assert s'.lists[i] == [];
    }
  }

  lemma {:induction false} HeldIsPeak(s: Pool, ops: seq<PoolOp>, i: nat)
    requires PoolInv(s) && LegalRun(s, ops) && i < CLASSES
    ensures |HeldOf(Run(s, ops), i)| == |HeldOf(s, i)| + FetchCount(s, ops, i)
    ensures |HeldOf(Run(s, ops), i)| == Max(|HeldOf(s, i)|, PeakLive(s, ops, i))
    decreases |ops|
  {
    hide ListIndex, LiveHeld, FreeHeld, AllAccounted, BlocksApart, HeldOf, LiveOf, StepPool, Fetches;
    HeldCount(s, i);
    if ops != [] {
      StepKeepsPool(s, ops[0]);
      StepPeak(s, ops[0], i);
      HeldIsPeak(StepPool(s, ops[0]), ops[1..], i);
    }
  }

  /**
   * Peak law: from a pool that has fetched nothing yet, the number of blocks of a class that are ever
   * fetched from the fallback is the largest number of that class ever live at one moment.
   */
  lemma PeakLaw(s: Pool, ops: seq<PoolOp>, i: nat)
    requires PoolInv(s) && s.issued == map[] && LegalRun(s, ops) && i < CLASSES
    ensures FetchCount(s, ops, i) == PeakLive(s, ops, i)
  {
    hide StepPool, ListIndex, FreeHeld, AllAccounted, BlocksApart;
    assert HeldOf(s, i) == {};
    HeldIsPeak(s, ops, i);
  }
}
