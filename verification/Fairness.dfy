/** Round-robin scheduling over whole runs: who is chosen, and how soon. */
module Fairness {
  import opened Collections
  import opened Memory
  import opened Machine
  import opened Preemption
  import Alignment

  /** The index t places further round from c, among n. */
  function PlaceAfter(c: nat, t: nat, n: nat): (p: nat)
    requires 0 < n
    ensures p < n
  {
    (c + t) % n
  }

  /** The event is an interrupt that changes the running process. */
  ghost predicate IsSwitch(m: Machine, e: Event) {
    e.Irq? && InterruptsOn(m.cpu) && Switches(m.sched, m.locked)
  }

  /** Number of processes, and the index of the current one. */
  datatype Turn = Turn(count: nat, current: nat)

  function TurnOf(m: Machine): Turn
    requires Booted(m)
  {
    Turn(|Processes(m)|, Current(m))
  }

  /** Only switches move the turn, to the next index; only spawns add a process. */
  lemma ApplyTurn(prog: Program, m: Machine, e: Event)
    requires Inv(m) && Legal(prog, m, e)
    ensures Booted(Apply(prog, m, e))
    ensures var t, t' := TurnOf(m), TurnOf(Apply(prog, m, e));
            if IsSwitch(m, e) then t' == Turn(t.count, PlaceAfter(t.current, 1, t.count))
            else t' == Turn(t.count + (if e.Spawn? then 1 else 0), t.current)
  {
    hide Unframe, HandlerMemory, SpawnMemory, Interrupt;
    if e.Irq? {
      if InterruptsOn(m.cpu) {
        IrqEffect(m, e.helper, e.first, e.second);
      } else {
        IrqIgnored(m, e.helper, e.first, e.second);
      }
    }
  }

  /** An interrupt that comes while the scheduler lock is held changes nothing a process can see. */
  lemma LockedInterrupt(m: Machine, helper: Helper, first: Noise, second: Noise, j: nat)
    requires Inv(m) && m.locked && j < |Processes(m)|
    requires NoiseInside(first, Processes(m)[Current(m)]) && NoiseInside(second, Processes(m)[Current(m)])
    ensures var m' := Interrupt(m, helper, first, second);
            m'.cpu == m.cpu && m'.sched == m.sched && ViewOf(m', j) == ViewOf(m, j)
  {
    hide Unframe, HandlerMemory, Interrupt;
    if InterruptsOn(m.cpu) {
      IrqEffect(m, helper, first, second);
      IrqKeepsViews(m, helper, first, second, j);
    } else {
      IrqIgnored(m, helper, first, second);
    }
  }

  // ----- the lock

  /** What each event does to the scheduler lock. */
  lemma ApplyLock(prog: Program, m: Machine, e: Event)
    requires Inv(m) && Legal(prog, m, e)
    ensures Apply(prog, m, e).locked == (if e.TakeLock? then true else if e.DropLock? then false else m.locked)
  {
    hide Unframe, HandlerMemory, SpawnMemory, Interrupt;
    if e.Irq? {
      if InterruptsOn(m.cpu) {
        IrqEffect(m, e.helper, e.first, e.second);
      } else {
        IrqIgnored(m, e.helper, e.first, e.second);
      }
    }
  }

  /** Nothing switches while the lock is held, and it stays held until it is dropped. */
  lemma {:induction false} HeldLock(prog: Program, m: Machine, es: seq<Event>)
    requires Inv(m) && LegalRun(prog, m, es) && m.locked && DropLock !in es
    ensures var m' := RunAll(prog, m, es);
            SwitchCount(prog, m, es) == 0 && m'.locked && Current(m') == Current(m)
    decreases |es|
  {
    hide Apply, Interrupt, Legal, GoodStacks, GoodRecord, OthersResumable, Fits, PlaceAfter;
    if es != [] {
      assert es[0] in es;
      ApplyKeepsInv(prog, m, es[0]);
      ApplyLock(prog, m, es[0]);
      ApplyTurn(prog, m, es[0]);
      HeldLock(prog, Apply(prog, m, es[0]), es[1..]);
    }
  }

  /**
   * Critical sections: from taking the lock until it is dropped no interrupt switches, whatever
   * steps, interrupts and spawns fall in between.
   */
  lemma CriticalSection(prog: Program, m: Machine, es: seq<Event>)
    requires Inv(m) && LegalRun(prog, m, es) && es != [] && es[0] == TakeLock && DropLock !in es
    ensures var m' := RunAll(prog, m, es);
            SwitchCount(prog, m, es) == 0 && m'.locked && Current(m') == Current(m)
  {
    hide Apply, Interrupt, Legal, GoodStacks, GoodRecord, OthersResumable, Fits, PlaceAfter;
    ApplyKeepsInv(prog, m, es[0]);
    ApplyLock(prog, m, es[0]);
    ApplyTurn(prog, m, es[0]);
    HeldLock(prog, Apply(prog, m, es[0]), es[1..]);
  }

  lemma RunTwo(prog: Program, m: Machine, es: seq<Event>)
    requires Inv(m) && LegalRun(prog, m, es) && |es| == 2
    ensures Legal(prog, m, es[0]) && Inv(Apply(prog, m, es[0])) && Legal(prog, Apply(prog, m, es[0]), es[1])
    ensures RunAll(prog, m, es) == Apply(prog, Apply(prog, m, es[0]), es[1])
  {
    hide Apply, Legal, GoodStacks, GoodRecord, OthersResumable, Fits;
    var m1 := Apply(prog, m, es[0]);
    ApplyKeepsInv(prog, m, es[0]);
    assert LegalRun(prog, m1, es[1..]);
    ApplyKeepsInv(prog, m1, es[1..][0]);
    assert RunAll(prog, m1, es[1..]) == RunAll(prog, Apply(prog, m1, es[1]), es[1..][1..]);
  }

  /** Taking the lock and dropping it again is no change at all. */
  lemma EmptySection(prog: Program, m: Machine, es: seq<Event>)
    requires Inv(m) && es == [TakeLock, DropLock] && LegalRun(prog, m, es)
    ensures RunAll(prog, m, es) == m
  {
    hide LegalRun, RunAll, GoodStacks, GoodRecord, OthersResumable, Fits;
    RunTwo(prog, m, es);
  }

  /** An interrupt switches exactly when it is taken, the lock is free and there are two processes or more. */
  lemma InterruptSwitches(prog: Program, m: Machine, e: Event)
    requires Inv(m) && Legal(prog, m, e) && e.Irq?
    ensures Booted(Apply(prog, m, e))
    ensures var c, c', n := Current(m), Current(Apply(prog, m, e)), |Processes(m)|;
            if (m.cpu.rflags / 0x200) % 2 == 1 && !m.locked && n >= 2 then c' == (c + 1) % n && c' != c
            else c' == c
  {
    hide Apply, Interrupt, Legal, GoodStacks, GoodRecord, OthersResumable, Fits;
    ApplyTurn(prog, m, e);
    if |Processes(m)| >= 2 {
      PlaceByCases(Current(m), 1, |Processes(m)|);
    }
  }

  /** Once the lock is dropped, the next interrupt that is taken switches. */
  lemma SwitchAfterDrop(prog: Program, m: Machine, es: seq<Event>)
    requires Inv(m) && LegalRun(prog, m, es) && |es| == 2 && es[0] == DropLock && es[1].Irq?
    requires InterruptsOn(m.cpu) && |Processes(m)| >= 2
    ensures Current(RunAll(prog, m, es)) == (Current(m) + 1) % |Processes(m)|
  {
    hide LegalRun, RunAll, Interrupt, GoodStacks, GoodRecord, OthersResumable, Fits;
    RunTwo(prog, m, es);
    InterruptSwitches(prog, Apply(prog, m, es[0]), es[1]);
  }

  // ----- how often and how soon

  ghost function SwitchCount(prog: Program, m: Machine, es: seq<Event>): nat
    requires Inv(m) && LegalRun(prog, m, es)
    decreases |es|
  {
    if es == [] then 0
    else
      ApplyKeepsInv(prog, m, es[0]);
      (if IsSwitch(m, es[0]) then 1 else 0) + SwitchCount(prog, Apply(prog, m, es[0]), es[1..])
  }

  function SpawnCount(es: seq<Event>): nat {
    if es == [] then 0 else (if es[0].Spawn? then 1 else 0) + SpawnCount(es[1..])
  }

  /** The processes at the end are those of the start and those spawned. */
  lemma {:induction false} ProcessesAfterRun(prog: Program, m: Machine, es: seq<Event>)
    requires Inv(m) && LegalRun(prog, m, es)
    ensures |Processes(RunAll(prog, m, es))| == |Processes(m)| + SpawnCount(es)
    decreases |es|
  {
    hide Apply, Interrupt, Legal, GoodStacks, GoodRecord, OthersResumable, Fits, PlaceAfter;
    if es != [] {
      ApplyKeepsInv(prog, m, es[0]);
      ApplyTurn(prog, m, es[0]);
      ProcessesAfterRun(prog, Apply(prog, m, es[0]), es[1..]);
    }
  }

  /** Some switch of the run chooses process k. */
  ghost predicate IsChosen(prog: Program, m: Machine, es: seq<Event>, k: nat)
    requires Inv(m) && LegalRun(prog, m, es)
    decreases |es|
  {
    es != [] &&
    (ApplyKeepsInv(prog, m, es[0]);
     var m1 := Apply(prog, m, es[0]);
     (IsSwitch(m, es[0]) && Current(m1) == k) || IsChosen(prog, m1, es[1..], k))
  }

  /** Switches until the turn reaches k, going round. */
  function Distance(t: Turn, k: nat): int {
    if t.current < k then k - t.current else t.count - t.current + k
  }

  /** Moving the turn on brings k one nearer, unless k is the one chosen. */
  lemma DistanceAfterSwitch(t: Turn, k: nat)
    requires t.current < t.count && k < t.count && t.count >= 2
    ensures var t' := Turn(t.count, PlaceAfter(t.current, 1, t.count));
            1 <= Distance(t, k) <= t.count
            && (if t'.current == k then Distance(t, k) == 1 && Distance(t', k) == t.count
                else Distance(t', k) == Distance(t, k) - 1)
  {
    PlaceByCases(t.current, 1, t.count);
  }

  lemma {:induction false} ChosenWithinDistance(prog: Program, m: Machine, es: seq<Event>, k: nat)
    requires Inv(m) && LegalRun(prog, m, es) && k < |Processes(m)|
    requires SwitchCount(prog, m, es) >= Distance(TurnOf(m), k) + SpawnCount(es)
    ensures IsChosen(prog, m, es, k)
    decreases |es|
  {
    hide Apply, Interrupt, Legal, GoodStacks, GoodRecord, OthersResumable, Fits, PlaceAfter;
    assert Distance(TurnOf(m), k) >= 1;
    assert es != [];
    var e := es[0];
    ApplyKeepsInv(prog, m, e);
    ApplyTurn(prog, m, e);
    if IsSwitch(m, e) {
      DistanceAfterSwitch(TurnOf(m), k);
    }
    if !(IsSwitch(m, e) && Current(Apply(prog, m, e)) == k) {
      ChosenWithinDistance(prog, Apply(prog, m, e), es[1..], k);
    }
  }

  /**
   * Fairness with growth: a run with at least n + s successful switches, where n processes exist at
   * the start and s are spawned on the way, chooses every one of the n processes.
   */
  lemma EveryProcessChosen(prog: Program, m: Machine, es: seq<Event>, k: nat)
    requires Inv(m) && LegalRun(prog, m, es) && k < |Processes(m)|
    requires SwitchCount(prog, m, es) >= |Processes(m)| + SpawnCount(es)
    ensures IsChosen(prog, m, es, k)
  {
    assert Distance(TurnOf(m), k) <= |Processes(m)|;
    ChosenWithinDistance(prog, m, es, k);
  }

  lemma PlaceByCases(c: nat, t: nat, n: nat)
    requires c < n && t <= n
    ensures PlaceAfter(c, t, n) == if c + t < n then c + t else c + t - n
  {
    if c + t < n {
      Alignment.DivModUnique(c + t, n, 0, c + t);
    } else {
      Alignment.DivModUnique(c + t, n, 1, c + t - n);
    }
  }

  lemma PlaceStep(c: nat, t: nat, n: nat)
    requires c < n
    ensures PlaceAfter(PlaceAfter(c, 1, n), t, n) == PlaceAfter(c, t + 1, n)
  {
    PlaceByCases(c, 1, n);
    if c + 1 == n {
      var q := t / n;
      assert t == q * n + t % n;
      assert c + (t + 1) == (q + 1) * n + t % n;
      Alignment.DivModUnique(c + (t + 1), n, q + 1, t % n);
    }
  }

  /** Without spawns the turn after t switches is t places further round. */
  lemma {:induction false} TurnAfterRun(prog: Program, m: Machine, es: seq<Event>)
    requires Inv(m) && LegalRun(prog, m, es) && SpawnCount(es) == 0
    ensures TurnOf(RunAll(prog, m, es))
            == Turn(|Processes(m)|, PlaceAfter(Current(m), SwitchCount(prog, m, es), |Processes(m)|))
    decreases |es|
  {
    hide Apply, Interrupt, Legal, PlaceAfter, GoodStacks, GoodRecord, OthersResumable, Fits, IsSwitch;
    if es == [] {
      PlaceByCases(Current(m), 0, |Processes(m)|);
    } else {
      ApplyKeepsInv(prog, m, es[0]);
      ApplyTurn(prog, m, es[0]);
      var m1 := Apply(prog, m, es[0]);
      TurnAfterRun(prog, m1, es[1..]);
      if IsSwitch(m, es[0]) {
        PlaceStep(Current(m), SwitchCount(prog, m1, es[1..]), |Processes(m)|);
      }
    }
  }

  /** How often a run chooses process k. */
  ghost function ChosenCount(prog: Program, m: Machine, es: seq<Event>, k: nat): nat
    requires Inv(m) && LegalRun(prog, m, es)
    decreases |es|
  {
    if es == [] then 0
    else
      ApplyKeepsInv(prog, m, es[0]);
      var m1 := Apply(prog, m, es[0]);
      (if IsSwitch(m, es[0]) && Current(m1) == k then 1 else 0) + ChosenCount(prog, m1, es[1..], k)
  }

  lemma {:induction false} ChosenIsCounted(prog: Program, m: Machine, es: seq<Event>, k: nat)
    requires Inv(m) && LegalRun(prog, m, es)
    ensures IsChosen(prog, m, es, k) <==> ChosenCount(prog, m, es, k) > 0
    decreases |es|
  {
    hide Apply, Interrupt, Legal, GoodStacks, GoodRecord, OthersResumable, Fits, IsSwitch;
    if es != [] {
      ApplyKeepsInv(prog, m, es[0]);
      ChosenIsCounted(prog, Apply(prog, m, es[0]), es[1..], k);
    }
  }

  /** In at most one full round a process is chosen once, or not yet. */
  lemma {:induction false} ChosenInRound(prog: Program, m: Machine, es: seq<Event>, k: nat)
    requires Inv(m) && LegalRun(prog, m, es) && k < |Processes(m)|
    requires SpawnCount(es) == 0 && SwitchCount(prog, m, es) <= |Processes(m)|
    ensures ChosenCount(prog, m, es, k)
            == if SwitchCount(prog, m, es) >= Distance(TurnOf(m), k) then 1 else 0
    decreases |es|
  {
    hide Apply, Interrupt, Legal, GoodStacks, GoodRecord, OthersResumable, Fits, PlaceAfter;
    if es != [] {
      ApplyKeepsInv(prog, m, es[0]);
      ApplyTurn(prog, m, es[0]);
      if IsSwitch(m, es[0]) {
        DistanceAfterSwitch(TurnOf(m), k);
      }
      ChosenInRound(prog, Apply(prog, m, es[0]), es[1..], k);
    }
  }

  /** Without spawns, any n switches in a row choose each of the n processes exactly once. */
  lemma EachOncePerRound(prog: Program, m: Machine, es: seq<Event>, k: nat)
    requires Inv(m) && LegalRun(prog, m, es) && k < |Processes(m)|
    requires SpawnCount(es) == 0 && SwitchCount(prog, m, es) == |Processes(m)|
    ensures ChosenCount(prog, m, es, k) == 1
  {
    ChosenInRound(prog, m, es, k);
    assert Distance(TurnOf(m), k) <= |Processes(m)|;
  }

  // ----- the life of the scheduler record before and between runs

  datatype Registration = Root(lo: nat, top: nat) | Child(entry: nat, lo: nat)

  /** `spawn_root` and `spawn` as they change the scheduler record and the process counter. */
  function Register(s: Scheduler, nextPid: nat, r: Registration): (Scheduler, nat) {
    match r
    case Root(lo, top) => (Scheduler(s.processes + [Process(0, Running, 0, lo, top)], 0), nextPid)
    case Child(_, lo) => (s.(processes := s.processes + [SpawnProcess(nextPid, lo)]), nextPid + 1)
  }

  function RegisterAll(s: Scheduler, nextPid: nat, rs: seq<Registration>): (Scheduler, nat)
    decreases |rs|
  {
    if rs == [] then (s, nextPid)
    else
      var (s1, p1) := Register(s, nextPid, rs[0]);
      RegisterAll(s1, p1, rs[1..])
  }

  ghost predicate RootFirstAndOnce(rs: seq<Registration>) {
    rs != [] && rs[0].Root? && forall i :: 1 <= i < |rs| ==> rs[i].Child?
  }

  lemma {:induction false} ChildrenKeepRecord(s: Scheduler, rs: seq<Registration>)
    requires GoodRecord(s) && forall i :: 0 <= i < |rs| ==> rs[i].Child?
    ensures var (s', pid) := RegisterAll(s, |s.processes|, rs);
            GoodRecord(s') && pid == |s'.processes| == |s.processes| + |rs|
    decreases |rs|
  {
    if rs != [] {
      ChildrenKeepRecord(Register(s, |s.processes|, rs[0]).0, rs[1..]);
    }
  }

  /** Registered processes stay at their positions. */
  lemma {:induction false} RegisterAllKeeps(s: Scheduler, nextPid: nat, rs: seq<Registration>, i: nat)
    requires i < |s.processes|
    ensures var s' := RegisterAll(s, nextPid, rs).0;
            i < |s'.processes| && s'.processes[i] == s.processes[i]
    decreases |rs|
  {
    if rs != [] {
      var (s1, p1) := Register(s, nextPid, rs[0]);
      RegisterAllKeeps(s1, p1, rs[1..], i);
    }
  }

  /** A root registered after another process breaks the record for good: its id is 0, not its position. */
  lemma {:induction false} LateRootBreaks(s: Scheduler, nextPid: nat, rs: seq<Registration>, k: nat)
    requires s.processes != [] && k < |rs| && rs[k].Root?
    ensures !GoodRecord(RegisterAll(s, nextPid, rs).0)
    decreases |rs|
  {
    var (s1, p1) := Register(s, nextPid, rs[0]);
    if k == 0 {
      RegisterAllKeeps(s1, p1, rs[1..], |s.processes|);
    } else {
      LateRootBreaks(s1, p1, rs[1..], k - 1);
    }
  }

  /**
   * Started empty with the process counter at 1, the record is good after a sequence of
   * registrations exactly when the root is registered first and never again.
   */
  lemma BootOrder(rs: seq<Registration>)
    ensures GoodRecord(RegisterAll(Scheduler([], 0), 1, rs).0) <==> RootFirstAndOnce(rs)
  {
    var empty := Scheduler([], 0);
    if rs != [] {
      var (s1, p1) := Register(empty, 1, rs[0]);
      assert s1.processes != [];
      if rs[0].Child? {
        RegisterAllKeeps(s1, p1, rs[1..], 0);
      } else if RootFirstAndOnce(rs) {
        ChildrenKeepRecord(s1, rs[1..]);
      } else {
        var i :| 1 <= i < |rs| && !rs[i].Child?;
        LateRootBreaks(s1, p1, rs[1..], i - 1);
      }
    }
  }
}
