/**
 * Preemption is transparent: one CPU under timer and keyboard interrupts simulates one CPU for
 * each process. A process is any function from what it can see of the machine to what it leaves.
 */
module Preemption {
  import opened Collections
  import opened Memory
  import opened Machine

  const STACK_SIZE: nat := 16384
  /** Bytes below rsp for a frame, with at most 8 more to align it. */
  const ROOM: nat := 168

  /** What a process can see: the registers, and the words of its stack from rsp up to the end. */
  datatype View = View(cpu: Cpu, stack: seq<nat>)

  /** A process, as a function of its index, its view, and what it reads from outside. */
  type Program = (nat, View, nat) -> View

  predicate Booted(m: Machine) {
    m.sched.Some? && m.sched.value.current < |m.sched.value.processes|
  }

  function Processes(m: Machine): seq<Process>
    requires Booted(m)
  {
    m.sched.value.processes
  }

  function Current(m: Machine): nat
    requires Booted(m)
  {
    m.sched.value.current
  }

  /** The CPU state of process j: live for the current process, in its saved frame for the others. */
  function CpuOf(m: Machine, j: nat): Cpu
    requires Booted(m) && j < |Processes(m)|
  {
    if j == Current(m) then m.cpu else Unframe(m.mem, Processes(m)[j].rsp)
  }

  function StackWords(mem: Words, rsp: nat, top: nat): seq<nat> {
    if rsp <= top then Slice(mem, rsp, (top - rsp) / 8) else []
  }

  function ViewOf(m: Machine, j: nat): View
    requires Booted(m) && j < |Processes(m)|
  {
    View(CpuOf(m, j), StackWords(m.mem, CpuOf(m, j).rsp, Processes(m)[j].top))
  }

  // ----- the invariant

  ghost predicate GoodStack(p: Process) {
    0 < p.lo <= p.top && p.lo % 8 == 0 && p.top % 8 == 0
  }

  ghost predicate StacksDisjoint(p: Process, q: Process) {
    p.top <= q.lo || q.top <= p.lo
  }

  ghost predicate GoodStacks(ps: seq<Process>) {
    && (forall i :: 0 <= i < |ps| ==> GoodStack(ps[i]))
    && (forall i, j :: 0 <= i < j < |ps| ==> StacksDisjoint(ps[i], ps[j]))
  }

  /** Exactly the current process is running, and every process has its position as its id. */
  ghost predicate GoodRecord(s: Scheduler) {
    && s.current < |s.processes|
    && (forall i :: 0 <= i < |s.processes| ==> s.processes[i].id == i)
    && (forall i :: 0 <= i < |s.processes| ==> (s.processes[i].state == Running <==> i == s.current))
  }

  /** The stack pointer is in the process's own stack, with room left for a frame. */
  ghost predicate Fits(cpu: Cpu, p: Process) {
    AllRegs(cpu.regs) && cpu.rsp % 8 == 0 && p.lo + ROOM <= cpu.rsp <= p.top
  }

  /** The saved stack pointer is at a complete frame in the process's own stack, below what it resumes. */
  ghost predicate Resumable(mem: Words, p: Process) {
    && p.rsp % 8 == 0 && p.lo <= p.rsp && p.rsp + FRAME_BYTES <= Unframe(mem, p.rsp).rsp
    && Fits(Unframe(mem, p.rsp), p)
    && InterruptsOn(Unframe(mem, p.rsp))
  }

  ghost predicate OthersResumable(mem: Words, s: Scheduler) {
    forall j :: 0 <= j < |s.processes| && j != s.current ==> Resumable(mem, s.processes[j])
  }

  ghost predicate Inv(m: Machine) {
    && Booted(m)
    && m.nextPid == |Processes(m)|
    && GoodStacks(Processes(m))
    && GoodRecord(m.sched.value)
    && Fits(m.cpu, Processes(m)[Current(m)])
    && OthersResumable(m.mem, m.sched.value)
  }

  // ----- what happens

  datatype Event =
    | Step(input: nat)
    | Irq(helper: Helper, first: Noise, second: Noise)
    | TakeLock
    | DropLock
    | Spawn(entry: nat, lo: nat)

  function Zeroed(mem: Words, lo: nat, top: nat): Words {
    map a | a in mem && !(lo <= a < top) :: mem[a]
  }

  function Zeros(n: nat): (s: seq<nat>)
    ensures |s| == n && forall k :: 0 <= k < n ==> s[k] == 0
  {
    if n == 0 then [] else Zeros(n - 1) + [0]
  }

  /** The 20 words that `spawn` writes at the end of a new stack. */
  function ForgedFrame(entry: nat, top: nat): seq<nat> {
    Zeros(15) + [entry, 0x08, 0x200, top, 0x10]
  }

  function SpawnMemory(mem: Words, entry: nat, lo: nat): Words {
    Store(Zeroed(mem, lo, lo + STACK_SIZE), lo + STACK_SIZE - FRAME_BYTES, ForgedFrame(entry, lo + STACK_SIZE))
  }

  function SpawnProcess(pid: nat, lo: nat): Process {
    Process(pid, Ready, lo + STACK_SIZE - FRAME_BYTES, lo, lo + STACK_SIZE)
  }

  function Apply(prog: Program, m: Machine, e: Event): Machine
    requires Booted(m)
  {
    match e
    case Step(x) =>
      var v := prog(Current(m), ViewOf(m, Current(m)), x);
      m.(cpu := v.cpu, mem := Store(m.mem, v.cpu.rsp, v.stack))
    case Irq(helper, first, second) => Interrupt(m, helper, first, second)
    case TakeLock => m.(locked := true)
    case DropLock => m.(locked := false)
    case Spawn(entry, lo) =>
      m.(mem := SpawnMemory(m.mem, entry, lo), nextPid := m.nextPid + 1,
         sched := Some(m.sched.value.(processes := Processes(m) + [SpawnProcess(m.nextPid, lo)])))
  }

  ghost predicate NoiseInside(n: Noise, p: Process) {
    forall a :: a in n.scratch ==> p.lo <= a
  }

  /**
   * A process keeps to its registers and its stack and leaves room for a frame; calls from the
   * handlers stay in that stack; only the holder of the lock spawns, and on fresh memory.
   */
  ghost predicate Legal(prog: Program, m: Machine, e: Event)
    requires Booted(m)
  {
    var p := Processes(m)[Current(m)];
    match e
    case Step(x) =>
      var v := prog(Current(m), ViewOf(m, Current(m)), x);
      Fits(v.cpu, p) && 8 * |v.stack| == p.top - v.cpu.rsp
    case Irq(_, first, second) => NoiseInside(first, p) && NoiseInside(second, p)
    case TakeLock => !m.locked
    case DropLock => m.locked
    case Spawn(_, lo) =>
      && m.locked && 0 < lo && lo % 8 == 0
      && forall i :: 0 <= i < |Processes(m)| ==> StacksDisjoint(Processes(m)[i], SpawnProcess(m.nextPid, lo))
  }

  // ----- frames and memory

  lemma {:induction false} LoadRegsSame(mem: Words, mem': Words, a: nat, rs: seq<Reg>, regs: Regs)
    requires SameBetween(mem, mem', a, a + 8 * |rs|)
    ensures LoadRegs(mem', a, rs, regs) == LoadRegs(mem, a, rs, regs)
    decreases |rs|
  {
    if rs != [] {
      LoadRegsSame(mem, mem', a + 8, rs[1..], regs[rs[0] := Read(mem, a)]);
    }
  }

  lemma UnframeSame(mem: Words, mem': Words, at: nat)
    requires SameBetween(mem, mem', at, at + FRAME_BYTES)
    ensures Unframe(mem', at) == Unframe(mem, at)
  {
    hide LoadRegs, PopOrder;
    OrdersMirror();
    LoadRegsSame(mem, mem', at, PopOrder(), map[]);
  }

  /** A process whose stack is untouched has the same saved state and sees the same words. */
  lemma UntouchedProcess(mem: Words, mem': Words, p: Process)
    requires GoodStack(p) && Resumable(mem, p) && SameBetween(mem, mem', p.lo, p.top)
    ensures Unframe(mem', p.rsp) == Unframe(mem, p.rsp) && Resumable(mem', p)
    ensures StackWords(mem', Unframe(mem, p.rsp).rsp, p.top) == StackWords(mem, Unframe(mem, p.rsp).rsp, p.top)
  {
    hide Unframe;
    UnframeSame(mem, mem', p.rsp);
    var rsp := Unframe(mem, p.rsp).rsp;
    SliceSame(mem, mem', p.lo, p.top, rsp, (p.top - rsp) / 8);
  }

  lemma CallKeeps(mem: Words, rsp: nat, n: Noise, p: Process)
    requires NoiseInside(n, p)
    ensures SameBetween(mem, CallMemory(mem, rsp, n), 0, p.lo)
    ensures forall top: nat :: SameBetween(mem, CallMemory(mem, rsp, n), rsp, top)
  {
  }

  lemma FrameAligned(rsp: nat)
    requires rsp % 8 == 0 && rsp >= ROOM + 8
    ensures var base := FrameAddress(rsp);
            base % 16 == 0 && base + FRAME_BYTES <= rsp < base + FRAME_BYTES + 16 && rsp <= base + ROOM
  {
  }

  /** The handler writes only between the low end of the current stack and the interrupted rsp. */
  lemma HandlerWrites(m: Machine, p: Process, first: Noise, second: Noise)
    requires GoodStack(p) && Fits(m.cpu, p) && NoiseInside(first, p) && NoiseInside(second, p)
    ensures var mem := HandlerMemory(m, first, second);
            var base := FrameAddress(m.cpu.rsp);
            && p.lo <= base && base + 160 <= m.cpu.rsp < base + 176 && base % 16 == 0
            && SameBetween(m.mem, mem, 0, p.lo)
            && (forall top: nat :: SameBetween(m.mem, mem, m.cpu.rsp, top))
            && Slice(mem, base, FRAME_WORDS) == Frame(m.cpu)
  {
    hide Store, Frame, Slice, CallMemory, FrameAddress;
    var base := FrameAddress(m.cpu.rsp);
    FrameAligned(m.cpu.rsp);
    var mem0 := Store(m.mem, base, Frame(m.cpu));
    StoreReads(m.mem, base, Frame(m.cpu));
    var mem1 := CallMemory(mem0, base, first);
    var mem2 := CallMemory(mem1, base, second);
    CallKeeps(mem0, base, first, p);
    CallKeeps(mem1, base, second, p);
    assert SameBetween(mem0, mem1, base, base + FRAME_BYTES) && SameBetween(mem1, mem2, base, base + FRAME_BYTES);
    forall top: nat
      ensures SameBetween(m.mem, mem2, m.cpu.rsp, top)
    {
      assert SameBetween(mem0, mem1, base, top) && SameBetween(mem1, mem2, base, top);
    }
    SliceSame(mem0, mem2, base, base + FRAME_BYTES, base, FRAME_WORDS);
  }

  lemma IrqUntouched(m: Machine, j: nat, first: Noise, second: Noise)
    requires Inv(m) && j < |Processes(m)| && j != Current(m)
    requires NoiseInside(first, Processes(m)[Current(m)]) && NoiseInside(second, Processes(m)[Current(m)])
    ensures m.cpu.rsp >= FRAME_BYTES + 15
    ensures var p := Processes(m)[j];
            SameBetween(m.mem, HandlerMemory(m, first, second), p.lo, p.top)
  {
    hide HandlerMemory, Resumable, Slice, Frame, GoodRecord, OthersResumable;
    var c := Processes(m)[Current(m)];
    HandlerWrites(m, c, first, second);
    StacksApart(Processes(m), j, Current(m));
    OutsideRange(m.mem, HandlerMemory(m, first, second), Processes(m)[j], c, m.cpu.rsp);
  }

  lemma StacksApart(ps: seq<Process>, i: nat, j: nat)
    requires GoodStacks(ps) && i < |ps| && j < |ps|
    ensures i != j ==> StacksDisjoint(ps[i], ps[j])
    ensures GoodStack(ps[i]) && GoodStack(ps[j])
  {
    assert i != j ==> StacksDisjoint(ps[Min(i, j)], ps[Max(i, j)]);
  }

  /** Writes between c.lo and rsp miss every stack that is disjoint from c's. */
  lemma OutsideRange(mem: Words, mem': Words, p: Process, c: Process, rsp: nat)
    requires GoodStack(p) && StacksDisjoint(p, c) && rsp <= c.top
    requires SameBetween(mem, mem', 0, c.lo) && forall top: nat :: SameBetween(mem, mem', rsp, top)
    ensures SameBetween(mem, mem', p.lo, p.top)
  {
    assert SameBetween(mem, mem', rsp, p.top);
  }

  // ----- one interrupt

  /** The machine after a taken interrupt, with the interrupted CPU state now in a frame. */
  lemma IrqEffect(m: Machine, helper: Helper, first: Noise, second: Noise)
    requires Inv(m) && InterruptsOn(m.cpu)
    requires NoiseInside(first, Processes(m)[Current(m)]) && NoiseInside(second, Processes(m)[Current(m)])
    ensures m.cpu.rsp >= FRAME_BYTES + 15
    ensures var mem := HandlerMemory(m, first, second);
            var base := FrameAddress(m.cpu.rsp);
            var m' := Interrupt(m, helper, first, second);
            && Unframe(mem, base) == m.cpu
            && m' == m.(mem := mem, sched := Preempt(m.sched, m.locked, base).0, cpu := m'.cpu)
            && m'.cpu == if Switches(m.sched, m.locked) then CpuOf(m, NextIndex(m.sched.value)) else m.cpu
  {
    hide HandlerMemory, Unframe, Frame, Interrupt, Slice;
    var c := Processes(m)[Current(m)];
    HandlerWrites(m, c, first, second);
    HandlerEffect(m, helper, first, second);
    var mem := HandlerMemory(m, first, second);
    UnframeFrame(mem, FrameAddress(m.cpu.rsp), m.cpu);
    if Switches(m.sched, m.locked) {
      var next := NextIndex(m.sched.value);
      NextDiffers(m.sched.value);
      IrqUntouched(m, next, first, second);
      UntouchedProcess(m.mem, mem, Processes(m)[next]);
    }
  }

  lemma NextDiffers(s: Scheduler)
    requires s.current < |s.processes| && |s.processes| >= 2
    ensures NextIndex(s) < |s.processes| && NextIndex(s) != s.current
    ensures NextIndex(s) == if s.current + 1 < |s.processes| then s.current + 1 else 0
  {
  }

  lemma IrqKeepsInv(m: Machine, helper: Helper, first: Noise, second: Noise)
    requires Inv(m) && InterruptsOn(m.cpu)
    requires NoiseInside(first, Processes(m)[Current(m)]) && NoiseInside(second, Processes(m)[Current(m)])
    ensures Inv(Interrupt(m, helper, first, second))
  {
    hide HandlerMemory, Unframe, Interrupt, Frame, GoodStacks, GoodRecord, FrameAddress;
    IrqEffect(m, helper, first, second);
    var c := Current(m);
    StacksApart(Processes(m), c, c);
    HandlerWrites(m, Processes(m)[c], first, second);
    var mem, base := HandlerMemory(m, first, second), FrameAddress(m.cpu.rsp);
    OthersStayResumable(m, first, second);
    if Switches(m.sched, m.locked) {
      PreemptKeepsRecord(m.sched.value, base);
      SwitchKeepsResumable(mem, m.sched.value, Preempt(m.sched, false, base).0.value, base, m.cpu);
    }
  }

  lemma OthersStayResumable(m: Machine, first: Noise, second: Noise)
    requires Inv(m)
    requires NoiseInside(first, Processes(m)[Current(m)]) && NoiseInside(second, Processes(m)[Current(m)])
    ensures m.cpu.rsp >= FRAME_BYTES + 15
    ensures OthersResumable(HandlerMemory(m, first, second), m.sched.value)
    ensures forall j :: 0 <= j < |Processes(m)| && j != Current(m) ==>
              Unframe(HandlerMemory(m, first, second), Processes(m)[j].rsp) == Unframe(m.mem, Processes(m)[j].rsp)
  {
    hide HandlerMemory, Unframe, GoodStacks, GoodRecord;
    StacksApart(Processes(m), Current(m), Current(m));
    forall j | 0 <= j < |Processes(m)| && j != Current(m)
      ensures Resumable(HandlerMemory(m, first, second), Processes(m)[j])
      ensures Unframe(HandlerMemory(m, first, second), Processes(m)[j].rsp) == Unframe(m.mem, Processes(m)[j].rsp)
    {
      IrqUntouched(m, j, first, second);
      StacksApart(Processes(m), j, Current(m));
      UntouchedProcess(m.mem, HandlerMemory(m, first, second), Processes(m)[j]);
    }
  }

  /** The record after a switch: one stack pointer saved, stacks as before, the turn moved on. */
  ghost predicate SwitchedRecord(s: Scheduler, s': Scheduler, base: nat) {
    && |s'.processes| == |s.processes| && s.current < |s.processes| && s'.current < |s.processes|
    && s'.current != s.current
    && forall j :: 0 <= j < |s.processes| ==>
         s'.processes[j] == Process(s.processes[j].id, s'.processes[j].state,
                                    if j == s.current then base else s.processes[j].rsp,
                                    s.processes[j].lo, s.processes[j].top)
  }

  /** A switch saves one stack pointer and passes the Running state on; stacks and ids stay. */
  lemma PreemptKeepsRecord(s: Scheduler, base: nat)
    requires GoodRecord(s) && GoodStacks(s.processes) && |s.processes| >= 2
    ensures var s' := Preempt(Some(s), false, base).0.value;
            GoodRecord(s') && GoodStacks(s'.processes) && SwitchedRecord(s, s', base) && s'.current == NextIndex(s)
  {
    NextDiffers(s);
    var s' := Preempt(Some(s), false, base).0.value;
    assert SwitchedRecord(s, s', base);
    StacksStay(s, s', base);
  }

  lemma StacksStay(s: Scheduler, s': Scheduler, base: nat)
    requires SwitchedRecord(s, s', base) && GoodStacks(s.processes)
    ensures GoodStacks(s'.processes)
  {
    forall i, j | 0 <= i < j < |s.processes|
      ensures StacksDisjoint(s'.processes[i], s'.processes[j])
    {
      assert StacksDisjoint(s.processes[i], s.processes[j]);
    }
    forall i | 0 <= i < |s.processes|
      ensures GoodStack(s'.processes[i])
    {
      assert GoodStack(s.processes[i]);
    }
  }

  /** After a switch the interrupted process joins those that can be resumed, and the next one fits. */
  lemma SwitchKeepsResumable(mem: Words, s: Scheduler, s': Scheduler, base: nat, cpu: Cpu)
    requires SwitchedRecord(s, s', base) && OthersResumable(mem, s)
    requires Unframe(mem, base) == cpu && Fits(cpu, s.processes[s.current]) && InterruptsOn(cpu)
    requires base % 8 == 0 && s.processes[s.current].lo <= base && base + FRAME_BYTES <= cpu.rsp
    ensures OthersResumable(mem, s')
    ensures Fits(Unframe(mem, s.processes[s'.current].rsp), s'.processes[s'.current])
  {
    hide Unframe;
    assert Resumable(mem, s.processes[s'.current]);
    forall j | 0 <= j < |s'.processes| && j != s'.current
      ensures Resumable(mem, s'.processes[j])
    {
      if j != s.current {
        assert Resumable(mem, s.processes[j]);
      }
    }
  }

  lemma IrqKeepsViews(m: Machine, helper: Helper, first: Noise, second: Noise, j: nat)
    requires Inv(m) && InterruptsOn(m.cpu) && j < |Processes(m)|
    requires NoiseInside(first, Processes(m)[Current(m)]) && NoiseInside(second, Processes(m)[Current(m)])
    ensures var m' := Interrupt(m, helper, first, second);
            Booted(m') && |Processes(m')| == |Processes(m)| && ViewOf(m', j) == ViewOf(m, j)
  {
    hide HandlerMemory, Unframe, Interrupt, Frame, GoodStacks, GoodRecord, FrameAddress, Slice;
    IrqEffect(m, helper, first, second);
    var c, mem := Current(m), HandlerMemory(m, first, second);
    StacksApart(Processes(m), j, c);
    if Switches(m.sched, m.locked) {
      PreemptKeepsRecord(m.sched.value, FrameAddress(m.cpu.rsp));
      NextDiffers(m.sched.value);
    }
    if j == c {
      HandlerWrites(m, Processes(m)[c], first, second);
      var top := Processes(m)[c].top;
      SliceSame(m.mem, mem, m.cpu.rsp, top, m.cpu.rsp, (top - m.cpu.rsp) / 8);
    } else {
      IrqUntouched(m, j, first, second);
      UntouchedProcess(m.mem, mem, Processes(m)[j]);
    }
  }

  // ----- one event

  lemma StepKeepsInv(prog: Program, m: Machine, x: nat)
    requires Inv(m) && Legal(prog, m, Step(x))
    ensures Inv(Apply(prog, m, Step(x)))
    ensures StepWritesOnlyStack(prog, m, x)
  {
    hide Unframe, Store, Slice;
    var c := Current(m);
    var p := Processes(m)[c];
    var v := prog(c, ViewOf(m, c), x);
    var mem := Store(m.mem, v.cpu.rsp, v.stack);
    StoreReads(m.mem, v.cpu.rsp, v.stack);
    forall j | 0 <= j < |Processes(m)| && j != c
      ensures Resumable(mem, Processes(m)[j]) && SameBetween(m.mem, mem, Processes(m)[j].lo, Processes(m)[j].top)
    {
      StacksApart(Processes(m), j, c);
      assert Resumable(m.mem, Processes(m)[j]);
      UntouchedProcess(m.mem, mem, Processes(m)[j]);
    }
  }

  ghost predicate StepWritesOnlyStack(prog: Program, m: Machine, x: nat)
    requires Booted(m)
  {
    var m' := Apply(prog, m, Step(x));
    forall j :: 0 <= j < |Processes(m)| && j != Current(m) ==>
      SameBetween(m.mem, m'.mem, Processes(m)[j].lo, Processes(m)[j].top)
  }

  /** A process step changes the view of that process as its program says, and no other view. */
  lemma StepViews(prog: Program, m: Machine, x: nat, j: nat)
    requires Inv(m) && Legal(prog, m, Step(x)) && j < |Processes(m)|
    ensures var m' := Apply(prog, m, Step(x));
            Booted(m') && |Processes(m')| == |Processes(m)|
            && ViewOf(m', j) == if j == Current(m) then prog(j, ViewOf(m, j), x) else ViewOf(m, j)
  {
    hide Unframe, Store, Slice;
    StepKeepsInv(prog, m, x);
    var m' := Apply(prog, m, Step(x));
    if j == Current(m) {
      var v := prog(j, ViewOf(m, j), x);
      StoreReads(m.mem, v.cpu.rsp, v.stack);
    } else {
      StacksApart(Processes(m), j, Current(m));
      UntouchedProcess(m.mem, m'.mem, Processes(m)[j]);
    }
  }

  // ----- spawning

  /** The CPU state in which a spawned process starts. */
  function FreshCpu(entry: nat, top: nat): Cpu {
    Cpu(map r: Reg | r in PopOrder() :: 0, entry, 0x08, 0x200, top, 0x10)
  }

  lemma ForgedIsFrame(entry: nat, top: nat)
    ensures ForgedFrame(entry, top) == Frame(FreshCpu(entry, top))
    ensures AllRegs(FreshCpu(entry, top).regs) && InterruptsOn(FreshCpu(entry, top))
  {
    hide Stacked, PushOrder, PopOrder;
    OrdersMirror();
    var cpu := FreshCpu(entry, top);
    forall r: Reg
      ensures r in cpu.regs
    {
      OrdersCoverAll(r);
    }
    forall k | 0 <= k < 15
      ensures Stacked(cpu.regs, PushOrder())[k] == 0
    {
      StackedAt(cpu.regs, PushOrder(), k);
    }
    assert Stacked(cpu.regs, PushOrder()) == Zeros(15);
  }

  /** `spawn` leaves a frame of the fresh CPU state on a stack of zeros and writes nothing outside that stack. */
  lemma SpawnWrites(mem: Words, entry: nat, lo: nat)
    ensures var mem' := SpawnMemory(mem, entry, lo);
            && Unframe(mem', SpawnProcess(0, lo).rsp) == FreshCpu(entry, lo + STACK_SIZE)
            && SameBetween(mem, mem', 0, lo)
            && (forall a: nat :: lo + STACK_SIZE <= a ==> Read(mem', a) == Read(mem, a))
            && (forall a: nat :: lo <= a < lo + STACK_SIZE - FRAME_BYTES ==> Read(mem', a) == 0)
  {
    hide Store, ForgedFrame, Unframe, Frame;
    var top := lo + STACK_SIZE;
    var zeroed := Zeroed(mem, lo, top);
    ForgedIsFrame(entry, top);
    StoreReads(zeroed, top - FRAME_BYTES, ForgedFrame(entry, top));
    UnframeFrame(SpawnMemory(mem, entry, lo), top - FRAME_BYTES, FreshCpu(entry, top));
    assert SameBetween(zeroed, SpawnMemory(mem, entry, lo), 0, top - FRAME_BYTES);
  }

  /**
   * First resume: popping 15 registers and `iretq` from the stack pointer that `spawn` stores starts
   * at the entry point, with all registers 0, interrupts on, and the stack pointer at the end of the
   * new stack, whatever the registers held before.
   */
  lemma FirstResume(m: Machine, mem: Words, entry: nat, lo: nat)
    requires IndexOk(m.sched) && m.mem == SpawnMemory(mem, entry, lo)
    requires m.cpu.rsp == SpawnProcess(m.nextPid, lo).rsp
    ensures var m' := Run(m, Pops(PopOrder()) + [Iretq]);
            && m' == m.(cpu := m'.cpu)
            && m'.cpu.rip == entry && m'.cpu.cs == 0x08 && m'.cpu.rflags == 0x200
            && m'.cpu.rsp == lo + 16384 && m'.cpu.ss == 0x10
            && (forall r: Reg :: r in m'.cpu.regs && m'.cpu.regs[r] == 0)
  {
    hide Run, Pops, PopOrder, Unframe, SpawnMemory;
    SpawnWrites(mem, entry, lo);
    PopsAndIretq(m);
    ForgedIsFrame(entry, lo + STACK_SIZE);
  }

  lemma SpawnKeepsInv(prog: Program, m: Machine, entry: nat, lo: nat)
    requires Inv(m) && Legal(prog, m, Spawn(entry, lo))
    ensures Inv(Apply(prog, m, Spawn(entry, lo)))
  {
    hide Unframe, SpawnMemory;
    var m' := Apply(prog, m, Spawn(entry, lo));
    var n := |Processes(m)|;
    SpawnWrites(m.mem, entry, lo);
    SpawnedResumable(m.mem, entry, lo, m.nextPid);
    forall j | 0 <= j < n && j != Current(m)
      ensures Resumable(m'.mem, Processes(m')[j])
    {
      assert Resumable(m.mem, Processes(m)[j]) && GoodStack(Processes(m)[j]);
      SpawnUntouched(m, entry, lo, j);
      UntouchedProcess(m.mem, m'.mem, Processes(m)[j]);
    }
    assert GoodStack(SpawnProcess(m.nextPid, lo));
  }

  lemma SpawnedResumable(mem: Words, entry: nat, lo: nat, pid: nat)
    requires 0 < lo && lo % 8 == 0
    ensures Resumable(SpawnMemory(mem, entry, lo), SpawnProcess(pid, lo))
  {
    hide Unframe, SpawnMemory, PopOrder, ForgedFrame, Frame;
    SpawnWrites(mem, entry, lo);
    ForgedIsFrame(entry, lo + STACK_SIZE);
  }

  lemma SpawnUntouched(m: Machine, entry: nat, lo: nat, j: nat)
    requires Booted(m) && j < |Processes(m)|
    requires StacksDisjoint(Processes(m)[j], SpawnProcess(m.nextPid, lo))
    ensures SameBetween(m.mem, SpawnMemory(m.mem, entry, lo), Processes(m)[j].lo, Processes(m)[j].top)
  {
    hide Unframe, SpawnMemory;
    SpawnWrites(m.mem, entry, lo);
    assert SameBetween(m.mem, SpawnMemory(m.mem, entry, lo), lo + STACK_SIZE, Processes(m)[j].top);
  }

  /** Spawning changes no view, and the new process starts with its fresh view and an empty stack. */
  lemma SpawnViews(prog: Program, m: Machine, entry: nat, lo: nat, j: nat)
    requires Inv(m) && Legal(prog, m, Spawn(entry, lo)) && j <= |Processes(m)|
    ensures var m' := Apply(prog, m, Spawn(entry, lo));
            Booted(m') && |Processes(m')| == |Processes(m)| + 1
            && ViewOf(m', j) == if j == |Processes(m)| then View(FreshCpu(entry, lo + STACK_SIZE), []) else ViewOf(m, j)
  {
    hide Unframe, SpawnMemory;
    var m' := Apply(prog, m, Spawn(entry, lo));
    SpawnWrites(m.mem, entry, lo);
    if j < |Processes(m)| {
      SpawnUntouched(m, entry, lo, j);
      var p := Processes(m)[j];
      if j == Current(m) {
        SliceSame(m.mem, m'.mem, p.lo, p.top, m.cpu.rsp, (p.top - m.cpu.rsp) / 8);
      } else {
        assert Resumable(m.mem, p) && GoodStack(p);
        UntouchedProcess(m.mem, m'.mem, p);
      }
    }
  }

  // ----- every event

  lemma ApplyKeepsInv(prog: Program, m: Machine, e: Event)
    requires Inv(m) && Legal(prog, m, e)
    ensures Inv(Apply(prog, m, e))
  {
    hide Unframe, Interrupt, SpawnMemory;
    match e
    case Step(x) => StepKeepsInv(prog, m, x);
    case Irq(helper, first, second) =>
      if InterruptsOn(m.cpu) {
        IrqKeepsInv(m, helper, first, second);
      } else {
        assert Interrupt(m, helper, first, second) == m by { IrqIgnored(m, helper, first, second); }
      }
    case TakeLock =>
    case DropLock =>
    case Spawn(entry, lo) => SpawnKeepsInv(prog, m, entry, lo);
  }

  lemma IrqIgnored(m: Machine, helper: Helper, first: Noise, second: Noise)
    requires IndexOk(m.sched) && !InterruptsOn(m.cpu)
    ensures Interrupt(m, helper, first, second) == m
  {
  }

  /** The input that process j receives in this event, if it is the one that runs. */
  function InputTo(m: Machine, e: Event, j: nat): seq<nat>
    requires Booted(m)
  {
    if e.Step? && j == Current(m) then [e.input] else []
  }

  /** A process alone on its own CPU. */
  function Alone(prog: Program, j: nat, v: View, inputs: seq<nat>): View
    decreases |inputs|
  {
    if inputs == [] then v else Alone(prog, j, prog(j, v, inputs[0]), inputs[1..])
  }

  /** Each event moves the view of the running process by its own program, or moves no view at all. */
  lemma ApplyViews(prog: Program, m: Machine, e: Event, j: nat)
    requires Inv(m) && Legal(prog, m, e) && j < |Processes(m)|
    ensures var m' := Apply(prog, m, e);
            Booted(m') && j < |Processes(m')|
            && ViewOf(m', j) == Alone(prog, j, ViewOf(m, j), InputTo(m, e, j))
  {
    hide Unframe, Interrupt, SpawnMemory, Slice;
    match e
    case Step(x) =>
      StepViews(prog, m, x, j);
      AloneOne(prog, j, ViewOf(m, j), x);
    case Irq(helper, first, second) =>
      if InterruptsOn(m.cpu) {
        IrqKeepsViews(m, helper, first, second, j);
      } else {
        IrqIgnored(m, helper, first, second);
      }
    case TakeLock =>
    case DropLock =>
    case Spawn(entry, lo) => SpawnViews(prog, m, entry, lo, j);
  }

  lemma AloneOne(prog: Program, j: nat, v: View, x: nat)
    ensures Alone(prog, j, v, [x]) == prog(j, v, x)
  {
    assert [x][1..] == [];
  }

  // ----- runs

  ghost predicate LegalRun(prog: Program, m: Machine, es: seq<Event>)
    requires Inv(m)
    decreases |es|
  {
    es == [] || (Legal(prog, m, es[0])
                 && (ApplyKeepsInv(prog, m, es[0]); LegalRun(prog, Apply(prog, m, es[0]), es[1..])))
  }

  ghost function RunAll(prog: Program, m: Machine, es: seq<Event>): (m': Machine)
    requires Inv(m) && LegalRun(prog, m, es)
    ensures Inv(m') && |Processes(m)| <= |Processes(m')|
    decreases |es|
  {
    if es == [] then m
    else
      ApplyKeepsInv(prog, m, es[0]);
      ApplyGrows(prog, m, es[0]);
      RunAll(prog, Apply(prog, m, es[0]), es[1..])
  }

  lemma ApplyGrows(prog: Program, m: Machine, e: Event)
    requires Inv(m) && Legal(prog, m, e)
    ensures Booted(Apply(prog, m, e)) && |Processes(m)| <= |Processes(Apply(prog, m, e))|
  {
    hide Interrupt, SpawnMemory, Unframe;
    ApplyKeepsInv(prog, m, e);
    if 0 < |Processes(m)| {
      ApplyViews(prog, m, e, |Processes(m)| - 1);
    }
  }

  /** The inputs that process j consumes in a run of the shared machine, in order. */
  ghost function InputsTo(prog: Program, m: Machine, es: seq<Event>, j: nat): seq<nat>
    requires Inv(m) && LegalRun(prog, m, es)
    decreases |es|
  {
    if es == [] then []
    else
      ApplyKeepsInv(prog, m, es[0]);
      InputTo(m, es[0], j) + InputsTo(prog, Apply(prog, m, es[0]), es[1..], j)
  }

  /**
   * Transparent preemption: whatever the other processes do, and wherever interrupts, lock
   * operations and spawns fall, process j ends as if it had run alone on its own inputs.
   */
  lemma {:induction false} TransparentPreemption(prog: Program, m: Machine, es: seq<Event>, j: nat)
    requires Inv(m) && LegalRun(prog, m, es) && j < |Processes(m)|
    ensures ViewOf(RunAll(prog, m, es), j) == Alone(prog, j, ViewOf(m, j), InputsTo(prog, m, es, j))
    decreases |es|
  {
    hide Interrupt, SpawnMemory, Unframe, ViewOf, Apply, Legal, GoodStacks, GoodRecord, OthersResumable, Fits;
    if es != [] {
      ApplyKeepsInv(prog, m, es[0]);
      ApplyViews(prog, m, es[0], j);
      var m1 := Apply(prog, m, es[0]);
      TransparentPreemption(prog, m1, es[1..], j);
      AloneAppend(prog, j, ViewOf(m, j), InputTo(m, es[0], j), InputsTo(prog, m1, es[1..], j));
    }
  }

  lemma {:induction false} AloneAppend(prog: Program, j: nat, v: View, a: seq<nat>, b: seq<nat>)
    ensures Alone(prog, j, v, a + b) == Alone(prog, j, Alone(prog, j, v, a), b)
    decreases |a|
  {
    if a == [] {
      assert a + b == b;
    } else {
      AloneAppend(prog, j, prog(j, v, a[0]), a[1..], b);
      assert (a + b)[1..] == a[1..] + b;
    }
  }

  /** A process spawned on the way also runs as if alone, from its entry point on an empty stack. */
  lemma SpawnedRunsAlone(prog: Program, m: Machine, entry: nat, lo: nat, es: seq<Event>)
    requires Inv(m) && LegalRun(prog, m, es) && es != [] && es[0] == Spawn(entry, lo)
    ensures var j := |Processes(m)|;
            && j < |Processes(RunAll(prog, m, es))|
            && ViewOf(RunAll(prog, m, es), j)
               == Alone(prog, j, View(FreshCpu(entry, lo + STACK_SIZE), []), InputsTo(prog, m, es, j))
  {
    hide Interrupt, SpawnMemory, Unframe, ViewOf, Apply, FreshCpu, GoodStacks, GoodRecord, OthersResumable, Fits;
    ApplyKeepsInv(prog, m, es[0]);
    SpawnViews(prog, m, entry, lo, |Processes(m)|);
    var m1, j := Apply(prog, m, es[0]), |Processes(m)|;
    TransparentPreemption(prog, m1, es[1..], j);
    assert InputsTo(prog, m, es, j) == [] + InputsTo(prog, m1, es[1..], j) == InputsTo(prog, m1, es[1..], j);
    assert RunAll(prog, m, es) == RunAll(prog, m1, es[1..]);
  }
}
