/** The kernel's own code, step by step on its fields, proved against the machine model. */
module Kernel {
  import opened Collections
  import opened Memory
  import opened Machine
  import opened Preemption
  import Fairness

  class Kernel {
    var cpu: Cpu
    var mem: Words
    /** The global scheduler: whether it is there, its two fields, and its lock. */
    var initialized: bool
    var processes: seq<Process>
    var currentIndex: nat
    var locked: bool
    var nextPid: nat

    function Sched(): Option<Scheduler>
      reads this
    {
      if initialized then Some(Scheduler(processes, currentIndex)) else None
    }

    function State(): Machine
      reads this
    {
      Machine(cpu, mem, Sched(), locked, nextPid)
    }

    /** The machine before `Scheduler::init`, running the boot code. */
    constructor (bootCpu: Cpu, bootMem: Words)
      ensures State() == Machine(bootCpu, bootMem, None, false, 1)
    {
      cpu, mem := bootCpu, bootMem;
      initialized, processes, currentIndex, locked, nextPid := false, [], 0, false, 1;
    }

    method Init()
      modifies `initialized, `processes, `currentIndex
      ensures State() == old(State()).(sched := Some(Scheduler([], 0)))
    {
      initialized, processes, currentIndex := true, [], 0;
    }

    /** Registers the running code as a process; [lo, top) is the stack it already runs on. */
    method SpawnRoot(lo: nat, top: nat)
      requires initialized
      modifies `processes, `currentIndex
      ensures State() == old(State()).(sched := Some(Scheduler(old(processes) + [Process(0, Running, 0, lo, top)], 0)))
    {
      processes := processes + [Process(0, Running, 0, lo, top)];
      currentIndex := 0;
    }

    /** Forges the frame from the end of a new stack at `lo` downwards, then queues the process. */
    method Spawn(entry: nat, lo: nat) returns (pid: nat)
      requires initialized
      modifies `mem, `processes, `nextPid
      ensures pid == old(nextPid)
      ensures State() == old(State()).(
                mem := SpawnMemory(old(mem), entry, lo),
                nextPid := pid + 1,
                sched := Some(Scheduler(old(processes) + [SpawnProcess(pid, lo)], currentIndex)))
    {
      pid := nextPid;
      nextPid := nextPid + 1;
      var top := lo + STACK_SIZE;
      mem := Zeroed(mem, lo, top);
      var stackTop := ForgeFrame(entry, top);
      processes := processes + [Process(pid, Ready, stackTop, lo, top)];
    }

    /** Writes the hardware frame and then 15 zero registers, downwards from the end of a stack. */
    method ForgeFrame(entry: nat, top: nat) returns (ptr: nat)
      requires top >= FRAME_BYTES
      modifies `mem
      ensures ptr == top - FRAME_BYTES && mem == Store(old(mem), ptr, ForgedFrame(entry, top))
    {
      StoreNothing(mem, top);
      hide Store;
      ghost var before := mem;
      ptr := top;
      ghost var words: seq<nat> := [];
      ptr, words := Put(ptr, 0x10, before, words);
      ptr, words := Put(ptr, ptr - 8 + 16, before, words);
      ptr, words := Put(ptr, 0x200, before, words);
      ptr, words := Put(ptr, 0x08, before, words);
      ptr, words := Put(ptr, entry, before, words);
      ghost var frame := [entry, 0x08, 0x200, top, 0x10];
      assert words == frame;
      for i := 0 to 15
        invariant ptr == top - 40 - 8 * i
        invariant words == Zeros(i) + frame && mem == Store(before, ptr, words)
      {
        assert [0] + (Zeros(i) + frame) == Zeros(i + 1) + frame;
        ptr, words := Put(ptr, 0, before, words);
      }
    }

    /** Moves the pointer down one word and writes there. */
    method Put(ptr: nat, value: nat, ghost base: Words, ghost words: seq<nat>)
      returns (ptr': nat, ghost words': seq<nat>)
      requires ptr >= 8 && mem == Store(base, ptr, words)
      modifies `mem
      ensures ptr' == ptr - 8 && words' == [value] + words && mem == Store(base, ptr', words')
    {
      ptr' := ptr - 8;
      words' := [value] + words;
      mem := mem[ptr' := value];
      assert words'[1..] == words;
    }

    /** Steps the scheduler if its lock is free, and returns the stack pointer to resume. */
    method PreemptRoundRobin(oldRsp: nat) returns (rsp: nat)
      requires IndexOk(Sched())
      modifies `processes, `currentIndex
      ensures IndexOk(Sched())
      ensures (Sched(), rsp) == Preempt(old(Sched()), locked, oldRsp)
    {
      if !locked {
        if initialized {
          if |processes| < 2 {
            return oldRsp;
          }
          var oldIndex := currentIndex;
          processes := processes[oldIndex := processes[oldIndex].(rsp := oldRsp)];
          processes := processes[oldIndex := processes[oldIndex].(state := Ready)];
          assert processes == old(processes)[oldIndex := old(processes)[oldIndex].(rsp := oldRsp, state := Ready)];
          var nextIndex := (oldIndex + 1) % |processes|;
          currentIndex := nextIndex;
          processes := processes[nextIndex := processes[nextIndex].(state := Running)];
          return processes[nextIndex].rsp;
        }
      }
      rsp := oldRsp;
    }

    /** The scheduling half of a cooperative switch; the lock is waited for, so it is free here. */
    method ExecuteSwitch()
      requires IndexOk(Sched()) && !locked
      modifies `processes, `currentIndex
      ensures IndexOk(Sched()) && Sched() == CooperativeStep(old(Sched()))
    {
      if initialized {
        if |processes| < 2 {
          return;
        }
        var oldIndex := currentIndex;
        var nextIndex := (oldIndex + 1) % |processes|;
        currentIndex := nextIndex;
        processes := processes[oldIndex := processes[oldIndex].(state := Ready)];
        processes := processes[nextIndex := processes[nextIndex].(state := Running)];
      }
    }

    /** One instruction of a handler. */
    method Execute(i: Instr)
      requires IndexOk(Sched())
      modifies `cpu, `mem, `processes, `currentIndex
      ensures IndexOk(Sched()) && State() == Exec(old(State()), i)
    {
      match i
      case Push(r) =>
        cpu := cpu.(rsp := Down(cpu.rsp, 8));
        mem := mem[cpu.rsp := Get(cpu.regs, r)];
      case Pop(r) =>
        cpu := cpu.(regs := cpu.regs[r := Read(mem, cpu.rsp)]);
        cpu := cpu.(rsp := cpu.rsp + 8);
      case CallHelper(_, noise) =>
        mem := CallMemory(mem, cpu.rsp, noise);
        cpu := cpu.(regs := CallRegs(cpu.regs, noise));
      case MovRdiRsp =>
        cpu := cpu.(regs := cpu.regs[RDI := cpu.rsp]);
      case CallPreempt(noise) =>
        var rax := PreemptRoundRobin(Get(cpu.regs, RDI));
        mem := CallMemory(mem, cpu.rsp, noise);
        cpu := cpu.(regs := CallRegs(cpu.regs, noise)[RAX := rax]);
      case MovRspRax =>
        cpu := cpu.(rsp := Get(cpu.regs, RAX));
      case Iretq =>
        var rsp := cpu.rsp;
        cpu := cpu.(rip := Read(mem, rsp), cs := Read(mem, rsp + 8), rflags := Read(mem, rsp + 16),
                    rsp := Read(mem, rsp + 24), ss := Read(mem, rsp + 32));
    }

    /** What the CPU does itself when it takes an interrupt. */
    method EnterInterrupt()
      modifies `cpu, `mem
      ensures State() == Enter(old(State()))
    {
      hide Store;
      var saved := cpu;
      cpu := cpu.(rsp := Down(saved.rsp - saved.rsp % 16, 40));
      cpu := cpu.(rflags := if InterruptsOn(saved) then saved.rflags - INTERRUPT_FLAG else saved.rflags);
      mem := Store(mem, cpu.rsp, HardwareFrame(saved));
    }

    /** Executes the instructions of a handler one after the other. */
    method RunProgram(program: seq<Instr>)
      requires IndexOk(Sched())
      modifies `cpu, `mem, `processes, `currentIndex
      ensures IndexOk(Sched()) && State() == Run(old(State()), program)
    {
      hide Exec, Preempt, Run;
      ghost var start := State();
      var pc := 0;
      assert program[0..] == program;
      while pc < |program|
        invariant pc <= |program| && IndexOk(Sched())
        invariant Run(State(), program[pc..]) == Run(start, program)
      {
        assert program[pc..] == [program[pc]] + program[pc + 1..];
        RunCons(State(), program[pc], program[pc + 1..]);
        Execute(program[pc]);
        pc := pc + 1;
      }
      assert program[pc..] == [];
      RunNothing(State());
    }

    /** The timer and keyboard interrupts. */
    method TakeInterrupt(helper: Helper, first: Noise, second: Noise)
      requires IndexOk(Sched()) && InterruptsOn(cpu)
      modifies `cpu, `mem, `processes, `currentIndex
      ensures IndexOk(Sched()) && State() == Interrupt(old(State()), helper, first, second)
    {
      hide Exec, Preempt, Run, Handler, Enter;
      EnterInterrupt();
      RunProgram(Handler(helper, first, second));
    }

    /** One event: a step of the running process, an interrupt request, or a call under the lock. */
    method Happen(prog: Program, e: Event)
      requires Inv(State()) && Legal(prog, State(), e)
      modifies this
      ensures Inv(State()) && State() == Apply(prog, old(State()), e)
    {
      hide Handler, Run, SpawnMemory, GoodStacks, GoodRecord, OthersResumable, Fits;
      ApplyKeepsInv(prog, State(), e);
      match e
      case Step(x) =>
        var v := prog(currentIndex, ViewOf(State(), currentIndex), x);
        cpu := v.cpu;
        mem := Store(mem, v.cpu.rsp, v.stack);
      case Irq(helper, first, second) =>
        if InterruptsOn(cpu) {
          TakeInterrupt(helper, first, second);
        }
      case TakeLock =>
        locked := true;
      case DropLock =>
        locked := false;
      case Spawn(entry, lo) =>
        var pid := Spawn(entry, lo);
    }

    /** Registers processes one after the other, as the boot code does. */
    method Register(rs: seq<Fairness.Registration>)
      requires initialized
      modifies `mem, `processes, `currentIndex, `nextPid
      ensures (Scheduler(processes, currentIndex), nextPid)
              == Fairness.RegisterAll(Scheduler(old(processes), old(currentIndex)), old(nextPid), rs)
    {
      hide SpawnMemory;
      ghost var start, pid := Scheduler(processes, currentIndex), nextPid;
      var k := 0;
      assert rs[0..] == rs;
      while k < |rs|
        invariant k <= |rs|
        invariant Fairness.RegisterAll(Scheduler(processes, currentIndex), nextPid, rs[k..])
                  == Fairness.RegisterAll(start, pid, rs)
      {
        assert rs[k..][0] == rs[k] && rs[k..][1..] == rs[k + 1..];
        match rs[k] {
          case Root(lo, top) =>
            SpawnRoot(lo, top);
          case Child(entry, lo) =>
            var newPid := Spawn(entry, lo);
        }
        k := k + 1;
      }
      assert rs[k..] == [];
    }

    /** Any run of events, executed one after the other. */
    method RunEvents(prog: Program, es: seq<Event>)
      requires Inv(State()) && LegalRun(prog, State(), es)
      modifies this
      ensures Inv(State()) && State() == RunAll(prog, old(State()), es)
    {
      hide Apply, Legal, GoodStacks, GoodRecord, OthersResumable, Fits;
      ghost var start := State();
      var k := 0;
      assert es[0..] == es;
      while k < |es|
        invariant k <= |es| && Inv(State()) && LegalRun(prog, State(), es[k..])
        invariant RunAll(prog, State(), es[k..]) == RunAll(prog, start, es)
      {
        assert es[k..][0] == es[k] && es[k..][1..] == es[k + 1..];
        Happen(prog, es[k]);
        k := k + 1;
      }
      assert es[k..] == [];
    }
  }

  lemma RunNothing(m: Machine)
    requires IndexOk(m.sched)
    ensures Run(m, []) == m
  {
  }

  /** After `init` and `spawn_root` on a good stack the machine satisfies the invariant of `Preemption`. */
  lemma RootInvariant(m: Machine, root: Process)
    requires m.sched == Some(Scheduler([root], 0)) && m.nextPid == 1
    requires root.state == Running && root.id == 0
    requires GoodStack(root) && Fits(m.cpu, root)
    ensures Inv(m)
  {
  }

  /** New stacks that are aligned, apart from the root's stack [lo, top), and apart from each other. */
  ghost predicate GoodNewStacks(lo: nat, top: nat, stacks: seq<nat>) {
    && (forall i :: 0 <= i < |stacks| ==> 0 < stacks[i] && stacks[i] % 8 == 0)
    && (forall i :: 0 <= i < |stacks| ==> stacks[i] + STACK_SIZE <= lo || top <= stacks[i])
    && (forall i, j :: 0 <= i < j < |stacks| ==>
          stacks[i] + STACK_SIZE <= stacks[j] || stacks[j] + STACK_SIZE <= stacks[i])
  }

  /** The root and the first n processes are there, each on its stack and with the view that `spawn` gives it. */
  ghost predicate SpawnedSoFar(m: Machine, lo: nat, top: nat, entries: seq<nat>, stacks: seq<nat>, n: nat)
    requires n <= |entries| == |stacks|
  {
    && Inv(m) && Current(m) == 0 && |Processes(m)| == n + 1
    && Processes(m)[0].lo == lo && Processes(m)[0].top == top
    && (forall j :: 1 <= j <= n ==> Processes(m)[j].lo == stacks[j - 1] && Processes(m)[j].top == stacks[j - 1] + STACK_SIZE)
    && (forall j :: 1 <= j <= n ==> ViewOf(m, j) == View(FreshCpu(entries[j - 1], stacks[j - 1] + STACK_SIZE), []))
  }

  /** One more spawn, under the lock. */
  lemma SpawnOneMore(m: Machine, m': Machine, lo: nat, top: nat, entries: seq<nat>, stacks: seq<nat>, n: nat)
    requires n < |entries| == |stacks| && GoodNewStacks(lo, top, stacks)
    requires SpawnedSoFar(m, lo, top, entries, stacks, n) && m.locked
    requires m' == m.(mem := SpawnMemory(m.mem, entries[n], stacks[n]), nextPid := m.nextPid + 1,
                      sched := Some(Scheduler(Processes(m) + [SpawnProcess(m.nextPid, stacks[n])], Current(m))))
    ensures SpawnedSoFar(m', lo, top, entries, stacks, n + 1)
  {
    hide SpawnMemory, GoodStacks, GoodRecord, OthersResumable, Fits, FreshCpu, ViewOf;
    var idle := (j: nat, v: View, x: nat) => v;
    var e := Spawn(entries[n], stacks[n]);
    forall i | 0 <= i < |Processes(m)|
      ensures StacksDisjoint(Processes(m)[i], SpawnProcess(m.nextPid, stacks[n]))
    {
    }
    assert Legal(idle, m, e) && Apply(idle, m, e) == m';
    SpawnKeepsInv(idle, m, entries[n], stacks[n]);
    forall j | 1 <= j <= n + 1
      ensures ViewOf(m', j) == View(FreshCpu(entries[j - 1], stacks[j - 1] + STACK_SIZE), [])
    {
      SpawnViews(idle, m, entries[n], stacks[n], j);
    }
  }

  /** The lock does not matter to the invariant or to the views. */
  lemma LockApart(m: Machine, locked: bool)
    requires Inv(m)
    ensures Inv(m.(locked := locked))
    ensures forall j: nat :: j < |Processes(m)| ==> ViewOf(m.(locked := locked), j) == ViewOf(m, j)
  {
  }

  /**
   * The scheduler part of `kernel_main`: install the scheduler, register the running code, and spawn
   * one process for each entry point, all under the lock. The machine then satisfies the invariant,
   * and every process waits with the registers, entry point and empty stack that it was spawned with.
   */
  method Boot(cpu: Cpu, mem: Words, lo: nat, top: nat, entries: seq<nat>, stacks: seq<nat>) returns (k: Kernel)
    requires GoodStack(Process(0, Running, 0, lo, top)) && Fits(cpu, Process(0, Running, 0, lo, top))
    requires |entries| == |stacks| && GoodNewStacks(lo, top, stacks)
    ensures SpawnedSoFar(k.State(), lo, top, entries, stacks, |entries|)
    ensures !k.locked && k.cpu == cpu
  {
    hide SpawnMemory, Fits, FreshCpu, Inv, ViewOf, GoodNewStacks;
    k := new Kernel(cpu, mem);
    k.Init();
    k.locked := true;
    k.SpawnRoot(lo, top);
    var root := Process(0, Running, 0, lo, top);
    assert [] + [root] == [root];
    RootInvariant(k.State(), root);
    for n := 0 to |entries|
      invariant SpawnedSoFar(k.State(), lo, top, entries, stacks, n)
      invariant k.locked && k.initialized && k.cpu == cpu
    {
      ghost var before := k.State();
      var pid := k.Spawn(entries[n], stacks[n]);
      SpawnOneMore(before, k.State(), lo, top, entries, stacks, n);
    }
    LockApart(k.State(), false);
    k.locked := false;
  }
}
