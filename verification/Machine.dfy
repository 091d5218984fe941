/**
 * One CPU of the kernel: registers, memory, and the instructions of the interrupt handlers.
 * Interrupt entry and `iretq` follow the Intel SDM, Volume 3A, sections 6.14.2 and 6.14.3.
 */
module Machine {
  import opened Collections
  import opened Memory
  import Alignment

  /** The general registers that the handlers save. */
  datatype Reg = RAX | RBX | RCX | RDX | RSI | RDI | R8 | R9 | R10 | R11 | R12 | R13 | R14 | R15 | RBP

  type Regs = map<Reg, nat>

  function Get(regs: Regs, r: Reg): nat {
    if r in regs then regs[r] else 0
  }

  ghost predicate AllRegs(regs: Regs) {
    forall r: Reg :: r in regs
  }

  /** The order in which both handlers push, and the order in which they pop. */
  function PushOrder(): seq<Reg> {
    [RBP, R15, R14, R13, R12, R11, R10, R9, R8, RDI, RSI, RDX, RCX, RBX, RAX]
  }

  function PopOrder(): seq<Reg> {
    [RAX, RBX, RCX, RDX, RSI, RDI, R8, R9, R10, R11, R12, R13, R14, R15, RBP]
  }

  /** Registers that a called function may change without restoring them. */
  const CALLER_SAVED: set<Reg> := {RAX, RCX, RDX, RSI, RDI, R8, R9, R10, R11}

  datatype Cpu = Cpu(regs: Regs, rip: nat, cs: nat, rflags: nat, rsp: nat, ss: nat)

  /** Bit 9 of RFLAGS: whether the CPU takes interrupts. */
  const INTERRUPT_FLAG: nat := 0x200

  predicate InterruptsOn(cpu: Cpu) {
    (cpu.rflags / INTERRUPT_FLAG) % 2 == 1
  }

  // ----- the scheduler record

  datatype ProcessState = Ready | Running

  /** A process, with the bounds [lo, top) of the stack it runs on. */
  datatype Process = Process(id: nat, state: ProcessState, rsp: nat, lo: nat, top: nat)

  datatype Scheduler = Scheduler(processes: seq<Process>, current: nat)

  predicate IndexOk(s: Option<Scheduler>) {
    s.Some? ==> s.value.processes == [] || s.value.current < |s.value.processes|
  }

  /** The process that runs after the current one, in round-robin order. */
  function NextIndex(s: Scheduler): nat
    requires s.processes != []
  {
    (s.current + 1) % |s.processes|
  }

  /** Whether `preempt_round_robin` switches: the lock is free and there is someone to switch to. */
  predicate Switches(s: Option<Scheduler>, locked: bool) {
    !locked && s.Some? && |s.value.processes| >= 2
  }

  /** `preempt_round_robin`: the scheduler after it, and the stack pointer it returns. */
  function Preempt(s: Option<Scheduler>, locked: bool, oldRsp: nat): (Option<Scheduler>, nat)
    requires IndexOk(s)
  {
    if !Switches(s, locked) then (s, oldRsp)
    else
      var q := s.value;
      var saved := q.processes[q.current := q.processes[q.current].(rsp := oldRsp, state := Ready)];
      var next := NextIndex(q);
      (Some(Scheduler(saved[next := saved[next].(state := Running)], next)), saved[next].rsp)
  }

  /** The index and state step of `execute_switch`. */
  function CooperativeStep(s: Option<Scheduler>): Option<Scheduler>
    requires IndexOk(s)
  {
    if s.None? || |s.value.processes| < 2 then s
    else
      var q := s.value;
      var next := NextIndex(q);
      var ready := q.processes[q.current := q.processes[q.current].(state := Ready)];
      Some(Scheduler(ready[next := ready[next].(state := Running)], next))
  }

  /** A scheduler without the stack pointers it has stored. */
  ghost predicate SameIndexAndStates(s: Option<Scheduler>, t: Option<Scheduler>) {
    match (s, t)
    case (None, None) => true
    case (Some(q), Some(r)) =>
      && q.current == r.current && |q.processes| == |r.processes|
      && forall i :: 0 <= i < |q.processes| ==> q.processes[i].(rsp := 0) == r.processes[i].(rsp := 0)
    case _ => false
  }

  /** Cooperative and preemptive switching make the same index and state step. */
  lemma SameStep(s: Option<Scheduler>, oldRsp: nat)
    requires IndexOk(s)
    ensures SameIndexAndStates(CooperativeStep(s), Preempt(s, false, oldRsp).0)
  {
  }

  // ----- instructions

  /** What a called function may do besides its job: write below rsp, change caller-saved registers. */
  datatype Noise = Noise(scratch: Words, clobber: Regs)

  datatype Helper = SignalEoi | HandleKeyboardIoAndEoi

  datatype Instr =
    | Push(r: Reg)
    | Pop(r: Reg)
    | CallHelper(helper: Helper, noise: Noise)
    | MovRdiRsp
    | CallPreempt(noise: Noise)
    | MovRspRax
    | Iretq

  datatype Machine = Machine(cpu: Cpu, mem: Words, sched: Option<Scheduler>, locked: bool, nextPid: nat)

  function CallMemory(mem: Words, rsp: nat, noise: Noise): Words {
    mem + (map a | a in noise.scratch && a < rsp :: noise.scratch[a])
  }

  function CallRegs(regs: Regs, noise: Noise): Regs {
    regs + (map r | r in noise.clobber && r in CALLER_SAVED :: noise.clobber[r])
  }

  /** Subtraction on a 64-bit stack pointer. */
  function Down(rsp: nat, n: nat): nat
    requires n <= Alignment.WORD_RANGE
  {
    if n <= rsp then rsp - n else rsp + Alignment.WORD_RANGE - n
  }

  function Exec(m: Machine, i: Instr): (m': Machine)
    requires IndexOk(m.sched)
    ensures IndexOk(m'.sched)
  {
    var cpu := m.cpu;
    match i
    case Push(r) =>
      var rsp := Down(cpu.rsp, 8);
      m.(cpu := cpu.(rsp := rsp), mem := m.mem[rsp := Get(cpu.regs, r)])
    case Pop(r) =>
      m.(cpu := cpu.(rsp := cpu.rsp + 8, regs := cpu.regs[r := Read(m.mem, cpu.rsp)]))
    case CallHelper(_, noise) =>
      m.(mem := CallMemory(m.mem, cpu.rsp, noise), cpu := cpu.(regs := CallRegs(cpu.regs, noise)))
    case MovRdiRsp =>
      m.(cpu := cpu.(regs := cpu.regs[RDI := cpu.rsp]))
    case CallPreempt(noise) =>
      var (sched, rax) := Preempt(m.sched, m.locked, Get(cpu.regs, RDI));
      m.(mem := CallMemory(m.mem, cpu.rsp, noise), sched := sched,
         cpu := cpu.(regs := CallRegs(cpu.regs, noise)[RAX := rax]))
    case MovRspRax =>
      m.(cpu := cpu.(rsp := Get(cpu.regs, RAX)))
    case Iretq =>
      m.(cpu := cpu.(rip := Read(m.mem, cpu.rsp), cs := Read(m.mem, cpu.rsp + 8),
                     rflags := Read(m.mem, cpu.rsp + 16), rsp := Read(m.mem, cpu.rsp + 24),
                     ss := Read(m.mem, cpu.rsp + 32)))
  }

  function Run(m: Machine, program: seq<Instr>): (m': Machine)
    requires IndexOk(m.sched)
    ensures IndexOk(m'.sched)
    decreases |program|
  {
    if program == [] then m else Run(Exec(m, program[0]), program[1..])
  }

  function Pushes(rs: seq<Reg>): seq<Instr> {
    if rs == [] then [] else [Push(rs[0])] + Pushes(rs[1..])
  }

  function Pops(rs: seq<Reg>): seq<Instr> {
    if rs == [] then [] else [Pop(rs[0])] + Pops(rs[1..])
  }

  /** The text of both naked handlers; they differ in the helper they call first. */
  function Handler(helper: Helper, first: Noise, second: Noise): seq<Instr> {
    Pushes(PushOrder())
    + [CallHelper(helper, first), MovRdiRsp, CallPreempt(second), MovRspRax]
    + Pops(PopOrder()) + [Iretq]
  }

  /** The five words that the CPU itself pushes, from the lowest address up. */
  function HardwareFrame(cpu: Cpu): seq<nat> {
    [cpu.rip, cpu.cs, cpu.rflags, cpu.rsp, cpu.ss]
  }

  /** Interrupt entry: align rsp down to 16, push the frame, clear the interrupt flag. */
  function Enter(m: Machine): Machine {
    var rsp := Down(m.cpu.rsp - m.cpu.rsp % 16, 40);
    var rflags := if InterruptsOn(m.cpu) then m.cpu.rflags - INTERRUPT_FLAG else m.cpu.rflags;
    m.(cpu := m.cpu.(rsp := rsp, rflags := rflags), mem := Store(m.mem, rsp, HardwareFrame(m.cpu)))
  }

  /** An interrupt request: taken when the flag is set, and then the handler runs to its `iretq`. */
  function Interrupt(m: Machine, helper: Helper, first: Noise, second: Noise): Machine
    requires IndexOk(m.sched)
  {
    if InterruptsOn(m.cpu) then Run(Enter(m), Handler(helper, first, second)) else m
  }

  // ----- what push and pop sequences do

  lemma {:induction false} RunAppend(m: Machine, p: seq<Instr>, q: seq<Instr>)
    requires IndexOk(m.sched)
    ensures Run(m, p + q) == Run(Run(m, p), q)
    decreases |p|
  {
    if p == [] {
      assert p + q == q;
    } else {
      RunAppend(Exec(m, p[0]), p[1..], q);
      assert (p + q)[1..] == p[1..] + q;
    }
  }

  /** The values of these registers as they lie in memory after pushing them in order. */
  function Stacked(regs: Regs, rs: seq<Reg>): (s: seq<nat>)
    ensures |s| == |rs|
  {
    if rs == [] then [] else Stacked(regs, rs[1..]) + [Get(regs, rs[0])]
  }

  lemma {:induction false} StackedAt(regs: Regs, rs: seq<Reg>, k: nat)
    requires k < |rs|
    ensures Stacked(regs, rs)[k] == Get(regs, rs[|rs| - 1 - k])
    decreases |rs|
  {
    if k < |rs| - 1 {
      StackedAt(regs, rs[1..], k);
    }
  }

  lemma {:induction false} PushesRun(m: Machine, rs: seq<Reg>)
    requires IndexOk(m.sched) && 8 * |rs| <= m.cpu.rsp
    ensures Run(m, Pushes(rs))
            == m.(cpu := m.cpu.(rsp := m.cpu.rsp - 8 * |rs|),
                  mem := Store(m.mem, m.cpu.rsp - 8 * |rs|, Stacked(m.cpu.regs, rs)))
    decreases |rs|
  {
    if rs != [] {
      var m1 := Exec(m, Push(rs[0]));
      assert Pushes(rs)[1..] == Pushes(rs[1..]);
      PushesRun(m1, rs[1..]);
      StoreSnoc(m.mem, m.cpu.rsp - 8 * |rs|, Stacked(m.cpu.regs, rs[1..]), Get(m.cpu.regs, rs[0]));
    }
  }

  /** Registers loaded from consecutive words. */
  function LoadRegs(mem: Words, a: nat, rs: seq<Reg>, regs: Regs): Regs
    decreases |rs|
  {
    if rs == [] then regs else LoadRegs(mem, a + 8, rs[1..], regs[rs[0] := Read(mem, a)])
  }

  lemma {:induction false} PopsRun(m: Machine, rs: seq<Reg>)
    requires IndexOk(m.sched)
    ensures Run(m, Pops(rs))
            == m.(cpu := m.cpu.(rsp := m.cpu.rsp + 8 * |rs|, regs := LoadRegs(m.mem, m.cpu.rsp, rs, m.cpu.regs)))
    decreases |rs|
  {
    if rs != [] {
      assert Pops(rs)[1..] == Pops(rs[1..]);
      PopsRun(Exec(m, Pop(rs[0])), rs[1..]);
    }
  }

  /** Loading words that hold the values of `source` gives those values to the loaded registers. */
  lemma {:induction false} LoadRegsValue(mem: Words, a: nat, rs: seq<Reg>, regs: Regs, source: Regs, r: Reg)
    requires forall k :: 0 <= k < |rs| ==> Read(mem, a + 8 * k) == Get(source, rs[k])
    ensures (r in LoadRegs(mem, a, rs, regs)) <==> r in regs || r in rs
    ensures Get(LoadRegs(mem, a, rs, regs), r) == if r in rs then Get(source, r) else Get(regs, r)
    decreases |rs|
  {
    if rs != [] {
      var rest := rs[1..];
      forall k | 0 <= k < |rest|
        ensures Read(mem, a + 8 + 8 * k) == Get(source, rest[k])
      {
        assert Read(mem, a + 8 * (k + 1)) == Get(source, rs[k + 1]);
      }
      assert Read(mem, a + 8 * 0) == Get(source, rs[0]);
      LoadRegsValue(mem, a + 8, rest, regs[rs[0] := Read(mem, a)], source, r);
      assert r in rs <==> r == rs[0] || r in rest;
    }
  }

  lemma OrdersCoverAll(r: Reg)
    ensures r in PopOrder() && |PopOrder()| == 15
  {
    var i := match r
      case RAX => 0 case RBX => 1 case RCX => 2 case RDX => 3 case RSI => 4
      case RDI => 5 case R8 => 6 case R9 => 7 case R10 => 8 case R11 => 9
      case R12 => 10 case R13 => 11 case R14 => 12 case R15 => 13 case RBP => 14;
    assert PopOrder()[i] == r;
  }

  /** Popping is pushing backwards. */
  lemma OrdersMirror()
    ensures |PushOrder()| == |PopOrder()| == 15
    ensures forall k :: 0 <= k < 15 ==> PushOrder()[14 - k] == PopOrder()[k]
  {
  }

  // ----- saved frames

  const FRAME_WORDS: nat := 20
  const FRAME_BYTES: nat := 160

  /** The 15 registers and the hardware frame, as the handlers leave them on the stack. */
  function Frame(cpu: Cpu): (s: seq<nat>)
    ensures |s| == FRAME_WORDS
  {
    hide Stacked;
    Stacked(cpu.regs, PushOrder()) + HardwareFrame(cpu)
  }

  /** The CPU state that 15 pops and `iretq` produce from a frame at this address. */
  function Unframe(mem: Words, at: nat): Cpu {
    Cpu(LoadRegs(mem, at, PopOrder(), map[]),
        Read(mem, at + 120), Read(mem, at + 128), Read(mem, at + 136), Read(mem, at + 144), Read(mem, at + 152))
  }

  /** All 15 registers are loaded, so what they held before does not matter. */
  lemma LoadRegsForgets(mem: Words, a: nat, regs: Regs)
    ensures LoadRegs(mem, a, PopOrder(), regs) == LoadRegs(mem, a, PopOrder(), map[])
    ensures AllRegs(LoadRegs(mem, a, PopOrder(), regs))
  {
    hide LoadRegs, PopOrder;
    forall r: Reg
      ensures r in LoadRegs(mem, a, PopOrder(), regs) && r in LoadRegs(mem, a, PopOrder(), map[])
      ensures Get(LoadRegs(mem, a, PopOrder(), regs), r) == Get(LoadRegs(mem, a, PopOrder(), map[]), r)
    {
      OrdersCoverAll(r);
      LoadRegsAgree(mem, a, PopOrder(), regs, map[], r);
    }
  }

  lemma {:induction false} LoadRegsAgree(mem: Words, a: nat, rs: seq<Reg>, x: Regs, y: Regs, r: Reg)
    requires r in rs || (r in x && r in y && x[r] == y[r])
    ensures r in LoadRegs(mem, a, rs, x) && r in LoadRegs(mem, a, rs, y)
    ensures LoadRegs(mem, a, rs, x)[r] == LoadRegs(mem, a, rs, y)[r]
    decreases |rs|
  {
    if rs != [] {
      assert r in rs ==> r == rs[0] || r in rs[1..];
      LoadRegsAgree(mem, a + 8, rs[1..], x[rs[0] := Read(mem, a)], y[rs[0] := Read(mem, a)], r);
    }
  }

  /** The tail of both handlers resumes whatever frame rsp points at. */
  lemma PopsAndIretq(m: Machine)
    requires IndexOk(m.sched)
    ensures Run(m, Pops(PopOrder()) + [Iretq]) == m.(cpu := Unframe(m.mem, m.cpu.rsp))
  {
    hide Run, Pops, PopOrder, LoadRegs;
    OrdersMirror();
    RunAppend(m, Pops(PopOrder()), [Iretq]);
    PopsRun(m, PopOrder());
    LoadRegsForgets(m.mem, m.cpu.rsp, m.cpu.regs);
    RunOne(Run(m, Pops(PopOrder())), Iretq);
  }

  lemma RunOne(m: Machine, i: Instr)
    requires IndexOk(m.sched)
    ensures Run(m, [i]) == Exec(m, i)
  {
    assert [i][1..] == [];
  }

  lemma RunCons(m: Machine, i: Instr, rest: seq<Instr>)
    requires IndexOk(m.sched)
    ensures Run(m, [i] + rest) == Run(Exec(m, i), rest)
  {
    assert ([i] + rest)[1..] == rest;
  }

  /** A frame in memory gives back the CPU state it was made from. */
  lemma UnframeFrame(mem: Words, at: nat, cpu: Cpu)
    requires Slice(mem, at, FRAME_WORDS) == Frame(cpu) && AllRegs(cpu.regs)
    ensures Unframe(mem, at) == cpu
  {
    hide Slice, Stacked, LoadRegs, PopOrder, PushOrder;
    OrdersMirror();
    var s := Slice(mem, at, FRAME_WORDS);
    forall k | 0 <= k < 15
      ensures Read(mem, at + 8 * k) == Get(cpu.regs, PopOrder()[k])
    {
      assert s[k] == Stacked(cpu.regs, PushOrder())[k];
      StackedAt(cpu.regs, PushOrder(), k);
    }
    var regs := LoadRegs(mem, at, PopOrder(), map[]);
    forall r: Reg
      ensures r in regs && regs[r] == cpu.regs[r]
    {
      OrdersCoverAll(r);
      LoadRegsValue(mem, at, PopOrder(), map[], cpu.regs, r);
    }
    assert regs == cpu.regs;
    HardwareWords(s, cpu);
    assert s[15] == Read(mem, at + 8 * 15) && s[16] == Read(mem, at + 8 * 16) && s[17] == Read(mem, at + 8 * 17);
    assert s[18] == Read(mem, at + 8 * 18) && s[19] == Read(mem, at + 8 * 19);
  }

  lemma HardwareWords(s: seq<nat>, cpu: Cpu)
    requires s == Frame(cpu)
    ensures s[15] == cpu.rip && s[16] == cpu.cs && s[17] == cpu.rflags && s[18] == cpu.rsp && s[19] == cpu.ss
  {
    hide Stacked, PushOrder;
    OrdersMirror();
  }

  // ----- the handler as a whole

  /** Where the handlers leave the frame of a CPU that is interrupted with this stack pointer. */
  function FrameAddress(rsp: nat): nat
    requires rsp >= FRAME_BYTES + 15
  {
    rsp - rsp % 16 - FRAME_BYTES
  }

  /** Memory after entry, the 15 pushes and the two calls. */
  function HandlerMemory(m: Machine, first: Noise, second: Noise): Words
    requires m.cpu.rsp >= FRAME_BYTES + 15
  {
    var base := FrameAddress(m.cpu.rsp);
    CallMemory(CallMemory(Store(m.mem, base, Frame(m.cpu)), base, first), base, second)
  }

  /**
   * A taken interrupt stores one frame, steps the scheduler with the frame's address, and resumes
   * the frame whose address the scheduler returns.
   */
  lemma HandlerEffect(m: Machine, helper: Helper, first: Noise, second: Noise)
    requires IndexOk(m.sched) && InterruptsOn(m.cpu) && m.cpu.rsp >= FRAME_BYTES + 15
    ensures var base := FrameAddress(m.cpu.rsp);
            var mem := HandlerMemory(m, first, second);
            var (sched, rsp) := Preempt(m.sched, m.locked, base);
            Interrupt(m, helper, first, second) == m.(mem := mem, sched := sched, cpu := Unframe(mem, rsp))
  {
    hide Run, Pushes, Pops, PushOrder, PopOrder, Stacked, Store, Unframe, CallMemory;
    OrdersMirror();
    var base := FrameAddress(m.cpu.rsp);
    var entered := Enter(m);
    var middle := [CallHelper(helper, first), MovRdiRsp, CallPreempt(second), MovRspRax];
    var tail := Pops(PopOrder()) + [Iretq];
    assert Handler(helper, first, second) == Pushes(PushOrder()) + (middle + tail);
    RunAppend(entered, Pushes(PushOrder()), middle + tail);
    PushesRun(entered, PushOrder());
    StoreAppend(m.mem, base, Stacked(m.cpu.regs, PushOrder()), HardwareFrame(m.cpu));
    var pushed := Run(entered, Pushes(PushOrder()));
    assert pushed.cpu.rsp == base && pushed.mem == Store(m.mem, base, Frame(m.cpu));
    RunAppend(pushed, middle, tail);
    RunMiddle(pushed, helper, first, second);
    PopsAndIretq(Run(pushed, middle));
  }

  // ----- interrupts stay off in the handler

  lemma ExecKeepsFlags(m: Machine, i: Instr)
    requires IndexOk(m.sched) && i != Iretq
    ensures Exec(m, i).cpu.rflags == m.cpu.rflags
  {
  }

  lemma {:induction false} RunKeepsFlags(m: Machine, program: seq<Instr>)
    requires IndexOk(m.sched) && Iretq !in program
    ensures Run(m, program).cpu.rflags == m.cpu.rflags
    decreases |program|
  {
    hide Exec;
    if program != [] {
      assert program[0] in program;
      ExecKeepsFlags(m, program[0]);
      RunKeepsFlags(Exec(m, program[0]), program[1..]);
    }
  }

  lemma {:induction false} NoIretqInside(rs: seq<Reg>)
    ensures Iretq !in Pushes(rs) && Iretq !in Pops(rs)
  {
    if rs != [] {
      NoIretqInside(rs[1..]);
    }
  }

  /** From entry until its last instruction the handler runs with interrupts off, so no second one nests. */
  lemma HandlerIsMasked(m: Machine, helper: Helper, first: Noise, second: Noise, k: nat)
    requires IndexOk(m.sched) && InterruptsOn(m.cpu) && k < |Handler(helper, first, second)|
    ensures !InterruptsOn(Run(Enter(m), Handler(helper, first, second)[..k]).cpu)
  {
    hide Run, Exec, Pushes, Pops, PushOrder, PopOrder, Store;
    NoIretqInside(PushOrder());
    NoIretqInside(PopOrder());
    var program := Handler(helper, first, second);
    var body := program[..|program| - 1];
    assert body == Pushes(PushOrder()) + [CallHelper(helper, first), MovRdiRsp, CallPreempt(second), MovRspRax]
                   + Pops(PopOrder());
    assert program[..k] == body[..k];
    RunKeepsFlags(Enter(m), program[..k]);
    FlagCleared(m.cpu.rflags);
  }

  lemma FlagCleared(rflags: nat)
    requires (rflags / INTERRUPT_FLAG) % 2 == 1
    ensures ((rflags - INTERRUPT_FLAG) / INTERRUPT_FLAG) % 2 == 0
  {
  }

  lemma RunMiddle(m: Machine, helper: Helper, first: Noise, second: Noise)
    requires IndexOk(m.sched)
    ensures var (sched, rsp) := Preempt(m.sched, m.locked, m.cpu.rsp);
            var m' := Run(m, [CallHelper(helper, first), MovRdiRsp, CallPreempt(second), MovRspRax]);
            && m'.cpu == m.cpu.(rsp := rsp, regs := m'.cpu.regs)
            && m' == m.(mem := CallMemory(CallMemory(m.mem, m.cpu.rsp, first), m.cpu.rsp, second),
                        sched := sched, cpu := m'.cpu)
  {
    hide Run, CallMemory, CallRegs, Preempt;
    var i1, i2, i3, i4 := CallHelper(helper, first), MovRdiRsp, CallPreempt(second), MovRspRax;
    var m1 := Exec(m, i1);
    var m2 := Exec(m1, i2);
    var m3 := Exec(m2, i3);
    assert [i1, i2, i3, i4] == [i1] + [i2, i3, i4];
    assert [i2, i3, i4] == [i2] + [i3, i4];
    assert [i3, i4] == [i3] + [i4];
    RunCons(m, i1, [i2, i3, i4]);
    RunCons(m1, i2, [i3, i4]);
    RunCons(m2, i3, [i4]);
    RunOne(m3, i4);
  }
}
