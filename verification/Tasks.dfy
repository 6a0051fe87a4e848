/** Round-robin tasks as independent virtual processors. */
module Tasks {
  import opened Sequences
  import opened ContextSwitch

  /** STACK_SIZE: the words of the stack array inside a task_struct. */
  const STACK_WORDS: nat := 4096

  /** The machine: the processor, memory, and for each task its stack array (first word), the rsp
      saved in its task_struct, and the ready list with the current task first. */
  datatype System = System(cpu: Cpu, mem: Mem, stack: map<nat, nat>, saved: map<nat, nat>, ready: seq<nat>)

  predicate InStack(s: System, t: nat, a: nat)
    requires t in s.stack
  {
    s.stack[t] <= a < s.stack[t] + STACK_WORDS
  }

  /** Two stack arrays have no word in common. */
  predicate Apart(base: nat, base': nat) {
    base + STACK_WORDS <= base' || base' + STACK_WORDS <= base
  }

  /** Every listed task is known, listed once, and has a stack of its own. */
  predicate WellFormed(s: System) {
    && s.ready != [] && Distinct(s.ready)
    && (forall t | t in s.ready :: t in s.stack && t in s.saved)
    && (forall t, u | t in s.ready && u in s.ready && t != u :: Apart(s.stack[t], s.stack[u]))
  }

  /** The running task's stack has room for the frame of a switch. */
  predicate StackFits(s: System)
    requires WellFormed(s)
  {
    var w, b := AlignedTop(s.cpu.rsp), s.stack[s.ready[0]];
    w >= FRAME && b <= w - FRAME && w <= b + STACK_WORDS
  }

  /** One `int $0x80`, from the interrupted instruction of one task to the resumed one of the next. */
  function Switch(s: System, scratch: Regs): System
    requires WellFormed(s) && AlignedTop(s.cpu.rsp) >= FRAME
  {
    var mem := Suspend(s.mem, s.cpu);
    var saved := s.saved[s.ready[0] := SavedRsp(s.cpu)];
    var ready := RotateLeft(s.ready);
    RotateKeeps(s.ready);
    System(Resume(mem, saved[ready[0]], scratch), mem, s.stack, saved, ready)
  }

  /** The words of a new task's stack that `init_process` writes. */
  function InitStack(mem: Mem, base: nat, func: nat): Mem {
    mem[base + 63 := 0x10][base + 62 := 8 * (base + 63)][base + 61 := 0x20202][base + 60 := 0x08][base + 59 := func]
  }

  /** `add_proc_to_task_list`: a new task at the tail. */
  function Spawn(s: System, t: nat, base: nat, func: nat): System {
    System(s.cpu, InitStack(s.mem, base, func), s.stack[t := base], s.saved[t := 8 * (base + 45)], s.ready + [t])
  }

  /** The registers a new task starts with: the fourteen are whatever the stack array held. */
  function FreshCpu(mem: Mem, base: nat, func: nat): Cpu {
    Cpu(map r: Reg | true :: Word(mem, base + 45 + PlaceOf(r)), func, 0x08, 0x20202, 8 * (base + 63), 0x10)
  }

  function PlaceOf(r: Reg): nat {
    match r
    case R15 => 0 case R14 => 1 case R13 => 2 case R12 => 3 case R11 => 4 case R10 => 5 case R9 => 6
    case R8 => 7 case RDI => 8 case RSI => 9 case RDX => 10 case RCX => 11 case RBX => 12 case RAX => 13
  }

  /** The layout that `init_process` writes is the layout that the stub leaves. */
  lemma FreshIsSuspended(mem: Mem, base: nat, func: nat)
    ensures Suspended(InitStack(mem, base, func), 8 * (base + 45), FreshCpu(mem, base, func))
    ensures forall a: nat | a < base || base + STACK_WORDS <= a :: Word(InitStack(mem, base, func), a) == Word(mem, a)
  {
    PlacesMatch();
    FreshIn(mem, base, func, RESTORE_ORDER);
    FreshKeeps(mem, base, func);
  }

  lemma FreshKeeps(mem: Mem, base: nat, func: nat)
    ensures forall a: nat | a < base || base + STACK_WORDS <= a :: Word(InitStack(mem, base, func), a) == Word(mem, a)
  {
  }

  /** Only five words change. */
  lemma OutsideFrame(mem: Mem, base: nat, func: nat)
    ensures forall a: nat | a < base + 59 || base + 64 <= a :: Word(InitStack(mem, base, func), a) == Word(mem, a)
  {
  }

  lemma FreshIn(mem: Mem, base: nat, func: nat, order: seq<Reg>)
    requires |order| == 14 && forall i | 0 <= i < 14 :: PlaceOf(order[i]) == i
    ensures SuspendedIn(InitStack(mem, base, func), 8 * (base + 45), FreshCpu(mem, base, func), order)
  {
    hide PlaceOf, InitStack, FreshCpu;
    FreshFrame(mem, base, func);
    FreshRegs(mem, base, func, order);
    assert 8 * (base + 45) / 8 == base + 45;
  }

  lemma FreshFrame(mem: Mem, base: nat, func: nat)
    ensures var m := InitStack(mem, base, func);
            && Word(m, base + 59) == func && Word(m, base + 60) == 0x08 && Word(m, base + 61) == 0x20202
            && Word(m, base + 62) == 8 * (base + 63) && Word(m, base + 63) == 0x10
    ensures var c := FreshCpu(mem, base, func);
            c.rip == func && c.cs == 0x08 && c.rflags == 0x20202 && c.rsp == 8 * (base + 63) && c.ss == 0x10
  {
  }

  lemma FreshRegs(mem: Mem, base: nat, func: nat, order: seq<Reg>)
    requires |order| == 14 && forall i | 0 <= i < 14 :: PlaceOf(order[i]) == i
    ensures forall i | 0 <= i < 14 ::
              Word(InitStack(mem, base, func), base + 45 + i) == FreshCpu(mem, base, func).regs[order[i]]
  {
    hide PlaceOf;
    forall i | 0 <= i < 14
      ensures Word(InitStack(mem, base, func), base + 45 + i) == FreshCpu(mem, base, func).regs[order[i]]
    {
      assert FreshCpu(mem, base, func).regs[order[i]] == Word(mem, base + 45 + PlaceOf(order[i]));
    }
  }

  lemma PlacesMatch()
    ensures forall i | 0 <= i < 14 :: PlaceOf(RESTORE_ORDER[i]) == i
  {
  }

  // ----- The abstract machine: one virtual processor a task -----

  /** What a task has: its registers, and memory as it last saw it. */
  datatype Vcpu = Vcpu(cpu: Cpu, mem: Mem)

  datatype Virtual = Virtual(vcpus: map<nat, Vcpu>, ready: seq<nat>)

  /** A task's stack words at or above its stack pointer, aligned down. */
  predicate Live(s: System, t: nat, c: Cpu, a: nat)
    requires t in s.stack
  {
    InStack(s, t, a) && AlignedTop(c.rsp) <= a
  }

  /** The machine implements the virtual processors: the running task has its registers in the
      processor, every other task has them in its suspended frame, and every task finds
      the live part of its stack as it last saw it. */
  ghost predicate Implements(s: System, v: Virtual) {
    && WellFormed(s) && v.ready == s.ready && (forall t | t in s.ready :: t in v.vcpus)
    && s.cpu == v.vcpus[s.ready[0]].cpu
    && (forall t | t in s.ready && t != s.ready[0] :: SuspendedTask(s, t, v.vcpus[t].cpu))
    && (forall t, a: nat | t in s.ready && Live(s, t, v.vcpus[t].cpu, a) :: Word(s.mem, a) == Word(v.vcpus[t].mem, a))
  }

  predicate SuspendedTask(s: System, t: nat, c: Cpu)
    requires t in s.stack && t in s.saved
  {
    && Suspended(s.mem, s.saved[t], c)
    && s.stack[t] <= s.saved[t] / 8 && s.saved[t] / 8 + 19 <= s.stack[t] + STACK_WORDS
  }

  datatype Event =
    | Run(cpu: Cpu, mem: Mem)            // the running task executes, to this state
    | Interrupt(scratch: Regs)           // int $0x80
    | NewTask(id: nat, base: nat, func: nat)

  /** Tasks stay inside their own stacks, and a new task has a stack of its own. */
  ghost predicate Allowed(s: System, e: Event)
    requires WellFormed(s)
  {
    match e
    case Run(c, m) =>
      forall t, a: nat | t in s.ready && t != s.ready[0] && InStack(s, t, a) :: Word(m, a) == Word(s.mem, a)
    case Interrupt(_) => StackFits(s)
    case NewTask(t, base, _) =>
      t !in s.ready && forall u | u in s.ready :: Apart(s.stack[u], base)
  }

  /** What is asked of tasks, in numbers: 20 words of room on the own stack at a switch, the words of the other
      stacks left alone in between, and a stack array of its own for a new task. */
  lemma AllowedMeaning(s: System, e: Event)
    requires WellFormed(s)
    ensures Allowed(s, e) <==>
            match e
            case Run(_, m) =>
              forall t, a: nat | t in s.ready && t != s.ready[0] && s.stack[t] <= a < s.stack[t] + 4096 ::
                Word(m, a) == Word(s.mem, a)
            case Interrupt(_) =>
              s.stack[s.ready[0]] + 20 <= s.cpu.rsp / 16 * 2 <= s.stack[s.ready[0]] + 4096
            case NewTask(t, base, _) =>
              t !in s.ready && forall u | u in s.ready :: base + 4096 <= s.stack[u] || s.stack[u] + 4096 <= base
  {
    hide Distinct, Word;
  }

  function Next(s: System, e: Event): System
    requires WellFormed(s) && (e.Interrupt? ==> AlignedTop(s.cpu.rsp) >= FRAME)
  {
    match e
    case Run(c, m) => s.(cpu := c, mem := m)
    case Interrupt(scratch) => Switch(s, scratch)
    case NewTask(t, base, func) => Spawn(s, t, base, func)
  }

  /** What an event means for the virtual processors: running changes the running one only,
      and an interrupt changes none. */
  function VirtualNext(s: System, v: Virtual, e: Event): Virtual
    requires v.ready != []
  {
    match e
    case Run(c, m) => v.(vcpus := v.vcpus[v.ready[0] := Vcpu(c, m)])
    case Interrupt(_) => v.(ready := RotateLeft(v.ready))
    case NewTask(t, base, func) =>
      Virtual(v.vcpus[t := Vcpu(FreshCpu(s.mem, base, func), InitStack(s.mem, base, func))], v.ready + [t])
  }

  /** A switch changes twenty words of the stack of the task that leaves, and no other memory. */
  lemma SwitchWrites(s: System, scratch: Regs, a: nat)
    requires WellFormed(s) && AlignedTop(s.cpu.rsp) >= FRAME
    requires a < AlignedTop(s.cpu.rsp) - FRAME || AlignedTop(s.cpu.rsp) <= a
    ensures Word(Switch(s, scratch).mem, a) == Word(s.mem, a)
  {
    SuspendMeaning(s.mem, s.cpu);
  }

  lemma RunRefines(s: System, v: Virtual, c: Cpu, m: Mem)
    requires Implements(s, v) && Allowed(s, Run(c, m))
    ensures Implements(Next(s, Run(c, m)), VirtualNext(s, v, Run(c, m)))
  {
    hide Suspended, AlignedTop;
    var s' := Next(s, Run(c, m));
    forall t | t in s.ready && t != s.ready[0] ensures SuspendedTask(s', t, v.vcpus[t].cpu) {
      FrameKept(s, s', t, v.vcpus[t].cpu);
    }
  }

  /** A suspended frame whose stack array was not written is still that frame. */
  lemma FrameKept(s: System, s': System, t: nat, c: Cpu)
    requires t in s.stack && t in s.saved && SuspendedTask(s, t, c)
    requires t in s'.stack && t in s'.saved && s'.stack[t] == s.stack[t] && s'.saved[t] == s.saved[t]
    requires forall a: nat | InStack(s, t, a) :: Word(s'.mem, a) == Word(s.mem, a)
    ensures SuspendedTask(s', t, c)
  {
  }

  /** A task with its registers in a frame on a stack of its own can join the list. */
  lemma JoinRefines(s: System, v: Virtual, t: nat, base: nat, mem: Mem, sp: nat, c: Cpu)
    requires Implements(s, v) && t !in s.ready && forall u | u in s.ready :: Apart(s.stack[u], base)
    requires Suspended(mem, sp, c) && base <= sp / 8 && sp / 8 + 19 <= base + STACK_WORDS
    requires forall a: nat | a < base || base + STACK_WORDS <= a :: Word(mem, a) == Word(s.mem, a)
    ensures Implements(System(s.cpu, mem, s.stack[t := base], s.saved[t := sp], s.ready + [t]),
                       Virtual(v.vcpus[t := Vcpu(c, mem)], v.ready + [t]))
  {
    hide Suspended, AlignedTop;
    var s' := System(s.cpu, mem, s.stack[t := base], s.saved[t := sp], s.ready + [t]);
    var v' := Virtual(v.vcpus[t := Vcpu(c, mem)], v.ready + [t]);
    assert WellFormed(s');
    forall u | u in s'.ready && u != s'.ready[0] ensures SuspendedTask(s', u, v'.vcpus[u].cpu) {
      if u != t { FrameKept(s, s', u, v.vcpus[u].cpu); }
    }
    forall u, a: nat | u in s'.ready && Live(s', u, v'.vcpus[u].cpu, a)
      ensures Word(s'.mem, a) == Word(v'.vcpus[u].mem, a)
    {
      if u != t { assert Live(s, u, v.vcpus[u].cpu, a); }
    }
  }

  lemma NewTaskRefines(s: System, v: Virtual, t: nat, base: nat, func: nat)
    requires Implements(s, v) && Allowed(s, NewTask(t, base, func))
    ensures Implements(Next(s, NewTask(t, base, func)), VirtualNext(s, v, NewTask(t, base, func)))
  {
    FreshIsSuspended(s.mem, base, func);
    hide Suspended, InitStack, FreshCpu, Implements;
    JoinRefines(s, v, t, base, InitStack(s.mem, base, func), 8 * (base + 45), FreshCpu(s.mem, base, func));
  }

  /** The running task leaves its registers in a frame on its stack; the next one takes over. */
  lemma LeaveRefines(s: System, v: Virtual, mem: Mem, sp: nat, ready: seq<nat>, c: Cpu)
    requires Implements(s, v) && Suspended(mem, sp, s.cpu)
    requires var b := s.stack[s.ready[0]]; b <= sp / 8 && sp / 8 + 19 <= b + STACK_WORDS
    requires var b := s.stack[s.ready[0]];
             forall a: nat | a < b || b + STACK_WORDS <= a || AlignedTop(s.cpu.rsp) <= a ::
               Word(mem, a) == Word(s.mem, a)
    requires ready != [] && Distinct(ready) && forall t :: t in ready <==> t in s.ready
    requires c == v.vcpus[ready[0]].cpu
    ensures Implements(System(c, mem, s.stack, s.saved[s.ready[0] := sp], ready), Virtual(v.vcpus, ready))
  {
    hide Suspended, AlignedTop, Distinct;
    var s' := System(c, mem, s.stack, s.saved[s.ready[0] := sp], ready);
    assert WellFormed(s');
    forall t | t in s'.ready && t != s'.ready[0] ensures SuspendedTask(s', t, v.vcpus[t].cpu) {
      if t != s.ready[0] { FrameKept(s, s', t, v.vcpus[t].cpu); }
    }
    forall t, a: nat | t in s'.ready && Live(s', t, v.vcpus[t].cpu, a)
      ensures Word(s'.mem, a) == Word(v.vcpus[t].mem, a)
    {
      assert Live(s, t, v.vcpus[t].cpu, a);
    }
  }

  lemma InterruptRefines(s: System, v: Virtual, scratch: Regs)
    requires Implements(s, v) && StackFits(s)
    ensures Implements(Switch(s, scratch), VirtualNext(s, v, Interrupt(scratch)))
  {
    var ready, mem := RotateLeft(s.ready), Suspend(s.mem, s.cpu);
    RotateKeeps(s.ready);
    SuspendMeaning(s.mem, s.cpu);
    FrameFits(s);
    ResumedCpu(s, v, scratch);
    assert VirtualNext(s, v, Interrupt(scratch)) == Virtual(v.vcpus, ready);
    hide Suspended, Suspend, Resume, RotateLeft, Distinct, Implements, SavedRsp, AlignedTop;
    LeaveRefines(s, v, mem, SavedRsp(s.cpu), ready, v.vcpus[ready[0]].cpu);
  }

  lemma FrameFits(s: System)
    requires WellFormed(s) && StackFits(s)
    ensures var b, sp := s.stack[s.ready[0]], SavedRsp(s.cpu);
            b <= sp / 8 && sp / 8 + 19 <= b + STACK_WORDS
  {
  }

  /** Switching out leaves every other task's stack alone. */
  lemma OthersUntouched(s: System, t: nat)
    requires WellFormed(s) && StackFits(s) && t in s.ready && t != s.ready[0]
    ensures forall a: nat | InStack(s, t, a) :: Word(Suspend(s.mem, s.cpu), a) == Word(s.mem, a)
  {
    SuspendMeaning(s.mem, s.cpu);
    hide Suspend, Suspended;
    assert Apart(s.stack[t], s.stack[s.ready[0]]);
  }

  lemma ResumedCpu(s: System, v: Virtual, scratch: Regs)
    requires Implements(s, v) && StackFits(s)
    ensures RotateLeft(s.ready)[0] in s.ready
    ensures var n := RotateLeft(s.ready)[0];
            Resume(Suspend(s.mem, s.cpu), s.saved[s.ready[0] := SavedRsp(s.cpu)][n], scratch) == v.vcpus[n].cpu
  {
    var n := RotateLeft(s.ready)[0];
    RotateKeeps(s.ready);
    SuspendMeaning(s.mem, s.cpu);
    if n != s.ready[0] { OthersUntouched(s, n); }
    hide Suspend, Resume, RotateLeft, Suspended, Distinct, SavedRsp, AlignedTop;
    if n == s.ready[0] {
      ResumeMeaning(Suspend(s.mem, s.cpu), SavedRsp(s.cpu), s.cpu, scratch);
    } else {
      assert SuspendedTask(s, n, v.vcpus[n].cpu);
      FrameKept(s, s.(mem := Suspend(s.mem, s.cpu)), n, v.vcpus[n].cpu);
      ResumeMeaning(Suspend(s.mem, s.cpu), s.saved[n], v.vcpus[n].cpu, scratch);
    }
  }
}
