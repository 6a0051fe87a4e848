/** Whole runs of the tasks: from `setup_processes` through any interleaving of work, switches and new tasks. */
module TaskRuns {
  import opened Bits
  import opened Sequences
  import opened ContextSwitch
  import opened Tasks

  // ----- One step keeps the machine well formed -----

  lemma NextWellFormed(s: System, e: Event)
    requires WellFormed(s) && Allowed(s, e)
    ensures WellFormed(Next(s, e))
  {
    match e
    case Run(_, _) =>
    case Interrupt(scratch) => SwitchWellFormed(s, scratch);
    case NewTask(t, base, func) => SpawnWellFormed(s, t, base, func);
  }

  lemma SwitchWellFormed(s: System, scratch: Regs)
    requires WellFormed(s) && AlignedTop(s.cpu.rsp) >= FRAME
    ensures WellFormed(Switch(s, scratch)) && Switch(s, scratch).ready == RotateLeft(s.ready)
    ensures Switch(s, scratch).stack == s.stack
  {
    hide Suspend, Resume, Distinct, Apart, RotateLeft;
    var s' := Switch(s, scratch);
    assert s'.ready == RotateLeft(s.ready) && s'.stack == s.stack && s'.saved == s.saved[s.ready[0] := SavedRsp(s.cpu)];
    hide Switch, AlignedTop, SavedRsp;
    RotateKeeps(s.ready);
    assert forall t | t in s'.ready :: t in s.ready && t in s'.stack && t in s'.saved;
    assert forall t, u | t in s'.ready && u in s'.ready && t != u :: Apart(s'.stack[t], s'.stack[u]);
  }

  lemma SpawnWellFormed(s: System, t: nat, base: nat, func: nat)
    requires WellFormed(s) && t !in s.ready && forall u | u in s.ready :: Apart(s.stack[u], base)
    ensures WellFormed(Spawn(s, t, base, func))
  {
    hide InitStack;
  }

  /** Every event of a run is allowed in the state it meets. */
  ghost predicate AllAllowed(s: System, es: seq<Event>)
    requires WellFormed(s)
    decreases |es|
  {
    es == [] || (Allowed(s, es[0]) && (NextWellFormed(s, es[0]); AllAllowed(Next(s, es[0]), es[1..])))
  }

  ghost function After(s: System, es: seq<Event>): (s': System)
    requires WellFormed(s) && AllAllowed(s, es)
    ensures WellFormed(s')
    decreases |es|
  {
    if es == [] then s else NextWellFormed(s, es[0]); After(Next(s, es[0]), es[1..])
  }

  ghost function VirtualAfter(s: System, v: Virtual, es: seq<Event>): Virtual
    requires WellFormed(s) && AllAllowed(s, es) && Implements(s, v)
    decreases |es|
  {
    if es == [] then v
    else
      NextWellFormed(s, es[0]);
      StepRefines(s, v, es[0]);
      VirtualAfter(Next(s, es[0]), VirtualNext(s, v, es[0]), es[1..])
  }

  lemma StepRefines(s: System, v: Virtual, e: Event)
    requires Implements(s, v) && Allowed(s, e)
    ensures Implements(Next(s, e), VirtualNext(s, v, e))
  {
    match e
    case Run(c, m) => RunRefines(s, v, c, m);
    case Interrupt(scratch) => InterruptRefines(s, v, scratch);
    case NewTask(t, base, func) => NewTaskRefines(s, v, t, base, func);
  }

  lemma RunOfNone(s: System, v: Virtual)
    requires Implements(s, v)
    ensures AllAllowed(s, []) && After(s, []) == s && VirtualAfter(s, v, []) == v
  {
    hide Implements;
  }

  /** A run is its first event, then the rest. */
  lemma RunOfMore(s: System, v: Virtual, es: seq<Event>)
    requires Implements(s, v) && AllAllowed(s, es) && es != []
    ensures Allowed(s, es[0]) && v.ready != [] && (es[0].Interrupt? ==> AlignedTop(s.cpu.rsp) >= FRAME)
    ensures var s', v' := Next(s, es[0]), VirtualNext(s, v, es[0]);
            && Implements(s', v') && AllAllowed(s', es[1..])
            && After(s, es) == After(s', es[1..]) && VirtualAfter(s, v, es) == VirtualAfter(s', v', es[1..])
  {
    StepRefines(s, v, es[0]);
  }

  /** The kernel refines n independent processors over any run: the abstract machine, in which a
      switch changes nobody's registers or stack, is implemented after every run. */
  lemma {:induction false} RefinesForever(s: System, v: Virtual, es: seq<Event>)
    requires Implements(s, v) && AllAllowed(s, es)
    ensures Implements(After(s, es), VirtualAfter(s, v, es))
    decreases |es|
  {
    if es != [] {
      var s', v' := Next(s, es[0]), VirtualNext(s, v, es[0]);
      StepRefines(s, v, es[0]);
      assert After(s, es) == After(s', es[1..]) && VirtualAfter(s, v, es) == VirtualAfter(s', v', es[1..]);
      hide Implements, Allowed, Next, VirtualNext, WellFormed;
      RefinesForever(s', v', es[1..]);
    }
  }

  // ----- A task resumes with what it had -----

  /** Task t executes nothing in a run: whenever code runs, another task is current. */
  ghost predicate Idle(s: System, es: seq<Event>, t: nat)
    requires WellFormed(s) && AllAllowed(s, es)
    decreases |es|
  {
    es == [] || ((es[0].Run? ==> s.ready[0] != t) && (NextWellFormed(s, es[0]); Idle(Next(s, es[0]), es[1..], t)))
  }

  lemma {:induction false} PrefixAllowed(s: System, es: seq<Event>, i: nat)
    requires WellFormed(s) && AllAllowed(s, es) && i <= |es|
    ensures AllAllowed(s, es[..i])
    decreases |es|
  {
    if i > 0 {
      NextWellFormed(s, es[0]);
      hide WellFormed, Next, Allowed;
      PrefixAllowed(Next(s, es[0]), es[1..], i - 1);
      assert es[..i][1..] == es[1..][..i - 1];
    }
  }

  /** The machine before event i of a run. */
  ghost function StateAt(s: System, es: seq<Event>, i: nat): (s': System)
    requires WellFormed(s) && AllAllowed(s, es) && i <= |es|
    ensures WellFormed(s')
  {
    PrefixAllowed(s, es, i);
    After(s, es[..i])
  }

  /** Event i of the run is not code of task t. */
  ghost predicate NotOf(s: System, es: seq<Event>, t: nat, i: nat)
    requires WellFormed(s) && AllAllowed(s, es) && i < |es|
  {
    es[i].Run? ==> StateAt(s, es, i).ready[0] != t
  }

  lemma NotOfLater(s: System, es: seq<Event>, t: nat, i: nat)
    requires WellFormed(s) && AllAllowed(s, es) && 0 < i < |es|
    ensures WellFormed(Next(s, es[0])) && AllAllowed(Next(s, es[0]), es[1..])
    ensures NotOf(s, es, t, i) <==> NotOf(Next(s, es[0]), es[1..], t, i - 1)
  {
    hide WellFormed, Next, Allowed, StateAt, AllAllowed;
    StateAtNext(s, es, i);
  }

  lemma StateAtNext(s: System, es: seq<Event>, i: nat)
    requires WellFormed(s) && AllAllowed(s, es) && 0 < i < |es|
    ensures Allowed(s, es[0]) && WellFormed(Next(s, es[0])) && AllAllowed(Next(s, es[0]), es[1..])
    ensures StateAt(s, es, i) == StateAt(Next(s, es[0]), es[1..], i - 1)
  {
    NextWellFormed(s, es[0]);
    PrefixAllowed(s, es, i);
    hide WellFormed, Next, Allowed;
    assert es[..i][1..] == es[1..][..i - 1];
  }

  lemma AsNotOf(s: System, es: seq<Event>, t: nat)
    requires WellFormed(s) && AllAllowed(s, es)
    ensures (forall i | 0 <= i < |es| :: NotOf(s, es, t, i)) <==>
            forall i | 0 <= i < |es| && es[i].Run? :: StateAt(s, es, i).ready[0] != t
  {
    hide Distinct, Apart, AllAllowed, StateAt;
    if forall i | 0 <= i < |es| && es[i].Run? :: StateAt(s, es, i).ready[0] != t {
      forall i | 0 <= i < |es| ensures NotOf(s, es, t, i) {
      }
    }
    if forall i | 0 <= i < |es| :: NotOf(s, es, t, i) {
      forall i | 0 <= i < |es| && es[i].Run? ensures StateAt(s, es, i).ready[0] != t {
        assert NotOf(s, es, t, i);
      }
    }
  }

  lemma {:induction false} IdleIsNotOf(s: System, es: seq<Event>, t: nat)
    requires WellFormed(s) && AllAllowed(s, es)
    ensures Idle(s, es, t) <==> forall i | 0 <= i < |es| :: NotOf(s, es, t, i)
    decreases |es|
  {
    hide NotOf, StateAt;
    if es != [] {
      NextWellFormed(s, es[0]);
      var s' := Next(s, es[0]);
      hide WellFormed, Next, Allowed;
      IdleIsNotOf(s', es[1..], t);
      NotOfFirst(s, es, t);
      NotOfAll(s, es, t, s');
    }
  }

  /** A task is idle in a run exactly if another task is current whenever code runs. */
  lemma IdleMeaning(s: System, es: seq<Event>, t: nat)
    requires WellFormed(s) && AllAllowed(s, es)
    ensures Idle(s, es, t) <==> forall i | 0 <= i < |es| && es[i].Run? :: StateAt(s, es, i).ready[0] != t
  {
    hide WellFormed, AllAllowed, StateAt, NotOf, Idle;
    IdleIsNotOf(s, es, t);
    AsNotOf(s, es, t);
  }

  lemma NotOfFirst(s: System, es: seq<Event>, t: nat)
    requires WellFormed(s) && AllAllowed(s, es) && es != []
    ensures NotOf(s, es, t, 0) <==> (es[0].Run? ==> s.ready[0] != t)
  {
    StateFirst(s, es);
    hide WellFormed, StateAt;
  }

  lemma NotOfAll(s: System, es: seq<Event>, t: nat, s': System)
    requires WellFormed(s) && AllAllowed(s, es) && es != [] && s' == Next(s, es[0])
    requires WellFormed(s') && AllAllowed(s', es[1..])
    ensures (forall i | 0 <= i < |es| :: NotOf(s, es, t, i)) <==>
            NotOf(s, es, t, 0) && forall i | 0 <= i < |es[1..]| :: NotOf(s', es[1..], t, i)
  {
    hide WellFormed, Next, Allowed, NotOf, AllAllowed;
    forall i | 0 < i < |es| ensures NotOf(s, es, t, i) <==> NotOf(s', es[1..], t, i - 1) {
      NotOfLater(s, es, t, i);
    }
    if forall i | 0 <= i < |es| :: NotOf(s, es, t, i) {
      forall i | 0 <= i < |es[1..]| ensures NotOf(s', es[1..], t, i) {
        assert NotOf(s, es, t, i + 1);
      }
    }
  }

  lemma StateFirst(s: System, es: seq<Event>)
    requires WellFormed(s) && AllAllowed(s, es)
    ensures StateAt(s, es, 0) == s
  {
    hide WellFormed;
    assert es[..0] == [];
  }

  lemma {:induction false} IdleKeeps(s: System, v: Virtual, es: seq<Event>, t: nat)
    requires Implements(s, v) && AllAllowed(s, es) && t in s.ready && Idle(s, es, t)
    ensures t in v.vcpus && t in VirtualAfter(s, v, es).vcpus
    ensures VirtualAfter(s, v, es).vcpus[t] == v.vcpus[t]
    ensures t in After(s, es).ready && t in After(s, es).stack && t in s.stack && After(s, es).stack[t] == s.stack[t]
    decreases |es|
  {
    if es != [] {
      var s', v' := Next(s, es[0]), VirtualNext(s, v, es[0]);
      OneStepKeeps(s, v, es[0], t);
      StepRefines(s, v, es[0]);
      hide Implements, Allowed, Next, VirtualNext, WellFormed;
      IdleKeeps(s', v', es[1..], t);
    }
  }

  lemma OneStepKeeps(s: System, v: Virtual, e: Event, t: nat)
    requires Implements(s, v) && Allowed(s, e) && t in s.ready && (e.Run? ==> s.ready[0] != t)
    ensures t in v.vcpus && t in s.stack
    ensures var v' := VirtualNext(s, v, e); t in v'.vcpus && v'.vcpus[t] == v.vcpus[t]
    ensures var s' := Next(s, e); t in s'.ready && t in s'.stack && s'.stack[t] == s.stack[t]
  {
    RotateKeeps(s.ready);
    hide RotateLeft, Distinct, Suspend, Resume, Suspended, InitStack, FreshCpu;
  }

  lemma ResumesLive(s: System, v: Virtual, es: seq<Event>, c: System)
    requires WellFormed(s) && AllAllowed(s, es) && es != [] && es[0].Interrupt? && c == After(s, es)
    requires Idle(s, es, s.ready[0]) && c.ready[0] == s.ready[0] && Implements(s, v)
    ensures c.cpu == s.cpu && s.ready[0] in s.stack
    ensures forall a: nat | Live(s, s.ready[0], s.cpu, a) :: Word(c.mem, a) == Word(s.mem, a)
  {
    var t := s.ready[0];
    RefinesForever(s, v, es);
    IdleKeeps(s, v, es, t);
    hide After, VirtualAfter, AllAllowed, Idle;
    SameTask(s, v, c, VirtualAfter(s, v, es));
  }

  /** Transparency: a task that executes `int $0x80`, and whose next turn comes after any events of
      others, has then the fourteen registers, rip, cs, rflags, rsp and ss it had, and the words of its
      stack from rsp, aligned down to 16 bytes, on. */
  lemma ResumesUnchanged(s: System, v: Virtual, es: seq<Event>)
    requires WellFormed(s) && AllAllowed(s, es) && es != [] && es[0].Interrupt?
    requires Idle(s, es, s.ready[0]) && After(s, es).ready[0] == s.ready[0] && Implements(s, v)
    ensures After(s, es).cpu == s.cpu && s.ready[0] in s.stack
    ensures forall a: nat | s.stack[s.ready[0]] <= a < s.stack[s.ready[0]] + 4096 && s.cpu.rsp / 16 * 2 <= a ::
              Word(After(s, es).mem, a) == Word(s.mem, a)
  {
    hide After, AllAllowed, Idle, Implements;
    ResumesLive(s, v, es, After(s, es));
    StackIsLive(s, After(s, es), s.ready[0]);
  }

  lemma StackIsLive(s: System, c: System, t: nat)
    requires t in s.stack && forall a: nat | Live(s, t, s.cpu, a) :: Word(c.mem, a) == Word(s.mem, a)
    ensures forall a: nat | s.stack[t] <= a < s.stack[t] + 4096 && s.cpu.rsp / 16 * 2 <= a ::
              Word(c.mem, a) == Word(s.mem, a)
  {
    hide Word;
    forall a: nat | s.stack[t] <= a < s.stack[t] + 4096 && s.cpu.rsp / 16 * 2 <= a
      ensures Word(c.mem, a) == Word(s.mem, a)
    {
      assert Live(s, t, s.cpu, a);
    }
  }

  lemma SameTask(s: System, v: Virtual, s': System, v': Virtual)
    requires Implements(s, v) && Implements(s', v') && s'.ready[0] == s.ready[0]
    requires var t := s.ready[0]; v'.vcpus[t] == v.vcpus[t] && s'.stack[t] == s.stack[t]
    ensures s'.cpu == s.cpu
    ensures forall a: nat | Live(s, s.ready[0], s.cpu, a) :: Word(s'.mem, a) == Word(s.mem, a)
  {
    hide SuspendedTask, AlignedTop, Distinct;
    var t := s.ready[0];
    forall a: nat | Live(s, t, s.cpu, a) ensures Word(s'.mem, a) == Word(s.mem, a) {
      assert Live(s', t, v'.vcpus[t].cpu, a);
    }
  }

  // ----- The start -----

  /** Before `first_switch` every task of the list, if there is one, is a suspended frame. */
  predicate AllSuspended(s: System, cpus: map<nat, Cpu>) {
    && Distinct(s.ready)
    && (forall t | t in s.ready :: t in s.stack && t in s.saved && t in cpus && SuspendedTask(s, t, cpus[t]))
    && (forall t, u | t in s.ready && u in s.ready && t != u :: Apart(s.stack[t], s.stack[u]))
  }

  lemma SpawnSuspends(s: System, cpus: map<nat, Cpu>, t: nat, base: nat, func: nat)
    requires AllSuspended(s, cpus) && t !in s.ready && forall u | u in s.ready :: Apart(s.stack[u], base)
    ensures AllSuspended(Spawn(s, t, base, func), cpus[t := FreshCpu(s.mem, base, func)])
  {
    FreshIsSuspended(s.mem, base, func);
    hide Suspended, InitStack, FreshCpu;
    var s', cpus' := Spawn(s, t, base, func), cpus[t := FreshCpu(s.mem, base, func)];
    assert s'.ready == s.ready + [t];
    forall u | u in s'.ready ensures SuspendedTask(s', u, cpus'[u]) {
      if u != t { FrameKept(s, s', u, cpus[u]); }
    }
  }

  /** `first_switch`: the stack pointer, then the fourteen pops and `iretq`. */
  function FirstSwitch(s: System, scratch: Regs): System
    requires s.ready != [] && s.ready[0] in s.saved
  {
    s.(cpu := Resume(s.mem, s.saved[s.ready[0]], scratch))
  }

  /** After `first_switch` the first task has the processor, with the registers of its frame, and
      the machine implements one virtual processor a task. */
  lemma FirstSwitchStarts(s: System, cpus: map<nat, Cpu>, scratch: Regs)
    requires AllSuspended(s, cpus) && s.ready != []
    ensures FirstSwitch(s, scratch).cpu == cpus[s.ready[0]]
    ensures Implements(FirstSwitch(s, scratch), Virtual(map t | t in cpus :: Vcpu(cpus[t], s.mem), s.ready))
  {
    var t := s.ready[0];
    ResumeMeaning(s.mem, s.saved[t], cpus[t], scratch);
    hide Suspended, Resume;
    AllStart(s, cpus, s.(cpu := cpus[t]));
  }

  lemma AllStart(s: System, cpus: map<nat, Cpu>, s': System)
    requires AllSuspended(s, cpus) && s.ready != [] && s' == s.(cpu := cpus[s.ready[0]])
    ensures Implements(s', Virtual(map t | t in cpus :: Vcpu(cpus[t], s.mem), s.ready))
  {
    hide Suspended, AlignedTop, Distinct, Apart;
    forall u | u in s.ready ensures SuspendedTask(s', u, cpus[u]) {
      FrameKept(s, s', u, cpus[u]);
    }
  }

  /** What `setup_processes` adds, one task after the other, each with its own struct. */
  datatype Start = Start(id: nat, base: nat, func: nat)

  function AddAll(s: System, starts: seq<Start>): System
    decreases |starts|
  {
    if starts == [] then s
    else
      var prefix, x := starts[..|starts| - 1], starts[|starts| - 1];
      Spawn(AddAll(s, prefix), x.id, x.base, x.func)
  }

  lemma AddNone(s: System)
    ensures AddAll(s, []) == s
  {
  }

  predicate OwnStructs(starts: seq<Start>) {
    forall i, j | 0 <= i < j < |starts| :: starts[i].id != starts[j].id && Apart(starts[i].base, starts[j].base)
  }

  /** The list is in the order of starting, and each task enters its function on its own stack. */
  predicate Started(s: System, cpus: map<nat, Cpu>, starts: seq<Start>) {
    && |s.ready| == |starts|
    && (forall i | 0 <= i < |starts| :: s.ready[i] == starts[i].id)
    && (forall x | x in starts ::
          x.id in cpus && cpus[x.id].rip == x.func && x.id in s.stack && s.stack[x.id] == x.base)
  }

  lemma SpawnStarts(s: System, cpus: map<nat, Cpu>, prefix: seq<Start>, x: Start)
    requires Started(s, cpus, prefix) && x.id !in s.ready
    ensures Started(Spawn(s, x.id, x.base, x.func), cpus[x.id := FreshCpu(s.mem, x.base, x.func)], prefix + [x])
  {
    assert FreshCpu(s.mem, x.base, x.func).rip == x.func;
    hide FreshCpu, InitStack;
    forall y | y in prefix ensures y.id != x.id {
      var i :| 0 <= i < |prefix| && prefix[i] == y;
      assert s.ready[i] in s.ready;
    }
  }

  lemma OwnStruct(s: System, cpus: map<nat, Cpu>, starts: seq<Start>)
    requires OwnStructs(starts) && starts != [] && Started(s, cpus, starts[..|starts| - 1])
    ensures var x := starts[|starts| - 1];
            forall u | u in s.ready :: u in s.stack && u != x.id && Apart(s.stack[u], x.base)
  {
    hide Apart;
    var prefix, x := starts[..|starts| - 1], starts[|starts| - 1];
    forall u | u in s.ready ensures u in s.stack && u != x.id && Apart(s.stack[u], x.base) {
      var i :| 0 <= i < |s.ready| && s.ready[i] == u;
      assert prefix[i] in prefix && prefix[i] == starts[i];
    }
  }

  lemma {:induction false} AddAllMeaning(s: System, starts: seq<Start>) returns (cpus: map<nat, Cpu>)
    requires s.ready == [] && OwnStructs(starts)
    ensures AllSuspended(AddAll(s, starts), cpus) && Started(AddAll(s, starts), cpus, starts)
    decreases |starts|
  {
    if starts == [] {
      cpus := map[];
    } else {
      var prefix, x := starts[..|starts| - 1], starts[|starts| - 1];
      assert starts == prefix + [x] && OwnStructs(prefix);
      hide AllSuspended, FreshCpu, OwnStructs, Started, Apart, Spawn;
      cpus := AddAllMeaning(s, prefix);
      var s1 := AddAll(s, prefix);
      OwnStruct(s1, cpus, starts);
      SpawnStarts(s1, cpus, prefix, x);
      SpawnSuspends(s1, cpus, x.id, x.base, x.func);
      cpus := cpus[x.id := FreshCpu(s1.mem, x.base, x.func)];
    }
  }

  /** The machine after adding tasks to an empty list and `first_switch`. */
  function Begin(s: System, starts: seq<Start>, scratch: Regs): (c: System)
    requires s.ready == [] && starts != [] && OwnStructs(starts)
    ensures WellFormed(c)
  {
    FirstAdded(s, starts, scratch);
    FirstSwitch(AddAll(s, starts), scratch)
  }

  lemma FirstAdded(s: System, starts: seq<Start>, scratch: Regs)
    requires s.ready == [] && starts != [] && OwnStructs(starts)
    ensures var b := AddAll(s, starts);
            && b.ready != [] && b.ready[0] == starts[0].id && b.ready[0] in b.saved
            && WellFormed(FirstSwitch(b, scratch))
  {
    var cpus := AddAllMeaning(s, starts);
    var b := AddAll(s, starts);
    assert b.ready[0] in b.ready;
    FirstSwitchStarts(b, cpus, scratch);
    hide AddAll, AllSuspended, FirstSwitch, WellFormed;
    RefinesNow(FirstSwitch(b, scratch), Virtual(map t | t in cpus :: Vcpu(cpus[t], b.mem), b.ready));
  }

  /** The added tasks are suspended, and the first one is about to enter its function. */
  lemma FirstSuspended(s: System, starts: seq<Start>) returns (cpus: map<nat, Cpu>)
    requires s.ready == [] && starts != [] && OwnStructs(starts)
    ensures var b := AddAll(s, starts);
            && AllSuspended(b, cpus) && b.ready != [] && b.ready[0] in cpus && cpus[b.ready[0]].rip == starts[0].func
  {
    cpus := AddAllMeaning(s, starts);
    assert starts[0] in starts;
    hide AllSuspended, AddAll;
  }

  lemma RefinesNow(s: System, v: Virtual)
    requires Implements(s, v)
    ensures WellFormed(s)
  {
  }

  /** One task more: its struct is new to the list. */
  lemma AddOneMore(s: System, starts: seq<Start>, i: nat)
    requires s.ready == [] && OwnStructs(starts) && i < |starts|
    ensures starts[i].id !in AddAll(s, starts[..i]).ready
    ensures AddAll(s, starts[..i + 1]) ==
            Spawn(AddAll(s, starts[..i]), starts[i].id, starts[i].base, starts[i].func)
  {
    var upto := starts[..i + 1];
    assert upto[..i] == starts[..i] && upto[i] == starts[i];
    assert OwnStructs(upto[..i]) && OwnStructs(upto);
    hide AllSuspended, OwnStructs, Spawn, Apart;
    var cpus := AddAllMeaning(s, upto[..i]);
    OwnStruct(AddAll(s, upto[..i]), cpus, upto);
  }

  /** From any memory: after adding tasks and `first_switch`, every run implements the virtual
      processors, and the first instruction executed is the first task's function. */
  lemma RunsFromSetup(s: System, starts: seq<Start>, scratch: Regs) returns (v: Virtual)
    requires s.ready == [] && starts != [] && OwnStructs(starts)
    ensures var c := Begin(s, starts, scratch);
            && c.cpu.rip == starts[0].func && Implements(c, v)
            && forall es: seq<Event> | AllAllowed(c, es) :: Implements(After(c, es), VirtualAfter(c, v, es))
  {
    var b, c := AddAll(s, starts), Begin(s, starts, scratch);
    var cpus := AddAllMeaning(s, starts);
    FirstSwitchStarts(b, cpus, scratch);
    v := Virtual(map t | t in cpus :: Vcpu(cpus[t], b.mem), b.ready);
    assert b.ready[0] == starts[0].id;
    hide AddAll, AllSuspended, Implements, FirstSwitch, After, VirtualAfter, AllAllowed, Begin;
    forall es: seq<Event> | AllAllowed(c, es) ensures Implements(After(c, es), VirtualAfter(c, v, es)) {
      RefinesForever(c, v, es);
    }
  }

  // ----- Fairness -----

  /** The switches in a run. */
  function Switches(es: seq<Event>): nat {
    if es == [] then 0 else (if es[0].Interrupt? then 1 else 0) + Switches(es[1..])
  }

  /** With no new tasks, the list is rotated once a switch. */
  lemma {:induction false} ReadyAfter(s: System, es: seq<Event>)
    requires WellFormed(s) && AllAllowed(s, es) && forall e | e in es :: !e.NewTask?
    ensures After(s, es).ready == Rotated(s.ready, Switches(es))
    decreases |es|
  {
    if es == [] {
      hide WellFormed, RotateLeft;
    } else {
      var s' := Next(s, es[0]);
      NextWellFormed(s, es[0]);
      StepReady(s, es[0]);
      hide Next, WellFormed, RotateLeft, Allowed, Rotated;
      assert forall e | e in es[1..] :: e in es;
      assert es[0] in es;
      assert AllAllowed(s', es[1..]) && After(s, es) == After(s', es[1..]);
      var n := Switches(es[1..]);
      assert Switches(es) == if es[0].Interrupt? then n + 1 else n;
      hide Switches, After, AllAllowed;
      ReadyAfter(s', es[1..]);
      RotatedLater(s.ready, n);
    }
  }

  lemma StepReady(s: System, e: Event)
    requires WellFormed(s) && Allowed(s, e) && !e.NewTask?
    ensures Next(s, e).ready == if e.Interrupt? then RotateLeft(s.ready) else s.ready
  {
    if e.Interrupt? { SwitchWellFormed(s, e.scratch); }
  }

  /** In any n consecutive switch counts each of n tasks is current exactly once. */
  lemma EachTurnOnce(ready: seq<nat>, k: nat, p: nat) returns (turn: nat)
    requires Distinct(ready) && p < |ready|
    ensures k <= turn < k + |ready| && Rotated(ready, turn) != [] && Rotated(ready, turn)[0] == ready[p]
    ensures forall i: nat | k <= i < k + |ready| && i != turn ::
              Rotated(ready, i) != [] && Rotated(ready, i)[0] != ready[p]
  {
    var n := |ready|;
    var r := k % n;
    turn := if p >= r then k + p - r else k + p - r + n;
    TurnOf(k, n, p, turn);
    RotatedAt(ready, turn, 0);
    hide Rotated;
    forall i: nat | k <= i < k + n && i != turn ensures Rotated(ready, i) != [] && Rotated(ready, i)[0] != ready[p] {
      RotatedAt(ready, i, 0);
      OneTurn(k, n, i, turn);
    }
  }

  lemma TurnOf(k: nat, n: nat, p: nat, turn: nat)
    requires p < n && turn == (if p >= k % n then k + p - k % n else k + p - k % n + n)
    ensures turn % n == p
  {
    var q := if p >= k % n then k / n else k / n + 1;
    assert turn == n * q + p;
    DivModUnique(turn, n, q, p);
  }

  lemma OneTurn(k: nat, n: nat, i: nat, j: nat)
    requires n > 0 && k <= i < k + n && k <= j < k + n && i != j
    ensures i % n != j % n
  {
    if i % n == j % n {
      var q: int, q': int := i / n, j / n;
      assert i + n * q' == j + n * q;
      AtLeast(n, q - q');
    }
  }

  lemma AtLeast(n: int, d: int)
    requires n > 0 && -n < n * d < n
    ensures d == 0
  {
  }
}
