/** sys/process.c and the `int $0x80` stub of sys/isr.s, on linked task structs and a real stack. */
module Scheduler {
  import opened Sequences
  import opened ContextSwitch
  import opened Tasks
  import TaskRuns

  /** task_struct: `stack` is where its stack array starts, as a word index, and names the task. */
  class Task {
    const stack: nat
    var rip: nat
    var rsp: nat
    var nextTask: Task?

    constructor (stack: nat)
      ensures this.stack == stack
    {
      this.stack := stack;
    }
  }

  /** The tasks of s, in this order, are a chain from `first` that ends in NULL. */
  ghost predicate Chain(first: Task?, s: seq<Task>)
    reads s
  {
    && Distinct(s)
    && (if s == [] then first == null else first == s[0] && s[|s| - 1].nextTask == null)
    && (forall i | 0 <= i < |s| - 1 :: s[i].nextTask == s[i + 1])
  }

  function Ids(s: seq<Task>): seq<nat> {
    seq(|s|, i requires 0 <= i < |s| => s[i].stack)
  }

  predicate IsSaveOrder(o: seq<Reg>) {
    && |o| == 14
    && o[0] == RAX && o[1] == RBX && o[2] == RCX && o[3] == RDX && o[4] == RSI && o[5] == RDI && o[6] == R8
    && o[7] == R9 && o[8] == R10 && o[9] == R11 && o[10] == R12 && o[11] == R13 && o[12] == R14 && o[13] == R15
  }

  predicate IsRestoreOrder(o: seq<Reg>) {
    && |o| == 14
    && o[0] == R15 && o[1] == R14 && o[2] == R13 && o[3] == R12 && o[4] == R11 && o[5] == R10 && o[6] == R9
    && o[7] == R8 && o[8] == RDI && o[9] == RSI && o[10] == RDX && o[11] == RCX && o[12] == RBX && o[13] == RAX
  }

  /** The orders of the stub, as the facts about them. */
  ghost function StubOrders(): (o: (seq<Reg>, seq<Reg>))
    ensures o.0 == SAVE_ORDER && IsSaveOrder(o.0) && o.0[..14] == o.0
    ensures o.1 == RESTORE_ORDER && IsRestoreOrder(o.1) && o.1[..14] == o.1
  {
    (SAVE_ORDER, RESTORE_ORDER)
  }

  /** A stack pointer at a word. */
  predicate Aligned(rsp: nat) {
    rsp % 8 == 0
  }

  lemma EightTimes(a: nat)
    ensures 8 * a / 8 == a && Aligned(8 * a)
  {
  }

  lemma AlignedWord(rsp: nat)
    ensures rsp / 16 * 16 == 8 * AlignedTop(rsp)
  {
  }

  /** Task t is the one of s with its stack and saved rsp. */
  ghost predicate Shown(t: Task, s: System)
    reads t
  {
    && t.stack in s.stack && s.stack[t.stack] == t.stack
    && t.stack in s.saved && s.saved[t.stack] == t.rsp
  }

  class Machine {
    var regs: Regs
    var rip: nat
    var cs: nat
    var rflags: nat
    var rsp: nat
    var ss: nat
    var mem: Mem
    var currentTask: Task?
    var rip1: nat
    ghost var tasks: seq<Task>

    /** A machine without tasks. */
    constructor (c: Cpu, memory: Mem)
      ensures regs == c.regs && mem == memory && currentTask == null
      ensures Shows(System(c, memory, map[], map[], []))
    {
      regs, rip, cs, rflags, rsp, ss := c.regs, c.rip, c.cs, c.rflags, c.rsp, c.ss;
      mem := memory;
      currentTask := null;
      rip1 := 0;
      tasks := [];
    }

    ghost predicate Valid()
      reads this`currentTask, this`tasks, tasks
    {
      Chain(currentTask, tasks)
    }

    /** The registers and the links of this machine are those of s. */
    ghost predicate Shows(s: System)
      reads this, tasks
    {
      && Valid()
      && s.cpu == Cpu(regs, rip, cs, rflags, rsp, ss) && s.mem == mem && s.ready == Ids(tasks)
      && forall t | t in tasks :: Shown(t, s)
    }

    /** The word that rsp points at. */
    function Top(): nat
      reads this
    {
      Word(mem, rsp / 8)
    }

    method Push(v: nat)
      requires Aligned(rsp) && rsp >= 8
      modifies this`rsp, this`mem
      ensures rsp == old(rsp) - 8 && mem == old(mem)[rsp / 8 := v]
    {
      rsp := rsp - 8;
      mem := mem[rsp / 8 := v];
    }

    /** A push below word w. */
    method PushAt(v: nat, ghost w: nat)
      requires rsp == 8 * w && w > 0
      modifies this`rsp, this`mem
      ensures rsp == 8 * (w - 1) && mem == old(mem)[w - 1 := v]
    {
      EightTimes(w);
      EightTimes(w - 1);
      Push(v);
    }

    method Pop() returns (v: nat)
      requires Aligned(rsp)
      modifies this`rsp
      ensures rsp == old(rsp) + 8 && v == Word(mem, old(rsp) / 8)
    {
      v := Word(mem, rsp / 8);
      rsp := rsp + 8;
    }

    /** What the processor does on `int $0x80`. */
    method EnterInterrupt()
      requires AlignedTop(rsp) >= FRAME
      modifies this`rsp, this`mem
      ensures mem == PushFrame(old(mem), old(Cpu(regs, rip, cs, rflags, rsp, ss)))
      ensures rsp == 8 * (AlignedTop(old(rsp)) - 5)
    {
      hide AlignedTop, Aligned;
      ghost var w := AlignedTop(rsp);
      AlignedWord(rsp);
      var before := rsp;
      rsp := rsp / 16 * 16;
      EightTimes(w);
      PushAt(ss, w);
      PushAt(before, w - 1);
      PushAt(rflags, w - 2);
      PushAt(cs, w - 3);
      PushAt(rip, w - 4);
    }

    /** The first k registers of the order went onto memory m, from word w down. */
    predicate Pushed(m: Mem, w: nat, order: seq<Reg>, k: nat)
      reads this
    {
      k <= |order| <= w && rsp == 8 * (w - k) && mem == PushAll(m, w, regs, order[..k])
    }

    /** The first k registers of the order came from word w up; the registers were `before`. */
    predicate Popped(before: Regs, w: nat, order: seq<Reg>, k: nat)
      reads this
    {
      k <= |order| && rsp == 8 * (w + k) && regs == PopAll(mem, w, before, order[..k])
    }

    /** `pushq` */
    method PushReg(r: Reg, ghost m: Mem, ghost w: nat, ghost order: seq<Reg>, ghost k: nat)
      requires Pushed(m, w, order, k) && k < |order| && order[k] == r
      modifies this`rsp, this`mem
      ensures Pushed(m, w, order, k + 1)
    {
      Push(regs[r]);
      assert order[..k + 1] == order[..k] + [r];
      PushOneMore(m, w, regs, order[..k], r);
    }

    /** `popq` */
    method PopReg(r: Reg, ghost before: Regs, ghost w: nat, ghost order: seq<Reg>, ghost k: nat)
      requires Popped(before, w, order, k) && k < |order| && order[k] == r
      modifies this`rsp, this`regs
      ensures Popped(before, w, order, k + 1)
    {
      var v := Pop();
      regs := regs[r := v];
      assert order[..k + 1] == order[..k] + [r];
      PopOneMore(mem, w, before, order[..k], r);
    }

    /** The stub's `pushq` of rax to rdi. */
    method SaveNamed(ghost m: Mem, ghost w: nat, ghost order: seq<Reg>)
      requires IsSaveOrder(order) && Pushed(m, w, order, 0)
      modifies this`rsp, this`mem
      ensures Pushed(m, w, order, 6)
    {
      hide Pushed, Complete;
      PushReg(RAX, m, w, order, 0);
      PushReg(RBX, m, w, order, 1);
      PushReg(RCX, m, w, order, 2);
      PushReg(RDX, m, w, order, 3);
      PushReg(RSI, m, w, order, 4);
      PushReg(RDI, m, w, order, 5);
    }

    /** The stub's `pushq` of r8 to r15. */
    method SaveNumbered(ghost m: Mem, ghost w: nat, ghost order: seq<Reg>)
      requires IsSaveOrder(order) && Pushed(m, w, order, 6)
      modifies this`rsp, this`mem
      ensures Pushed(m, w, order, 14)
    {
      hide Pushed, Complete;
      PushReg(R8, m, w, order, 6);
      PushReg(R9, m, w, order, 7);
      PushReg(R10, m, w, order, 8);
      PushReg(R11, m, w, order, 9);
      PushReg(R12, m, w, order, 10);
      PushReg(R13, m, w, order, 11);
      PushReg(R14, m, w, order, 12);
      PushReg(R15, m, w, order, 13);
    }

    /** The `popq` of r15 to r8, in the stub and in `first_switch`. */
    method RestoreNumbered(ghost before: Regs, ghost w: nat, ghost order: seq<Reg>)
      requires IsRestoreOrder(order) && Popped(before, w, order, 0)
      modifies this`rsp, this`regs
      ensures Popped(before, w, order, 8)
    {
      hide Popped, Complete;
      PopReg(R15, before, w, order, 0);
      PopReg(R14, before, w, order, 1);
      PopReg(R13, before, w, order, 2);
      PopReg(R12, before, w, order, 3);
      PopReg(R11, before, w, order, 4);
      PopReg(R10, before, w, order, 5);
      PopReg(R9, before, w, order, 6);
      PopReg(R8, before, w, order, 7);
    }

    /** The `popq` of rdi to rax. */
    method RestoreNamed(ghost before: Regs, ghost w: nat, ghost order: seq<Reg>)
      requires IsRestoreOrder(order) && Popped(before, w, order, 8)
      modifies this`rsp, this`regs
      ensures Popped(before, w, order, 14)
    {
      hide Popped, Complete;
      PopReg(RDI, before, w, order, 8);
      PopReg(RSI, before, w, order, 9);
      PopReg(RDX, before, w, order, 10);
      PopReg(RCX, before, w, order, 11);
      PopReg(RBX, before, w, order, 12);
      PopReg(RAX, before, w, order, 13);
    }

    /** `iretq` */
    method ReturnFromInterrupt()
      requires Aligned(rsp)
      modifies this`rip, this`cs, this`rflags, this`rsp, this`ss
      ensures var w := old(rsp) / 8;
              rip == Word(mem, w) && cs == Word(mem, w + 1) && rflags == Word(mem, w + 2)
              && rsp == Word(mem, w + 3) && ss == Word(mem, w + 4)
    {
      rip := Pop();
      cs := Pop();
      rflags := Pop();
      var newRsp := Pop();
      ss := Pop();
      rsp := newRsp;
    }

    /** The last task of the list. */
    method FindTail() returns (temp: Task)
      requires Valid() && tasks != []
      ensures temp == tasks[|tasks| - 1]
    {
      temp := currentTask;
      ghost var i := 0;
      while temp.nextTask != null
        invariant 0 <= i < |tasks| && temp == tasks[i]
        invariant temp.nextTask == if i < |tasks| - 1 then tasks[i + 1] else null
        decreases |tasks| - i
      {
        temp := temp.nextTask;
        i := i + 1;
      }
    }

    /** The list part of `schedule`: the current task goes to the tail. In between the list is a cycle. */
    method Rotate()
      requires Valid() && tasks != []
      modifies this`currentTask, this`tasks, tasks
      ensures Valid() && tasks == RotateLeft(old(tasks))
      ensures forall t | t in tasks :: t.rsp == old(t.rsp)
    {
      ghost var s := tasks;
      var temp := FindTail();
      temp.nextTask := currentTask;
      temp := temp.nextTask;
      currentTask := currentTask.nextTask;
      temp.nextTask := null;
      tasks := RotateLeft(s);
      RotateKeeps(s);
      assert forall i | 0 <= i < |s| - 1 :: tasks[i] == s[i + 1];
      assert tasks[|s| - 1] == s[0];
    }

    /** `schedule`: `scratch` is what the registers hold at its final jump. */
    method Schedule(scratch: Regs)
      requires Valid() && tasks != [] && Aligned(rsp)
      modifies this`rip1, this`rsp, this`regs, this`currentTask, this`tasks, tasks
      ensures Valid() && tasks == RotateLeft(old(tasks)) && regs == scratch
      ensures rip1 == old(Top())
      ensures forall t | t in tasks :: t.rsp == if t == old(currentTask) then old(rsp) + 8 else old(t.rsp)
      ensures tasks != [] && rsp == tasks[0].rsp
    {
      ghost var s := tasks;
      rip1 := Word(mem, rsp / 8);
      var rax := Pop();
      currentTask.rsp := rsp;
      label stored:
      Rotate();
      RotateKeeps(s);
      rsp := currentTask.rsp;
      regs := scratch;
    }

    /** The fourteen `pushq` of the stub. */
    method SaveRegisters()
      requires Aligned(rsp) && rsp / 8 >= 14
      modifies this`rsp, this`mem
      ensures rsp == old(rsp) - 8 * 14 && mem == PushAll(old(mem), old(rsp) / 8, regs, SAVE_ORDER)
    {
      ghost var m, w, order := mem, rsp / 8, StubOrders();
      assert order.0[..0] == [];
      hide Complete, IsSaveOrder;
      SaveNamed(m, w, order.0);
      SaveNumbered(m, w, order.0);
    }

    /** The fourteen `popq`. */
    method RestoreRegisters()
      requires Aligned(rsp)
      modifies this`rsp, this`regs
      ensures rsp == old(rsp) + 8 * 14 && regs == PopAll(mem, old(rsp) / 8, old(regs), RESTORE_ORDER)
    {
      ghost var before, w, order := regs, rsp / 8, StubOrders();
      assert order.1[..0] == [];
      hide Complete, IsRestoreOrder;
      RestoreNumbered(before, w, order.1);
      RestoreNamed(before, w, order.1);
    }

    /** `int $0x80` and the stub up to the call of `schedule`. */
    method EnterStub()
      requires AlignedTop(rsp) >= FRAME
      modifies this`rsp, this`mem
      ensures mem == Suspend(old(mem), old(Cpu(regs, rip, cs, rflags, rsp, ss)))
      ensures rsp == SavedRsp(old(Cpu(regs, rip, cs, rflags, rsp, ss))) - 8
      ensures Top() == STUB_RETURN && Aligned(rsp)
    {
      hide Complete, PushFrame, PushAll, AlignedTop;
      ghost var w := AlignedTop(rsp);
      EnterInterrupt();
      EightTimes(w - 5);
      EightTimes(w - 19);
      EightTimes(w - 20);
      SaveRegisters();
      Push(STUB_RETURN);
    }

    /** The stub after the call of `schedule`. */
    method LeaveStub()
      requires Aligned(rsp)
      modifies this`regs, this`rip, this`cs, this`rflags, this`rsp, this`ss
      ensures Cpu(regs, rip, cs, rflags, rsp, ss) == Resume(mem, old(rsp), old(regs))
    {
      hide Complete, PopAll, Word;
      ghost var w := rsp / 8;
      RestoreRegisters();
      assert rsp / 8 == w + 14;
      ReturnFromInterrupt();
    }

    /** The call of `schedule` on the way to state s: the rest of the stub finds the stack of s's first task. */
    method ScheduleTowards(scratch: Regs, ghost s: System)
      requires Valid() && tasks != [] && Aligned(rsp) && s.ready == Ids(RotateLeft(tasks))
      requires forall t | t in tasks :: After(t, s)
      requires forall t | t in tasks && t != currentTask :: Aligned(t.rsp)
      modifies this`rip1, this`rsp, this`regs, this`currentTask, this`tasks, tasks
      ensures tasks == RotateLeft(old(tasks)) && Valid() && s.ready == Ids(tasks)
      ensures regs == scratch && rip1 == old(Top())
      ensures forall t | t in tasks :: Shown(t, s)
      ensures Aligned(rsp) && s.ready != [] && s.ready[0] in s.saved && rsp == s.saved[s.ready[0]]
    {
      ghost var ts := tasks;
      RotatedIds(ts);
      assert Distinct(ts) && currentTask == ts[0] && Aligned(rsp + 8);
      hide Chain, Distinct, Complete, RotateLeft, Top, Ids, Aligned;
      Schedule(scratch);
      RotateKeeps(ts);
      forall t | t in tasks ensures Shown(t, s) {
        assert t in ts && old(After(t, s));
      }
      assert Shown(tasks[0], s);
    }

    /** The stub from its call of `schedule` on, towards state s. */
    method FinishSwitch(scratch: Regs, ghost s: System)
      requires Valid() && tasks != [] && Aligned(rsp) && s.ready == Ids(RotateLeft(tasks)) && s.mem == mem
      requires forall t | t in tasks :: After(t, s)
      requires forall t | t in tasks && t != currentTask :: Aligned(t.rsp)
      requires s.ready != [] && s.ready[0] in s.saved && s.cpu == Resume(mem, s.saved[s.ready[0]], scratch)
      modifies this, tasks
      ensures Shows(s) && rip1 == old(Top()) && tasks == RotateLeft(old(tasks))
    {
      hide Chain, Complete, Resume, RotateLeft, Top, Ids, Aligned, After;
      ScheduleTowards(scratch, s);
      LeaveStub();
    }

    /** Task t will be the one of s when `schedule` has stored rsp. */
    ghost predicate After(t: Task, s: System)
      reads this, t
    {
      && t.stack in s.stack && s.stack[t.stack] == t.stack && t.stack in s.saved
      && s.saved[t.stack] == if t == currentTask then rsp + 8 else t.rsp
    }

    lemma ShowsMeaning(s: System)
      requires Shows(s) && WellFormed(s)
      ensures Valid() && s.ready == Ids(tasks) && Distinct(Ids(tasks)) && tasks != []
      ensures currentTask == tasks[0] && s.ready[0] == tasks[0].stack
      ensures s.cpu == Cpu(regs, rip, cs, rflags, rsp, ss) && s.mem == mem && forall t | t in tasks :: Shown(t, s)
    {
      hide Distinct, Complete;
      FirstOf(tasks);
    }

    /** The stub up to its call of `schedule`, on the way from s to s'. */
    method EnterTowards(ghost s: System, ghost s': System)
      requires Shows(s) && WellFormed(s) && AlignedTop(rsp) >= FRAME
      requires s'.mem == Suspend(s.mem, s.cpu) && s'.stack == s.stack
      requires s'.saved == s.saved[s.ready[0] := SavedRsp(s.cpu)]
      modifies this`rsp, this`mem
      ensures Valid() && tasks != [] && s'.mem == mem && Aligned(rsp) && Top() == STUB_RETURN
      ensures forall t | t in tasks :: After(t, s')
    {
      hide Valid, Distinct, Complete, Suspend, Top, Ids, Aligned, AlignedTop;
      ShowsMeaning(s);
      OneId(tasks);
      EnterStub();
      forall t | t in tasks ensures After(t, s') {
        assert old(Shown(t, s));
      }
    }

    /** `int $0x80`, `_isr128` and the stub: this machine goes from s to the switched s. */
    method Interrupt(scratch: Regs, ghost s: System)
      requires Shows(s) && WellFormed(s) && AlignedTop(rsp) >= FRAME
      requires forall t | t in tasks && t != currentTask :: Aligned(t.rsp)
      modifies this, tasks
      ensures Shows(Switch(s, scratch)) && rip1 == STUB_RETURN && tasks == RotateLeft(old(tasks))
    {
      hide Valid, Distinct, Complete, Suspend, Resume, SavedRsp, RotateLeft, Top, Ids, Aligned, AlignedTop;
      hide WellFormed, Switch, Shows, After, Apart;
      ShowsMeaning(s);
      SwitchParts(s, scratch);
      RotatedIds(tasks);
      EnterTowards(s, Switch(s, scratch));
      FinishSwitch(scratch, Switch(s, scratch));
    }

    /** A switch on this machine changes no virtual processor. */
    method TakeInterrupt(scratch: Regs, ghost s: System, ghost v: Virtual)
      requires Shows(s) && Implements(s, v) && StackFits(s)
      modifies this, tasks
      ensures Shows(Switch(s, scratch)) && rip1 == STUB_RETURN && tasks == RotateLeft(old(tasks))
      ensures Implements(Switch(s, scratch), VirtualNext(s, v, Event.Interrupt(scratch)))
    {
      InterruptRefines(s, v, scratch);
      FramesAligned(s, v);
      hide Implements, Switch, VirtualNext, Distinct, Ids, Aligned, AlignedTop, Complete;
      WaitingAligned(s);
      Interrupt(scratch, s);
    }

    /** The waiting tasks of the list are at words when those of s are. */
    lemma WaitingAligned(s: System)
      requires Shows(s) && WellFormed(s) && forall t | t in s.ready && t != s.ready[0] :: Aligned(s.saved[t])
      ensures forall t | t in tasks && t != currentTask :: Aligned(t.rsp)
    {
      hide Distinct, Aligned, Complete;
      ShowsMeaning(s);
      OneId(tasks);
      IdsMore(tasks, tasks[0]);
      forall t | t in tasks && t != currentTask ensures Aligned(t.rsp) {
        assert Shown(t, s) && t.stack in s.ready;
      }
    }

    /** `first_switch` */
    method FirstSwitch(ghost s: System)
      requires Shows(s) && tasks != [] && Aligned(currentTask.rsp)
      modifies this`regs, this`rip, this`cs, this`rflags, this`rsp, this`ss
      ensures s.ready != [] && s.ready[0] in s.saved && Shows(TaskRuns.FirstSwitch(s, old(regs)))
    {
      hide Valid, Distinct, Complete, Resume, Aligned, Ids;
      FirstShown(s);
      rsp := currentTask.rsp;
      LeaveStub();
    }

    /** `init_process` */
    method InitProcess(proc: Task, func: nat)
      modifies this`mem, proc
      ensures mem == InitStack(old(mem), proc.stack, func)
      ensures proc.rip == func && proc.rsp == 8 * (proc.stack + 45) && proc.nextTask == old(proc.nextTask)
      ensures Suspended(mem, proc.rsp, FreshCpu(old(mem), proc.stack, func))
      ensures FreshCpu(old(mem), proc.stack, func).rip == func
      ensures Word(mem, proc.stack + 59) == func && Word(mem, proc.stack + 60) == 0x08
      ensures Word(mem, proc.stack + 61) == 0x20202 && Word(mem, proc.stack + 62) == 8 * (proc.stack + 63)
      ensures Word(mem, proc.stack + 63) == 0x10
      ensures forall a: nat | a < proc.stack + 59 || proc.stack + 64 <= a :: Word(mem, a) == old(Word(mem, a))
    {
      FreshIsSuspended(mem, proc.stack, func);
      FreshFrame(mem, proc.stack, func);
      OutsideFrame(mem, proc.stack, func);
      hide Suspended, FreshCpu, Word;
      proc.rip := func;
      mem := mem[proc.stack + 63 := 0x10];
      mem := mem[proc.stack + 62 := 8 * (proc.stack + 63)];
      mem := mem[proc.stack + 61 := 0x20202];
      mem := mem[proc.stack + 60 := 0x08];
      mem := mem[proc.stack + 59 := func];
      proc.rsp := 8 * (proc.stack + 45);
    }

    /** `add_proc_to_task_list`: `base` is where kmalloc put the stack array of the new struct. */
    method AddProcToTaskList(base: nat, func: nat, ghost s: System) returns (task: Task)
      requires Shows(s) && base !in s.ready
      modifies this`mem, this`currentTask, this`tasks, tasks
      ensures fresh(task) && tasks == old(tasks) + [task] && Shows(Spawn(s, base, base, func))
    {
      hide Complete, InitStack, Ids, Suspended, FreshCpu, Word;
      ghost var ts := tasks;
      task := new Task(base);
      InitProcess(task, func);
      assert Chain(currentTask, ts);
      if currentTask == null {
        currentTask := task;
        currentTask.nextTask := null;
      } else {
        var temp := FindTail();
        temp.nextTask := task;
        task.nextTask := null;
      }
      tasks := ts + [task];
      assert Chain(currentTask, tasks);
      hide Chain, Distinct;
      IdsMore(ts, task);
      forall t | t in tasks ensures Shown(t, Spawn(s, base, base, func)) {
        if t != task {
          assert old(Shown(t, s));
          SpawnShown(t, s, base, func);
        }
      }
    }

    /** A new task on this machine is a new virtual processor; it is named by its stack. */
    method AddTask(base: nat, func: nat, ghost s: System, ghost v: Virtual) returns (task: Task)
      requires Shows(s) && Implements(s, v) && Allowed(s, NewTask(base, base, func))
      modifies this`mem, this`currentTask, this`tasks, tasks
      ensures fresh(task) && tasks == old(tasks) + [task]
      ensures Shows(Spawn(s, base, base, func))
      ensures Implements(Spawn(s, base, base, func), VirtualNext(s, v, NewTask(base, base, func)))
    {
      NewTaskRefines(s, v, base, base, func);
      assert base !in s.ready && Next(s, NewTask(base, base, func)) == Spawn(s, base, base, func);
      hide Implements, Spawn, VirtualNext, Next, Allowed;
      task := AddProcToTaskList(base, func, s);
    }

    /** `first_switch` on tasks that are all suspended starts the virtual processors. */
    method StartTasks(ghost s: System, ghost cpus: map<nat, Cpu>) returns (ghost v: Virtual)
      requires Shows(s) && tasks != [] && TaskRuns.AllSuspended(s, cpus)
      modifies this`regs, this`rip, this`cs, this`rflags, this`rsp, this`ss
      ensures s.ready != [] && s.ready[0] in s.saved
      ensures Shows(TaskRuns.FirstSwitch(s, old(regs))) && Implements(TaskRuns.FirstSwitch(s, old(regs)), v)
      ensures s.ready[0] in cpus && Cpu(regs, rip, cs, rflags, rsp, ss) == cpus[s.ready[0]]
    {
      FirstShown(s);
      assert SuspendedTask(s, s.ready[0], cpus[s.ready[0]]) && Aligned(currentTask.rsp);
      TaskRuns.FirstSwitchStarts(s, cpus, regs);
      v := Virtual(map t | t in cpus :: Vcpu(cpus[t], s.mem), s.ready);
      hide Implements, TaskRuns.AllSuspended, TaskRuns.FirstSwitch;
      FirstSwitch(s);
    }

    /** One event on this machine: work is any new state that leaves the other tasks' stacks alone. */
    method Step(e: Event, ghost s: System, ghost v: Virtual)
      requires Shows(s) && Implements(s, v) && Allowed(s, e) && (e.NewTask? ==> e.id == e.base)
      modifies this, tasks
      ensures Shows(Next(s, e)) && Implements(Next(s, e), VirtualNext(s, v, e))
      ensures forall i | 0 <= i < |tasks| :: tasks[i] in old(tasks) || fresh(tasks[i])
    {
      hide Implements, Switch, Spawn, VirtualNext, Distinct, Ids, Complete;
      TaskRuns.StepRefines(s, v, e);
      assert WellFormed(s) by { ImplementsWellFormed(s, v); }
      match e {
        case Run(c, m) =>
          regs, rip, cs, rflags, rsp, ss, mem := c.regs, c.rip, c.cs, c.rflags, c.rsp, c.ss, m;
        case Interrupt(scratch) =>
          ghost var ts := tasks;
          TakeInterrupt(scratch, s, v);
          RotatedMembers(ts);
        case NewTask(id, base, func) =>
          var task := AddTask(base, func, s, v);
      }
    }

    /** A whole run on this machine. */
    method Execute(es: seq<Event>, ghost s: System, ghost v: Virtual)
      requires Shows(s) && Implements(s, v) && TaskRuns.AllAllowed(s, es)
      requires forall e | e in es && e.NewTask? :: e.id == e.base
      modifies this, tasks
      ensures Shows(TaskRuns.After(s, es)) && Implements(TaskRuns.After(s, es), TaskRuns.VirtualAfter(s, v, es))
      decreases |es|
    {
      hide Implements, Shows, Next, VirtualNext, Allowed, WellFormed, TaskRuns.After, TaskRuns.VirtualAfter,
           TaskRuns.AllAllowed;
      ImplementsWellFormed(s, v);
      if es == [] {
        TaskRuns.RunOfNone(s, v);
      } else {
        TaskRuns.RunOfMore(s, v, es);
        assert es[0] in es && forall e | e in es[1..] :: e in es;
        Step(es[0], s, v);
        Execute(es[1..], Next(s, es[0]), VirtualNext(s, v, es[0]));
      }
    }

    /** The calls of `add_proc_to_task_list` that fill the empty list. */
    method AddAll(starts: seq<TaskRuns.Start>, ghost s: System)
      requires Shows(s) && s.ready == [] && TaskRuns.OwnStructs(starts) && forall x | x in starts :: x.id == x.base
      modifies this`mem, this`currentTask, this`tasks
      ensures Shows(TaskRuns.AddAll(s, starts)) && |tasks| == |starts|
      ensures forall i | 0 <= i < |tasks| :: fresh(tasks[i])
    {
      hide TaskRuns.OwnStructs, TaskRuns.AddAll, Spawn;
      NothingListed(s);
      assert starts[..0] == [];
      TaskRuns.AddNone(s);
      var i := 0;
      while i < |starts|
        invariant 0 <= i <= |starts| && Shows(TaskRuns.AddAll(s, starts[..i])) && |tasks| == i
        invariant forall j | 0 <= j < |tasks| :: fresh(tasks[j])
      {
        assert starts[i] in starts;
        TaskRuns.AddOneMore(s, starts, i);
        var task := AddProcToTaskList(starts[i].base, starts[i].func, TaskRuns.AddAll(s, starts[..i]));
        i := i + 1;
      }
      assert starts[..i] == starts;
    }

    lemma NothingListed(s: System)
      requires Shows(s) && s.ready == []
      ensures tasks == []
    {
      assert |Ids(tasks)| == 0;
    }

    /** `setup_processes`: from an empty list to the first task's function. */
    method SetupProcesses(starts: seq<TaskRuns.Start>, ghost s: System) returns (ghost v: Virtual)
      requires Shows(s) && s.ready == [] && TaskRuns.OwnStructs(starts) && forall x | x in starts :: x.id == x.base
      requires starts != []
      modifies this
      ensures Shows(TaskRuns.Begin(s, starts, old(regs))) && Implements(TaskRuns.Begin(s, starts, old(regs)), v)
      ensures rip == starts[0].func && forall i | 0 <= i < |tasks| :: fresh(tasks[i])
    {
      hide TaskRuns.OwnStructs, TaskRuns.AddAll, TaskRuns.AllSuspended, TaskRuns.FirstSwitch, Implements, Shows;
      TaskRuns.FirstAdded(s, starts, regs);
      ghost var cpus := TaskRuns.FirstSuspended(s, starts);
      AddAll(starts, s);
      assert tasks != [];
      v := StartTasks(TaskRuns.AddAll(s, starts), cpus);
    }

    /** This machine from an empty list on: tasks are added, the first one is started, and any allowed run
        then implements one virtual processor a task. */
    method RunFromSetup(starts: seq<TaskRuns.Start>, es: seq<Event>, ghost s: System) returns (ghost v: Virtual)
      requires Shows(s) && s.ready == [] && TaskRuns.OwnStructs(starts) && forall x | x in starts :: x.id == x.base
      requires starts != [] && TaskRuns.AllAllowed(TaskRuns.Begin(s, starts, regs), es)
      requires forall e | e in es && e.NewTask? :: e.id == e.base
      modifies this
      ensures var c := TaskRuns.Begin(s, starts, old(regs));
              && Implements(c, v) && Shows(TaskRuns.After(c, es))
              && Implements(TaskRuns.After(c, es), TaskRuns.VirtualAfter(c, v, es))
    {
      hide TaskRuns.OwnStructs, TaskRuns.Begin, TaskRuns.After, TaskRuns.VirtualAfter, TaskRuns.AllAllowed, Implements,
           Shows;
      ghost var c := TaskRuns.Begin(s, starts, regs);
      v := SetupProcesses(starts, s);
      Execute(es, c, v);
    }

    lemma FirstShown(s: System)
      requires Shows(s) && tasks != []
      ensures s.ready == Ids(tasks) && s.ready != [] && s.ready[0] in s.saved
      ensures currentTask == tasks[0] && s.saved[s.ready[0]] == currentTask.rsp
    {
      hide Distinct, Complete;
      assert Shown(tasks[0], s);
    }
  }

  lemma SwitchParts(s: System, scratch: Regs)
    requires WellFormed(s) && AlignedTop(s.cpu.rsp) >= FRAME
    ensures Aligned(SavedRsp(s.cpu)) && SavedRsp(s.cpu) >= 8
    ensures var s' := Switch(s, scratch);
            && s'.mem == Suspend(s.mem, s.cpu) && s'.stack == s.stack && s'.ready == RotateLeft(s.ready)
            && s'.saved == s.saved[s.ready[0] := SavedRsp(s.cpu)] && s'.ready != [] && s'.ready[0] in s'.saved
            && s'.cpu == Resume(s'.mem, s'.saved[s'.ready[0]], scratch)
  {
    hide Suspend, Resume, Distinct, Apart, RotateLeft, AlignedTop, Aligned;
    assert Aligned(SavedRsp(s.cpu)) && SavedRsp(s.cpu) >= 8 by { EightTimes(AlignedTop(s.cpu.rsp) - 19); }
    hide SavedRsp;
    RotateKeeps(s.ready);
    RotatedMembers(s.ready);
    assert RotateLeft(s.ready)[0] in s.ready;
  }

  lemma IdsMore(s: seq<Task>, t: Task)
    ensures Ids(s + [t]) == Ids(s) + [t.stack] && |Ids(s)| == |s| && forall x | x in s :: x.stack in Ids(s)
  {
    forall x | x in s ensures x.stack in Ids(s) {
      var i :| 0 <= i < |s| && s[i] == x;
      assert Ids(s)[i] == x.stack;
    }
  }

  lemma SpawnShown(t: Task, s: System, base: nat, func: nat)
    requires Shown(t, s) && t.stack != base
    ensures Shown(t, Spawn(s, base, base, func))
  {
    hide InitStack;
  }

  /** A suspended frame is at a word, so a machine that implements virtual processors can switch. */
  lemma FramesAligned(s: System, v: Virtual)
    requires Implements(s, v)
    ensures WellFormed(s) && forall t | t in s.ready && t != s.ready[0] :: Aligned(s.saved[t])
  {
  }

  lemma ImplementsWellFormed(s: System, v: Virtual)
    requires Implements(s, v)
    ensures WellFormed(s)
  {
  }

  lemma OneId(s: seq<Task>)
    requires Distinct(Ids(s)) && s != []
    ensures forall t | t in s && t != s[0] :: t.stack != s[0].stack
  {
    forall t | t in s && t != s[0] ensures t.stack != s[0].stack {
      var i :| 0 <= i < |s| && s[i] == t;
      assert Ids(s)[i] == t.stack && Ids(s)[0] == s[0].stack;
    }
  }

  lemma FirstOf(s: seq<Task>)
    ensures |Ids(s)| == |s|
  {
  }

  lemma RotatedIds(s: seq<Task>)
    requires s != []
    ensures Ids(RotateLeft(s)) == RotateLeft(Ids(s)) && Ids(s)[0] == s[0].stack
    ensures Ids(RotateLeft(s)) != [] && RotateLeft(s) != [] && Ids(RotateLeft(s))[0] == RotateLeft(s)[0].stack
  {
  }

  lemma {:induction false} PushOneMore(mem: Mem, w: nat, regs: Regs, done: seq<Reg>, r: Reg)
    requires |done| < w
    ensures PushAll(mem, w, regs, done + [r]) == PushAll(mem, w, regs, done)[w - |done| - 1 := regs[r]]
    decreases |done|
  {
    if done == [] {
      assert [r][1..] == [];
    } else {
      assert (done + [r])[1..] == done[1..] + [r];
      PushOneMore(mem[w - 1 := regs[done[0]]], w - 1, regs, done[1..], r);
    }
  }

  lemma {:induction false} PopOneMore(mem: Mem, w: nat, regs: Regs, done: seq<Reg>, r: Reg)
    ensures PopAll(mem, w, regs, done + [r]) == PopAll(mem, w, regs, done)[r := Word(mem, w + |done|)]
    decreases |done|
  {
    if done == [] {
      assert [r][1..] == [];
    } else {
      assert (done + [r])[1..] == done[1..] + [r];
      PopOneMore(mem, w + 1, regs[done[0] := Word(mem, w)], done[1..], r);
    }
  }
}
