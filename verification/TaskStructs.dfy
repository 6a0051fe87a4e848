/** Task structs from the kernel heap: `kmalloc(sizeof(struct task_struct))` of sys/process.c. */
module TaskStructs {
  import opened Bits
  import opened Paging
  import opened Heap
  import opened HeapRuns
  import opened ContextSwitch
  import opened Tasks
  import TaskRuns

  /** sizeof(struct task_struct): ten words and the stack; three words come before the stack. */
  const TASK_SIZE: nat := 8 * (10 + STACK_WORDS)
  const STACK_OFFSET: nat := 24

  /** The word index of the stack array in the struct at virtual address `base`. */
  function StackOf(base: nat): nat {
    (base + STACK_OFFSET) / 8
  }

  /** The stack array lies inside the struct, and the arrays of different structs are apart. */
  lemma StacksApart(h: State, calls: seq<Call>, i: nat, j: nat)
    requires CanRun(h, calls) && h.Room() && i < j < |calls|
    requires calls[i] == Call.Kmalloc(TASK_SIZE) && calls[j] == Call.Kmalloc(TASK_SIZE)
    ensures var a, b := Base(h, calls, i), Base(h, calls, j);
            && Apart(StackOf(a), StackOf(b)) && StackOf(a) != StackOf(b)
            && a <= 8 * StackOf(a) && 8 * (StackOf(a) + STACK_WORDS) <= a + TASK_SIZE
            && 8 * StackOf(a) == a + 24 && 8 * (StackOf(a) + 4096) + 56 == a + TASK_SIZE && TASK_SIZE == 32848
  {
    hide State.Room, Base, Before, CanRun;
    BaseIs(h, calls, i);
    BaseIs(h, calls, j);
    CallsInOrder(h, calls, i, j);
    StackPlace(Before(h, calls, i).top);
    StackPlace(Before(h, calls, j).top);
  }

  /** In a struct at the start of a page: three words, the stack array, and seven words. */
  lemma StackPlace(top: nat)
    ensures var a := VIRT_OFFSET + top * PAGE_SIZE; 8 * StackOf(a) == a + 24
  {
    DivModUnique(VIRT_OFFSET + top * PAGE_SIZE + 24, 8, VIRT_OFFSET / 8 + top * 512 + 3, 0);
  }

  /** Some calls of a run are those of `add_proc_to_task_list`, in order. */
  predicate AreTaskCalls(calls: seq<Call>, at: seq<nat>) {
    && (forall x | 0 <= x < |at| :: at[x] < |calls| && calls[at[x]] == Call.Kmalloc(TASK_SIZE))
    && (forall x, y | 0 <= x < y < |at| :: at[x] < at[y])
  }

  /** The tasks they are for; a task is named by its stack. */
  function StartsOf(h: State, calls: seq<Call>, at: seq<nat>, funcs: seq<nat>): (starts: seq<TaskRuns.Start>)
    requires CanRun(h, calls) && AreTaskCalls(calls, at) && |funcs| == |at|
    ensures |starts| == |at|
  {
    seq(|at|, x requires 0 <= x < |at| =>
      TaskRuns.Start(StackOf(Base(h, calls, at[x])), StackOf(Base(h, calls, at[x])), funcs[x]))
  }

  lemma StartsAreOwn(h: State, calls: seq<Call>, at: seq<nat>, funcs: seq<nat>)
    requires CanRun(h, calls) && h.Room() && AreTaskCalls(calls, at) && |funcs| == |at|
    ensures TaskRuns.OwnStructs(StartsOf(h, calls, at, funcs))
  {
    hide State.Room, Base, CanRun, StackOf, Apart;
    var starts := StartsOf(h, calls, at, funcs);
    forall x, y | 0 <= x < y < |starts|
      ensures starts[x].id != starts[y].id && Apart(starts[x].base, starts[y].base)
    {
      StacksApart(h, calls, at[x], at[y]);
    }
  }

  /** Tasks whose structs come from `kmalloc`, among any other calls of the heap, run as virtual processors. */
  lemma HeapTasksRefine(s: System, h: State, calls: seq<Call>, at: seq<nat>, funcs: seq<nat>, scratch: Regs)
    returns (v: Virtual)
    requires CanRun(h, calls) && h.Room() && AreTaskCalls(calls, at) && |funcs| == |at| > 0
    requires s.ready == []
    ensures var starts := StartsOf(h, calls, at, funcs);
            && TaskRuns.OwnStructs(starts) && starts != []
            && var c := TaskRuns.Begin(s, starts, scratch);
            && c.cpu.rip == funcs[0] && Implements(c, v)
            && forall es: seq<Event> | TaskRuns.AllAllowed(c, es) ::
                 Implements(TaskRuns.After(c, es), TaskRuns.VirtualAfter(c, v, es))
  {
    StartsAreOwn(h, calls, at, funcs);
    var starts := StartsOf(h, calls, at, funcs);
    assert starts != [] && starts[0].func == funcs[0];
    hide StartsOf, TaskRuns.OwnStructs, Implements, TaskRuns.AllAllowed, TaskRuns.Begin;
    v := TaskRuns.RunsFromSetup(s, starts, scratch);
  }
}
