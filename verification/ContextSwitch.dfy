/** The save/restore protocol of `int $0x80`: sys/isr.s around `schedule` of sys/process.c. */
module ContextSwitch {
  import opened Sequences

  // ----- Registers, memory, stacks -----

  /** The registers that the stub saves. rbp is not among them. */
  datatype Reg = RAX | RBX | RCX | RDX | RSI | RDI | R8 | R9 | R10 | R11 | R12 | R13 | R14 | R15

  predicate Complete(r: map<Reg, nat>) {
    forall x: Reg :: x in r
  }

  type Regs = r: map<Reg, nat> | Complete(r)
    witness map x: Reg | true :: 0

  /** The order of the pushq instructions of the stub, and of its popq instructions. */
  const SAVE_ORDER: seq<Reg> := [RAX, RBX, RCX, RDX, RSI, RDI, R8, R9, R10, R11, R12, R13, R14, R15]
  const RESTORE_ORDER: seq<Reg> := [R15, R14, R13, R12, R11, R10, R9, R8, RDI, RSI, RDX, RCX, RBX, RAX]

  /** Memory by 8-byte words: the word at byte address 8 * a has index a. */
  type Mem = map<nat, nat>

  function Word(mem: Mem, a: nat): nat {
    if a in mem then mem[a] else 0
  }

  datatype Cpu = Cpu(regs: Regs, rip: nat, cs: nat, rflags: nat, rsp: nat, ss: nat)

  /** Pushes registers in order; w is the stack pointer as a word index. */
  function PushAll(mem: Mem, w: nat, regs: Regs, order: seq<Reg>): Mem
    requires |order| <= w
    decreases |order|
  {
    if order == [] then mem
    else PushAll(mem[w - 1 := regs[order[0]]], w - 1, regs, order[1..])
  }

  lemma {:induction false} PushAllMeaning(mem: Mem, w: nat, regs: Regs, order: seq<Reg>, a: nat)
    requires |order| <= w
    ensures Word(PushAll(mem, w, regs, order), a) ==
            if w - |order| <= a < w then regs[order[w - 1 - a]] else Word(mem, a)
    decreases |order|
  {
    if order != [] {
      PushAllMeaning(mem[w - 1 := regs[order[0]]], w - 1, regs, order[1..], a);
    }
  }

  function PopAll(mem: Mem, w: nat, regs: Regs, order: seq<Reg>): Regs
    decreases |order|
  {
    if order == [] then regs
    else PopAll(mem, w + 1, regs[order[0] := Word(mem, w)], order[1..])
  }

  lemma {:induction false} PopAllMeaning(mem: Mem, w: nat, regs: Regs, order: seq<Reg>, r: Reg)
    requires Distinct(order)
    ensures r !in order ==> PopAll(mem, w, regs, order)[r] == regs[r]
    ensures forall i | 0 <= i < |order| && order[i] == r :: PopAll(mem, w, regs, order)[r] == Word(mem, w + i)
    decreases |order|
  {
    if order != [] {
      var rest := order[1..];
      assert order == [order[0]] + rest && Distinct(rest) && order[0] !in rest;
      PopAllMeaning(mem, w + 1, regs[order[0] := Word(mem, w)], rest, r);
      hide Distinct;
      forall i | 0 <= i < |order| && order[i] == r ensures PopAll(mem, w, regs, order)[r] == Word(mem, w + i) {
        if i > 0 { assert rest[i - 1] == r && r != order[0]; }
      }
    }
  }

  lemma OrdersMatch()
    ensures |SAVE_ORDER| == |RESTORE_ORDER| == 14 && Distinct(RESTORE_ORDER)
    ensures forall i | 0 <= i < 14 :: RESTORE_ORDER[i] == SAVE_ORDER[13 - i]
    ensures forall r: Reg :: r in RESTORE_ORDER
  {
    forall r: Reg ensures r in RESTORE_ORDER {
      match r
      case RAX => assert RESTORE_ORDER[13] == r;
      case RBX => assert RESTORE_ORDER[12] == r;
      case RCX => assert RESTORE_ORDER[11] == r;
      case RDX => assert RESTORE_ORDER[10] == r;
      case RSI => assert RESTORE_ORDER[9] == r;
      case RDI => assert RESTORE_ORDER[8] == r;
      case R8 => assert RESTORE_ORDER[7] == r;
      case R9 => assert RESTORE_ORDER[6] == r;
      case R10 => assert RESTORE_ORDER[5] == r;
      case R11 => assert RESTORE_ORDER[4] == r;
      case R12 => assert RESTORE_ORDER[3] == r;
      case R13 => assert RESTORE_ORDER[2] == r;
      case R14 => assert RESTORE_ORDER[1] == r;
      case R15 => assert RESTORE_ORDER[0] == r;
    }
  }

  // ----- Suspending and resuming a task -----

  /** What `callq schedule` pushes, and `schedule` pops into rax: the address of the instruction behind
      the call. The linker chooses it and nothing depends on its value, so it is the number of the
      line of the call in sys/isr.s. */
  const STUB_RETURN: nat := 76

  /** The word index of rsp, aligned down to 16 bytes as the processor does on an interrupt. */
  function AlignedTop(rsp: nat): nat {
    rsp / 16 * 2
  }

  /** The words below its aligned top that an interrupted task's stack receives: the interrupt
      frame, fourteen registers, and the return address of `callq schedule`. */
  const FRAME: nat := 20

  /** `int $0x80`: ss, rsp, rflags, cs and rip of the task. */
  function PushFrame(mem: Mem, c: Cpu): Mem
    requires AlignedTop(c.rsp) >= FRAME
  {
    var w := AlignedTop(c.rsp);
    mem[w - 1 := c.ss][w - 2 := c.rsp][w - 3 := c.rflags][w - 4 := c.cs][w - 5 := c.rip]
  }

  /** Memory when `schedule` stores rsp: the frame, the registers, and the popped return address. */
  function Suspend(mem: Mem, c: Cpu): Mem
    requires AlignedTop(c.rsp) >= FRAME
  {
    var w := AlignedTop(c.rsp);
    PushAll(PushFrame(mem, c), w - 5, c.regs, SAVE_ORDER)[w - 20 := STUB_RETURN]
  }

  /** The rsp that `schedule` stores. */
  function SavedRsp(c: Cpu): nat
    requires AlignedTop(c.rsp) >= FRAME
  {
    8 * (AlignedTop(c.rsp) - 19)
  }

  /** The pops of the stub and `iretq`, from stack pointer sp on. `scratch` is what the registers
      hold when `schedule` jumps back. */
  function Resume(mem: Mem, sp: nat, scratch: Regs): Cpu {
    var w := sp / 8;
    Cpu(PopAll(mem, w, scratch, RESTORE_ORDER), Word(mem, w + 14), Word(mem, w + 15), Word(mem, w + 16),
        Word(mem, w + 17), Word(mem, w + 18))
  }

  /** The nineteen words at sp are a suspended task with registers c. */
  predicate Suspended(mem: Mem, sp: nat, c: Cpu) {
    SuspendedIn(mem, sp, c, RESTORE_ORDER)
  }

  predicate SuspendedIn(mem: Mem, sp: nat, c: Cpu, order: seq<Reg>)
    requires |order| == 14
  {
    var w := sp / 8;
    && sp % 8 == 0
    && (forall i | 0 <= i < 14 :: Word(mem, w + i) == c.regs[order[i]])
    && Word(mem, w + 14) == c.rip && Word(mem, w + 15) == c.cs && Word(mem, w + 16) == c.rflags
    && Word(mem, w + 17) == c.rsp && Word(mem, w + 18) == c.ss
  }

  /** Switching out writes twenty words below the aligned top of the stack, which hold the task. */
  lemma SuspendMeaning(mem: Mem, c: Cpu)
    requires AlignedTop(c.rsp) >= FRAME
    ensures Suspended(Suspend(mem, c), SavedRsp(c), c)
    ensures forall a: nat | a < AlignedTop(c.rsp) - FRAME || AlignedTop(c.rsp) <= a ::
              Word(Suspend(mem, c), a) == Word(mem, a)
  {
    hide PushAll, PushFrame, Distinct;
    OrdersMatch();
    var w := AlignedTop(c.rsp);
    assert SavedRsp(c) / 8 == w - 19 && SavedRsp(c) % 8 == 0;
    var m1 := PushFrame(mem, c);
    var m2, m3 := PushAll(m1, w - 5, c.regs, SAVE_ORDER), Suspend(mem, c);
    PushedWords(m1, w - 5, c.regs, SAVE_ORDER, RESTORE_ORDER);
    forall a: nat | a < w - FRAME || w - 5 <= a ensures Word(m3, a) == Word(m1, a) {
      assert Word(m2, a) == Word(m1, a);
    }
    FrameWords(mem, c);
    forall a: nat | a < w - FRAME || w <= a ensures Word(m3, a) == Word(mem, a) {
      assert Word(m3, a) == Word(m1, a);
    }
    assert Word(m3, w - 5) == c.rip && Word(m3, w - 4) == c.cs && Word(m3, w - 3) == c.rflags
           && Word(m3, w - 2) == c.rsp && Word(m3, w - 1) == c.ss;
    forall i | 0 <= i < 14 ensures Word(m3, w - 19 + i) == c.regs[RESTORE_ORDER[i]] {
      assert Word(m2, w - 5 - 14 + i) == c.regs[RESTORE_ORDER[i]];
    }
  }

  /** Word by word: where a switch puts what, below the stack pointer aligned to 16 bytes. */
  lemma FrameLayout(mem: Mem, c: Cpu)
    requires AlignedTop(c.rsp) >= 20
    ensures var m, w := Suspend(mem, c), c.rsp / 16 * 2;
            && Word(m, w - 1) == c.ss && Word(m, w - 2) == c.rsp && Word(m, w - 3) == c.rflags
            && Word(m, w - 4) == c.cs && Word(m, w - 5) == c.rip && Word(m, w - 6) == c.regs[RAX]
            && Word(m, w - 7) == c.regs[RBX] && Word(m, w - 8) == c.regs[RCX] && Word(m, w - 9) == c.regs[RDX]
            && Word(m, w - 10) == c.regs[RSI] && Word(m, w - 11) == c.regs[RDI] && Word(m, w - 12) == c.regs[R8]
            && Word(m, w - 13) == c.regs[R9] && Word(m, w - 14) == c.regs[R10] && Word(m, w - 15) == c.regs[R11]
            && Word(m, w - 16) == c.regs[R12] && Word(m, w - 17) == c.regs[R13] && Word(m, w - 18) == c.regs[R14]
            && Word(m, w - 19) == c.regs[R15]
            && SavedRsp(c) == 8 * (w - 19)
  {
    hide PushAll, PushFrame, Distinct, Suspend;
    SuspendMeaning(mem, c);
    LayoutOf(Suspend(mem, c), SavedRsp(c), c, RESTORE_ORDER);
  }

  /** The places of the words at the stack pointer sp. */
  lemma LayoutOf(mem: Mem, sp: nat, c: Cpu, order: seq<Reg>)
    requires order == RESTORE_ORDER && SuspendedIn(mem, sp, c, order)
    ensures var w := sp / 8;
            && c.regs[R15] == Word(mem, w + 0) && c.regs[R14] == Word(mem, w + 1) && c.regs[R13] == Word(mem, w + 2)
            && c.regs[R12] == Word(mem, w + 3) && c.regs[R11] == Word(mem, w + 4) && c.regs[R10] == Word(mem, w + 5)
            && c.regs[R9] == Word(mem, w + 6) && c.regs[R8] == Word(mem, w + 7) && c.regs[RDI] == Word(mem, w + 8)
            && c.regs[RSI] == Word(mem, w + 9) && c.regs[RDX] == Word(mem, w + 10) && c.regs[RCX] == Word(mem, w + 11)
            && c.regs[RBX] == Word(mem, w + 12) && c.regs[RAX] == Word(mem, w + 13) && c.rip == Word(mem, w + 14)
            && c.cs == Word(mem, w + 15) && c.rflags == Word(mem, w + 16) && c.rsp == Word(mem, w + 17)
            && c.ss == Word(mem, w + 18)
  {
    assert order[0] == R15;
    assert order[1] == R14;
    assert order[2] == R13;
    assert order[3] == R12;
    assert order[4] == R11;
    assert order[5] == R10;
    assert order[6] == R9;
    assert order[7] == R8;
    assert order[8] == RDI;
    assert order[9] == RSI;
    assert order[10] == RDX;
    assert order[11] == RCX;
    assert order[12] == RBX;
    assert order[13] == RAX;
  }

  /** Word by word: from where the stub and `iretq` take what. */
  lemma RestoreLayout(mem: Mem, sp: nat, scratch: Regs)
    requires sp % 8 == 0
    ensures var c, w := Resume(mem, sp, scratch), sp / 8;
            && c.regs[R15] == Word(mem, w + 0) && c.regs[R14] == Word(mem, w + 1) && c.regs[R13] == Word(mem, w + 2)
            && c.regs[R12] == Word(mem, w + 3) && c.regs[R11] == Word(mem, w + 4) && c.regs[R10] == Word(mem, w + 5)
            && c.regs[R9] == Word(mem, w + 6) && c.regs[R8] == Word(mem, w + 7) && c.regs[RDI] == Word(mem, w + 8)
            && c.regs[RSI] == Word(mem, w + 9) && c.regs[RDX] == Word(mem, w + 10) && c.regs[RCX] == Word(mem, w + 11)
            && c.regs[RBX] == Word(mem, w + 12) && c.regs[RAX] == Word(mem, w + 13) && c.rip == Word(mem, w + 14)
            && c.cs == Word(mem, w + 15) && c.rflags == Word(mem, w + 16) && c.rsp == Word(mem, w + 17)
            && c.ss == Word(mem, w + 18)
  {
    hide PopAll, Distinct;
    OrdersMatch();
    var c := Resume(mem, sp, scratch);
    PoppedWords(mem, sp / 8, scratch, RESTORE_ORDER);
    LayoutOf(mem, sp, c, RESTORE_ORDER);
  }

  lemma PoppedWords(mem: Mem, w: nat, scratch: Regs, order: seq<Reg>)
    requires Distinct(order)
    ensures forall i | 0 <= i < |order| :: Word(mem, w + i) == PopAll(mem, w, scratch, order)[order[i]]
  {
    hide Distinct;
    forall i | 0 <= i < |order| ensures Word(mem, w + i) == PopAll(mem, w, scratch, order)[order[i]] {
      PopAllMeaning(mem, w, scratch, order, order[i]);
    }
  }

  lemma FrameWords(mem: Mem, c: Cpu)
    requires AlignedTop(c.rsp) >= FRAME
    ensures var w, m := AlignedTop(c.rsp), PushFrame(mem, c);
            && Word(m, w - 5) == c.rip && Word(m, w - 4) == c.cs && Word(m, w - 3) == c.rflags
            && Word(m, w - 2) == c.rsp && Word(m, w - 1) == c.ss
            && (forall a: nat | a < w - 5 || w <= a :: Word(m, a) == Word(mem, a))
  {
  }

  /** Registers pushed in one order lie in memory in the reverse order. */
  lemma PushedWords(mem: Mem, w: nat, regs: Regs, save: seq<Reg>, restore: seq<Reg>)
    requires |save| == |restore| == 14 <= w && forall i | 0 <= i < 14 :: restore[i] == save[13 - i]
    ensures var m := PushAll(mem, w, regs, save);
            && (forall i | 0 <= i < 14 :: Word(m, w - 14 + i) == regs[restore[i]])
            && (forall a: nat | a < w - 14 || w <= a :: Word(m, a) == Word(mem, a))
  {
    forall a: nat
      ensures Word(PushAll(mem, w, regs, save), a) ==
              (if w - 14 <= a < w then regs[save[w - 1 - a]] else Word(mem, a))
    {
      PushAllMeaning(mem, w, regs, save, a);
    }
  }

  /** Resuming a suspended task restores its fourteen registers, rip, cs, rflags, rsp and ss,
      whatever the registers held before. */
  lemma ResumeMeaning(mem: Mem, sp: nat, c: Cpu, scratch: Regs)
    requires Suspended(mem, sp, c)
    ensures Resume(mem, sp, scratch) == c
  {
    hide Complete, Distinct, PopAll, SuspendedIn, Word;
    OrdersMatch();
    ResumeIn(mem, sp, c, scratch, RESTORE_ORDER);
  }

  lemma ResumeIn(mem: Mem, sp: nat, c: Cpu, scratch: Regs, order: seq<Reg>)
    requires |order| == 14 && Distinct(order) && (forall r: Reg :: r in order) && SuspendedIn(mem, sp, c, order)
    ensures var w := sp / 8;
            Cpu(PopAll(mem, w, scratch, order), Word(mem, w + 14), Word(mem, w + 15), Word(mem, w + 16),
                Word(mem, w + 17), Word(mem, w + 18)) == c
  {
    hide Complete, Distinct;
    PoppedRegs(mem, sp / 8, scratch, order, c.regs);
  }

  lemma PoppedRegs(mem: Mem, w: nat, scratch: Regs, restore: seq<Reg>, regs: Regs)
    requires Distinct(restore) && forall r: Reg :: r in restore
    requires forall i | 0 <= i < |restore| :: Word(mem, w + i) == regs[restore[i]]
    ensures PopAll(mem, w, scratch, restore) == regs
  {
    forall r: Reg ensures PopAll(mem, w, scratch, restore)[r] == regs[r] {
      PopAllMeaning(mem, w, scratch, restore, r);
      assert r in restore;
      var i :| 0 <= i < |restore| && restore[i] == r;
      assert Word(mem, w + i) == regs[restore[i]];
    }
  }
}
