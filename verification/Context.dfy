/** entry.S and the register side of trap.c, syscall.c and proc.c: saving,
    switching and restoring the registers of user programs. */
module TrapContext {
  import opened Bits
  import opened Defs
  import opened Sv39

  /** Code addresses that `ra` can hold when a task is switched to. */
  const DUMMY: Word := 1
  const RET_FROM_FORK: Word := 2
  const IN_SWITCH_TO: Word := 3

  const SP := 2
  const T0 := 5
  const A0 := 10
  const A7 := 17

  /** What a user program sees of the processor. */
  datatype Context = Context(x: seq<Word>, pc: Word, status: Word)

  /** All user programs, and the running one. */
  datatype Users = Users(contexts: seq<Context>, current: nat)

  type Saved = s: seq<Word> | |s| == 12 witness seq(12, _ => 0)

  type General = s: seq<Word> | |s| == 31 witness seq(31, _ => 0)

  /** `struct thread_struct` and `struct pt_regs`. */
  datatype Thread = Thread(ra: Word, sp: Word, s: Saved, sepc: Word, sstatus: Word, sscratch: Word)

  datatype PtRegs = PtRegs(regs: General, sepc: Word, sstatus: Word)

  /** Which C calls lie on a suspended task's kernel stack. */
  datatype Path = FromTimer | FromFork

  /** 64-bit addition of a constant. */
  function Plus(a: Word, d: int): Word { Wrap((a as int) + d) }

  /** A task's page: `struct task_struct` below, its kernel stack, with the trap
      frame at the top, above. */
  class TaskPage {
    const base: Word
    var pid: Word
    var thread: Thread
    var regs: PtRegs
    var path: Path

    constructor (base: Word)
      ensures this.base == base
    {
      this.base := base;
      pid := 0;
      thread := Thread(0, 0, seq(12, _ => 0), 0, 0, 0);
      regs := PtRegs(seq(31, _ => 0), 0, 0);
      path := FromTimer;
    }

    /** The initial kernel stack pointer, and the trap frame below it. */
    function Top(): Word { Plus(base, 0xfff) }

    function Frame(): Word { Plus(base, 0xfff - 264) }
  }

  /** The slot of the trap frame for register k. */
  function SavedSlot(r: PtRegs, k: int): Word
    requires 1 <= k < 32
  { r.regs[k - 1] }

  /** The trap frame of p returns to context c. */
  ghost predicate FrameShows(p: TaskPage, c: Context)
    reads p`regs
  {
    && |c.x| == 32 && c.x[0] == 0 && p.regs.regs[SP - 1] == p.Frame()
    && (forall k :: 1 <= k < 32 && k != SP && k != T0 ==> SavedSlot(p.regs, k) == c.x[k])
    && p.regs.sepc == c.pc && p.regs.sstatus == c.status
  }

  /** With the given C calls still to return, the task goes on in context c. */
  ghost predicate ReturnsTo(p: TaskPage, via: Path, c: Context)
    reads p`regs, p`pid
  {
    |c.x| == 32 && match via
    case FromTimer => FrameShows(p, c)
    case FromFork =>
      && c.x[A0] == p.pid && c.pc == Plus(p.regs.sepc, 4)
      && FrameShows(p, Context(c.x[A0 := p.regs.regs[A0 - 1]], p.regs.sepc, c.status))
  }

  /** The context after a trap: t0 holds the user's stack pointer. */
  function Trapped(c: Context): Context
    requires |c.x| == 32
  { c.(x := c.x[T0 := c.x[SP]]) }

  /** The context after a system call with the given result. */
  function Returned(c: Context, result: Word): Context
    requires |c.x| == 32
  { Context(c.x[T0 := c.x[SP]][A0 := result], Plus(c.pc, 4), c.status) }

  // ---- what each trap does to the user programs --------------------------------

  datatype Trap =
    | Fault
    | Ecall(result: Word)
    | OtherEcall
    | Timer(next: Option<nat>)
    | Fork(pid: Word)

  /** The state in which user mode is entered again. */
  function Served(u: Users, t: Trap): Users
    requires u.current < |u.contexts| && |u.contexts[u.current].x| == 32
  {
    var c := u.contexts[u.current];
    match t
    case Fault => Users(u.contexts[u.current := Trapped(c)], u.current)
    case Ecall(result) => Users(u.contexts[u.current := Returned(c, result)], u.current)
    case OtherEcall => Users(u.contexts[u.current := Trapped(c).(pc := Plus(c.pc, 4))], u.current)
    case Timer(next) => Users(u.contexts[u.current := Trapped(c)], if next.Some? then next.value else u.current)
    case Fork(pid) => Users(u.contexts[u.current := Returned(c, pid)] + [Returned(c, 0)], |u.contexts|)
  }

  const TIMER_INTR: Word := 0x8000_0000_0000_0005
  const ECALL_FROM_U_MODE: Word := 8
  const INST_PAGE_FAULT: Word := 12
  const LOAD_PAGE_FAULT: Word := 13
  const STORE_PAGE_FAULT: Word := 15
  const SYS_WRITE: Word := 64
  const SYS_GETPID: Word := 172
  const SYS_CLONE: Word := 220

  /** What `trap_handler` takes the trap for; page faults and all causes it does
      not know change no register. */
  function Dispatched(scause: Word, id: Word, pid: Word, next: Option<nat>, written: Word): Trap {
    if scause == TIMER_INTR then Timer(next)
    else if scause == ECALL_FROM_U_MODE then
      if id == SYS_GETPID then Ecall(pid) else if id == SYS_WRITE then Ecall(written)
      else if id == SYS_CLONE then Fork(pid) else OtherEcall
    else Trap.Fault
  }

  // ---- what survives a trap ------------------------------------------------------

  ghost predicate Proper(u: Users) { u.current < |u.contexts| && forall c <- u.contexts :: |c.x| == 32 }

  /** Registers that keep their value over the trap: all but x5 (t0), and but x10
      (a0) if it gets a result. */
  predicate Kept(t: Trap, k: nat) { 0 <= k < 32 && k != 5 && (k == 10 ==> !t.Ecall? && !t.Fork?) }

  function PcAfter(t: Trap, pc: Word): Word {
    if t.Ecall? || t.OtherEcall? || t.Fork? then (pc + 4) % 0x1_0000_0000_0000_0000 else pc
  }

  /** The trapping program keeps its registers, t0 and a result in a0 aside, and
      nothing happens to the others. A child starts with the parent's registers
      and a0 = 0. */
  lemma ServedKeeps(u: Users, t: Trap)
    requires Proper(u) && (t.Timer? && t.next.Some? ==> t.next.value < |u.contexts|)
    ensures var v := Served(u, t); var c, d := u.contexts[u.current], v.contexts[u.current];
            && Proper(v) && |u.contexts| <= |v.contexts|
            && (forall k: nat :: Kept(t, k) ==> d.x[k] == c.x[k]) && d.x[SP] == c.x[SP]
            && d.pc == PcAfter(t, c.pc) && d.status == c.status
            && (t.Ecall? ==> d.x[A0] == t.result) && (t.Fork? ==> d.x[A0] == t.pid)
            && (forall j :: 0 <= j < |u.contexts| && j != u.current ==> v.contexts[j] == u.contexts[j])
            && (t.Fork? ==> && v.current == |u.contexts| == |v.contexts| - 1 && v.contexts[v.current].x[A0] == 0
                            && v.contexts[v.current].pc == Plus(c.pc, 4)
                            && forall k: nat :: Kept(t, k) ==> v.contexts[v.current].x[k] == c.x[k])
  {}

  /** The answers by number. scause 8 is an ecall, its number is in x17 (a7), its
      result in x10 (a0): 172 gets the pid, 64 what write returned, 220 forks, and
      every other number gets none; all go on behind the ecall. The timer is
      interrupt 5; no other cause changes a0 or pc. t0 (x5) ends up as sp (x2). */
  ghost predicate Answered(c: Context, u: Users, v: Users, scause: Word, pid: Word, next: Option<nat>, written: Word) {
    && u.current < |u.contexts| <= |v.contexts| && v.current < |v.contexts|
    && var d := v.contexts[u.current];
       && |c.x| == |d.x| == 32 && d.status == c.status
       && (forall k :: 0 <= k < 32 && k != 5 && k != 10 ==> d.x[k] == c.x[k]) && d.x[5] == c.x[2]
       && d.x[10] == (if scause == 8 && (c.x[17] == 172 || c.x[17] == 220) then pid
                      else if scause == 8 && c.x[17] == 64 then written else c.x[10])
       && d.pc == (if scause == 8 then (c.pc + 4) % 0x1_0000_0000_0000_0000 else c.pc)
       && (forall j :: 0 <= j < |u.contexts| && j != u.current ==> v.contexts[j] == u.contexts[j])
       && if scause == 8 && c.x[17] == 220 then
            && |v.contexts| == |u.contexts| + 1 && v.current == |u.contexts|
            && v.contexts[v.current] == Context(d.x[10 := 0], d.pc, d.status)
          else
            && |v.contexts| == |u.contexts|
            && v.current == if scause == 0x8000_0000_0000_0005 && next.Some? then next.value else u.current
  }

  lemma AnsweredAsDispatched(u: Users, scause: Word, pid: Word, next: Option<nat>, written: Word)
    requires Proper(u) && (next.Some? ==> next.value < |u.contexts|)
    ensures var c := u.contexts[u.current];
            Answered(c, u, Served(u, Dispatched(scause, c.x[17], pid, next, written)), scause, pid, next, written)
  {}

  datatype ProgramEvent = Runs(x: seq<Word>, pc: Word) | Traps(trap: Trap)

  /** The running program executes, or traps and is served. */
  ghost predicate ProgramStep(u: Users, e: ProgramEvent, v: Users) {
    Proper(u) && match e
    case Runs(x, pc) =>
      |x| == 32 && v == Users(u.contexts[u.current := Context(x, pc, u.contexts[u.current].status)], u.current)
    case Traps(t) => (t.Timer? && t.next.Some? ==> t.next.value < |u.contexts|) && v == Served(u, t)
  }

  ghost predicate IsProgramRun(us: seq<Users>, es: seq<ProgramEvent>) {
    |us| == |es| + 1 && forall k :: 0 <= k < |es| ==> ProgramStep(us[k], es[k], us[k + 1])
  }

  lemma {:induction false} Untouched(us: seq<Users>, es: seq<ProgramEvent>, i: nat, k: nat, m: nat)
    requires IsProgramRun(us, es) && k <= m <= |es| && i < |us[k].contexts|
    requires forall n :: k <= n < m ==> us[n].current != i
    ensures i < |us[m].contexts| && us[m].contexts[i] == us[k].contexts[i]
  {
    if k < m {
      Untouched(us, es, i, k, m - 1);
      assert ProgramStep(us[m - 1], es[m - 1], us[m]);
      if es[m - 1].Traps? { ServedKeeps(us[m - 1], es[m - 1].trap); }
    }
  }

  /** Over every interleaving: a program that traps at step k and runs again at
      step m finds the registers it trapped with. */
  lemma RegistersSurvive(us: seq<Users>, es: seq<ProgramEvent>, k: nat, m: nat)
    requires IsProgramRun(us, es) && k < m <= |es| && es[k].Traps?
    requires forall n :: k < n < m ==> us[n].current != us[k].current
    ensures var i, t := us[k].current, es[k].trap;
            && i < |us[k].contexts| && i < |us[m].contexts| && |us[k].contexts[i].x| == |us[m].contexts[i].x| == 32
            && var c, d := us[k].contexts[i], us[m].contexts[i];
               && (forall r: nat :: Kept(t, r) ==> d.x[r] == c.x[r]) && d.x[SP] == c.x[SP]
               && d.pc == PcAfter(t, c.pc) && d.status == c.status
  {
    assert ProgramStep(us[k], es[k], us[k + 1]);
    ServedKeeps(us[k], es[k].trap);
    Untouched(us, es, us[k].current, k + 1, m);
  }

  class Machine {
    const x: array<Word>
    var pc: Word
    var sepc: Word
    var sstatus: Word
    var sscratch: Word
    /** Task pages, and the page whose trap frame lies at an address. */
    var pages: seq<TaskPage>
    var frames: map<Word, TaskPage>
    var current: nat
    /** Stack space of the C calls from trap_handler to __switch_to. */
    const timerDepth: int
    const forkDepth: int
    ghost var users: Users

    function Depth(via: Path): int { match via case FromTimer => timerDepth case FromFork => forkDepth }

    /** The task will return to context c when it is switched to. */
    ghost predicate Suspended(p: TaskPage, c: Context)
      reads p
    {
      && |c.x| == 32 && c.x[T0] == c.x[SP] == p.thread.sscratch
      && if p.thread.ra == RET_FROM_FORK then p.thread.sp == p.Frame() && FrameShows(p, c)
         else p.thread.ra == IN_SWITCH_TO && p.thread.sp == Plus(p.Frame(), -Depth(p.path)) && ReturnsTo(p, p.path, c)
    }

    /** Task pages are apart, and each is found at its frame address. */
    ghost predicate Pages()
      reads this
    {
      && x.Length == 32 && current < |pages| && |users.contexts| == |pages| && users.current == current
      && (forall i, j :: 0 <= i < j < |pages| ==> pages[i] != pages[j] && pages[i].base != pages[j].base)
      && (forall i :: 0 <= i < |pages| ==>
            && pages[i].base % 0x1000 == 0 && pages[i].base > 0
            && pages[i].Frame() in frames && frames[pages[i].Frame()] == pages[i])
    }

    ghost predicate OthersSuspended()
      requires |users.contexts| == |pages|
      reads this, pages
    {
      forall i :: 0 <= i < |pages| && i != current ==> Suspended(pages[i], users.contexts[i]) && pages[i].pid == i + 1
    }

    ghost predicate AllSuspended()
      requires |users.contexts| == |pages|
      reads this, pages
    {
      forall i :: 0 <= i < |pages| ==> Suspended(pages[i], users.contexts[i]) && pages[i].pid == i + 1
    }

    /** `__switch_to` has loaded the registers saved in p. */
    ghost predicate Loaded(p: TaskPage)
      reads this, x, p
    { x.Length == 32 && x[0] == 0 && x[1] == p.thread.ra && x[SP] == p.thread.sp && sscratch == p.thread.sscratch }

    /** User mode: the running program's context is in the registers. */
    ghost predicate InUser()
      reads this, x, pages
    {
      && Pages() && OthersSuspended() && pages[current].pid == current + 1
      && users.contexts[current] == Context(x[..], pc, sstatus) && x[0] == 0
      && sscratch == pages[current].Top()
    }

    /** Back from the kernel. A program whose stack pointer is 0 gets the kernel's
        in its place, and `sscratch` stays 0; everything else is its own. */
    ghost predicate Back()
      reads this, x, pages
    {
      && Pages() && OthersSuspended() && pages[current].pid == current + 1
      && x[0] == 0 && |users.contexts[current].x| == 32
      && var c, top := users.contexts[current], pages[current].Top();
         if c.x[SP] != 0 then c == Context(x[..], pc, sstatus) && sscratch == top
         else Context(c.x[SP := top][T0 := top], c.pc, c.status) == Context(x[..], pc, sstatus) && sscratch == 0
    }

    /** Kernel mode, inside trap_handler: the context c is in the trap frame. */
    ghost predicate InHandler(c: Context)
      reads this, x, pages
    {
      && Pages() && OthersSuspended() && pages[current].pid == current + 1
      && |c.x| == 32 && FrameShows(pages[current], c) && sscratch == c.x[SP] && x[0] == 0
      && x[SP] == pages[current].Frame()
    }

    // ---- entry and exit ---------------------------------------------------------

    /** Lines 28 to 84 of entry.S. */
    method Traps(scause: Word)
      requires x.Length == 32 && x[0] == 0
      requires Plus(if sscratch != 0 then sscratch else x[SP], -264) in frames
      modifies x, this`sscratch, frames[Plus(if sscratch != 0 then sscratch else x[SP], -264)]
      ensures var top := if old(sscratch) != 0 then old(sscratch) else old(x[SP]);
              var p := frames[Plus(top, -264)];
              && x[0] == 0 && x[SP] == Plus(top, -264) == x[12] && x[10] == scause
              && sscratch == (if old(sscratch) != 0 then old(x[SP]) else 0)
              && p.regs == PtRegs(old(x[1..])[SP - 1 := x[SP]][T0 - 1 := top], sepc, sstatus)
              && p.pid == old(p.pid) && p.thread == old(p.thread) && p.path == old(p.path)
    {
      ToKernelStack();
      x[SP] := Plus(x[SP], -264);
      var p := frames[x[SP]];
      p.regs := PtRegs(x[1..], p.regs.sepc, p.regs.sstatus);
      x[11] := sepc;
      p.regs := p.regs.(sepc := x[11]);
      x[T0] := sstatus;
      p.regs := p.regs.(sstatus := x[T0]);
      x[10] := scause;
      x[12] := x[SP];
    }

    /** sp and sscratch change places, and back if that gives 0. */
    method ToKernelStack()
      requires x.Length == 32
      modifies x, this`sscratch
      ensures var top := if old(sscratch) != 0 then old(sscratch) else old(x[SP]);
              x[..] == old(x[..])[SP := top][T0 := top]
      ensures sscratch == if old(sscratch) != 0 then old(x[SP]) else 0
    {
      x[T0] := sscratch;
      sscratch := x[SP];
      x[SP] := x[T0];
      if x[SP] == 0 {
        x[T0] := sscratch;
        sscratch := x[SP];
        x[SP] := x[T0];
      }
    }

    /** Lines 93 to 148 of entry.S, from `__ret_from_fork` to `sret`. The user's stack pointer
        comes back from `sscratch`, unless it is 0. */
    method RestoreAndReturn()
      requires x.Length == 32 && x[0] == 0 && x[SP] in frames
      modifies x, this`pc, this`sepc, this`sstatus, this`sscratch
      ensures var r := old(frames[x[SP]].regs); var top, user := Plus(r.regs[SP - 1], 264), old(sscratch);
              && (forall k :: 1 <= k < 32 && k != SP && k != T0 ==> x[k] == r.regs[k - 1]) && x[0] == 0
              && x[SP] == x[T0] == (if user != 0 then user else top)
              && sscratch == (if user != 0 then top else 0)
              && pc == sepc == r.sepc && sstatus == r.sstatus
    {
      var r := frames[x[SP]].regs;
      x[T0] := r.sepc;
      sepc := x[T0];
      x[T0] := r.sstatus;
      sstatus := x[T0];
      forall k | 1 <= k < 32 && k != SP { x[k] := r.regs[k - 1]; }
      x[SP] := r.regs[1];
      x[SP] := Plus(x[SP], 264);
      x[T0] := sscratch;
      sscratch := x[SP];
      x[SP] := x[T0];
      if x[SP] == 0 {
        x[T0] := sscratch;
        sscratch := x[SP];
        x[SP] := x[T0];
      }
      pc := sepc;
    }

    /** `__dummy`: the first entry of a task into user mode. */
    method Dummy()
      requires x.Length == 32
      modifies x, this`pc, this`sscratch
      ensures x[SP] == old(sscratch) && sscratch == old(x[SP]) == x[T0] && pc == sepc
      ensures forall k :: 0 <= k < 32 && k != SP && k != T0 ==> x[k] == old(x[k])
    {
      x[T0] := x[SP];
      x[SP] := sscratch;
      sscratch := x[T0];
      pc := sepc;
    }

    /** `__switch_to`. */
    method SwitchRegisters(prev: TaskPage, next: TaskPage)
      requires x.Length == 32
      modifies x, prev`thread, this`sepc, this`sstatus, this`sscratch
      ensures prev.thread ==
              Thread(old(x[1]), old(x[SP]), old([x[8], x[9]] + x[18..28]), old(sepc), old(sstatus), old(sscratch))
      ensures x[0] == old(x[0]) && x[1] == next.thread.ra && x[SP] == next.thread.sp
      ensures [x[8], x[9]] + x[18..28] == next.thread.s
      ensures sepc == next.thread.sepc && sstatus == next.thread.sstatus && sscratch == next.thread.sscratch
    {
      prev.thread := Thread(x[1], x[SP], [x[8], x[9]] + x[18..28], sepc, sstatus, sscratch);
      var t := next.thread;
      x[1], x[SP], x[8], x[9] := t.ra, t.sp, t.s[0], t.s[1];
      forall k | 18 <= k < 28 { x[k] := t.s[k - 16]; }
      sepc := t.sepc;
      sstatus := t.sstatus;
      x[T0] := t.sscratch;
      sscratch := x[T0];
    }

    // ---- user programs and traps ------------------------------------------------

    /** The state after `task_init`: idle, which boots, and one task. */
    constructor (first: TaskPage, entry: Word, timerDepth: int, forkDepth: int)
      requires first.base % 0x1000 == 0 && first.base > 0
      modifies first
      ensures fresh(x) && x.Length == 32 && x[0] == 0 && pages == [first] && current == 0
      ensures frames == map[first.Frame() := first]
      ensures first.pid == 1 && first.thread == Thread(DUMMY, first.Top(), seq(12, _ => 0), entry, 0x4_0020, USER_END)
    {
      x := new Word[32](_ => 0);
      pc, sepc, sstatus, sscratch := 0, 0, 0, 0;
      pages, frames, current := [first], map[first.Frame() := first], 0;
      this.timerDepth, this.forkDepth := timerDepth, forkDepth;
      users := Users([], 0);
      new;
      first.pid := 1;
      first.thread := Thread(DUMMY, first.Top(), seq(12, _ => 0), entry, 0x4_0020, USER_END);
    }

    /** The first `switch_to`: the task starts at its entry point, with the user
        stack in sp and its kernel stack in `sscratch`. */
    method FirstDispatch(idle: TaskPage, ghost entry: Word)
      requires x.Length == 32 && x[0] == 0 && current == 0 && |pages| == 1 && idle != pages[0]
      requires pages[0].base % 0x1000 == 0 && pages[0].base > 0 && frames == map[pages[0].Frame() := pages[0]]
      requires pages[0].pid == 1
      requires pages[0].thread == Thread(DUMMY, pages[0].Top(), seq(12, _ => 0), entry, 0x4_0020, USER_END)
      modifies x, idle, this`sepc, this`sstatus, this`sscratch, this`pc, this`users
      ensures InUser() && users.current == 0 && |users.contexts| == 1 && users.contexts[0].pc == entry
      ensures x[2] == 0x40_0000_0000 && sscratch == pages[0].base + 0xfff && pc == entry && sstatus == 0x4_0020
      ensures users.contexts[0].x[SP] == USER_END
    {
      FrameBelowTop(pages[0]);
      x[1] := IN_SWITCH_TO;
      SwitchRegisters(idle, pages[0]);
      Dummy();
      users := Users([Context(x[..], pc, sstatus)], 0);
    }

    /** The running program executes. */
    method UserRuns(newX: seq<Word>, newPc: Word)
      requires InUser() && |newX| == 32 && newX[0] == 0
      modifies x, this`pc, this`users
      ensures InUser() && users == Users(old(users).contexts[current := Context(newX, newPc, sstatus)], current)
    {
      SetRegisters(newX);
      pc := newPc;
      users := Users(users.contexts[current := Context(newX, newPc, sstatus)], current);
    }

    method SetRegisters(newX: seq<Word>)
      requires x.Length == 32 && |newX| == 32
      modifies x
      ensures x[..] == newX
    {
      forall k | 0 <= k < 32 { x[k] := newX[k]; }
    }

    /** A trap from user mode, up to the call of `trap_handler`. */
    method TakeTrap(scause: Word)
      requires InUser()
      modifies x, this`sepc, this`sscratch, pages[current]
      ensures InHandler(users.contexts[current]) && x[12] == x[SP]
      ensures pages[current].pid == old(pages[current].pid)
    {
      ghost var c, p := users.contexts[current], pages[current];
      FrameBelowTop(p);
      sepc := pc;
      Traps(scause);
    }

    /** What compiled C code leaves behind: any values in all registers but sp. */
    method Clobber(junk: seq<Word>)
      requires x.Length == 32 && |junk| == 32
      modifies x
      ensures x[0] == old(x[0]) && x[SP] == old(x[SP])
    {
      forall k | 1 <= k < 32 && k != SP { x[k] := junk[k]; }
    }

    /** The way back to user mode, when the trap frame shows context c. */
    method Leave(ghost c: Context)
      requires InHandler(c) && c.x[T0] == c.x[SP] && users.contexts[current] == c
      modifies x, this`pc, this`sepc, this`sstatus, this`sscratch
      ensures Back()
    {
      ghost var p := pages[current];
      FrameBelowTop(p);
      RestoreAndReturn();
      assert c.x[SP] != 0 ==> x[..] == c.x;
      assert c.x[SP] == 0 ==> x[..] == c.x[SP := p.Top()][T0 := p.Top()];
    }

    lemma AllProper()
      requires InUser()
      ensures Proper(users)
    {
      forall c <- users.contexts ensures |c.x| == 32 {
        var i :| 0 <= i < |users.contexts| && users.contexts[i] == c;
        assert i != current ==> Suspended(pages[i], users.contexts[i]);
      }
    }

    lemma BackIsUser()
      requires Back()
      ensures InUser() <==> users.contexts[current].x[SP] != 0
    {
      FrameBelowTop(pages[current]);
    }

    /** `trap_handler` between entry and exit of a trap from user mode. What the
        kernel decides (the task to run next, the result of write, the page for a
        child) and what C code leaves in registers are parameters. The program that
        runs next is as the trap says exactly if its stack pointer is not 0. */
    method UserTrap(scause: Word, next: Option<nat>, written: Word, child: TaskPage, junk: seq<Word>)
      requires InUser() && |junk| == 32 && (next.Some? ==> next.value < |pages|)
      requires scause == ECALL_FROM_U_MODE && x[A7] == SYS_CLONE ==> NewPage(child)
      modifies this, x, pages, child
      ensures Back() && (InUser() <==> users.contexts[users.current].x[SP] != 0)
      ensures users == Served(old(users), Dispatched(scause, old(x[A7]), old(current) + 1, next, written))
      ensures Answered(Context(old(x[..]), old(pc), old(sstatus)), old(users), users, scause, old(current) + 1, next,
                       written)
      ensures InUser() ==> sscratch == pages[current].base + 0xfff
      ensures pages == old(pages) + if scause == ECALL_FROM_U_MODE && old(x[A7]) == SYS_CLONE then [child] else []
    {
      hide Served, Dispatched, Answered, InUser, Back, NewPage;
      AllProper();
      InUserFacts(this);
      AnsweredAsDispatched(users, scause, current + 1, next, written);
      Handle(scause, next, written, child, junk);
      if InUser() { InUserFacts(this); }
    }

    /** Entry, the branches of `trap_handler`, and exit. */
    method Handle(scause: Word, next: Option<nat>, written: Word, child: TaskPage, junk: seq<Word>)
      requires InUser() && |junk| == 32 && (next.Some? ==> next.value < |pages|)
      requires scause == ECALL_FROM_U_MODE && x[A7] == SYS_CLONE ==> NewPage(child)
      modifies this, x, pages, child
      ensures Back() && (InUser() <==> users.contexts[users.current].x[SP] != 0)
      ensures users == Served(old(users), Dispatched(scause, old(x[A7]), old(current) + 1, next, written))
      ensures pages == old(pages) + if scause == ECALL_FROM_U_MODE && old(x[A7]) == SYS_CLONE then [child] else []
    {
      hide Served, Plus, FrameShows, Suspended, ReturnsTo;
      ghost var c := users.contexts[current];
      TakeTrap(scause);
      var regs := x[12];
      var trapFrame := frames[regs];
      FrameShowsRegister(trapFrame, c, A7);
      if scause == TIMER_INTR {
        ServeTimer(next, junk, c);
      } else if scause == ECALL_FROM_U_MODE {
        var id := SavedSlot(trapFrame.regs, A7);
        if id == SYS_GETPID {
          ServeEcall(trapFrame, Some(pages[current].pid), junk, c);
        } else if id == SYS_WRITE {
          ServeEcall(trapFrame, Some(written), junk, c);
        } else if id == SYS_CLONE {
          ServeFork(regs, child, junk, c);
        } else {
          ServeEcall(trapFrame, None, junk, c);
        }
      } else {
        ServeFault(junk, c);
      }
      BackIsUser();
    }

    /** A fault from a program with any stack pointer: it gets its stack pointer
        back exactly if that is not 0. */
    method FaultFromAnyStack(scause: Word, junk: seq<Word>)
      requires InUser() && |junk| == 32
      modifies this, x, pages[current]
      ensures x[SP] == old(x[SP]) <==> old(x[SP]) != 0
    {
      FrameBelowTop(pages[current]);
      TakeTrap(scause);
      Clobber(junk);
      RestoreAndReturn();
    }

    /** A page fault: nothing changes for the program but t0. */
    method ServeFault(junk: seq<Word>, ghost c: Context)
      requires InHandler(c) && c == users.contexts[current] && |junk| == 32
      modifies this, x, pages[current]
      ensures Back() && users == Served(old(users), Trap.Fault) && pages == old(pages)
    {
      Clobber(junk);
      users := Served(users, Trap.Fault);
      Leave(Trapped(c));
    }

    /** A system call other than fork: the result, if there is one, is in a0 and
        the program continues behind the ecall. */
    method ServeEcall(trapFrame: TaskPage, result: Option<Word>, junk: seq<Word>, ghost c: Context)
      requires InHandler(c) && c == users.contexts[current] && trapFrame == pages[current]
      requires |junk| == 32
      modifies this, x, pages[current]
      ensures Back() && pages == old(pages)
      ensures users == Served(old(users), if result.Some? then Ecall(result.value) else OtherEcall)
    {
      hide Suspended, ReturnsTo, FrameShows, Plus;
      Clobber(junk);
      ghost var d := Answer(trapFrame, result, c);
      users := Served(users, if result.Some? then Ecall(result.value) else OtherEcall);
      Leave(d);
    }

    /** The result, if there is one, and the step past the ecall. */
    method Answer(trapFrame: TaskPage, result: Option<Word>, ghost c: Context) returns (ghost d: Context)
      requires FrameShows(trapFrame, c)
      modifies trapFrame
      ensures d == if result.Some? then Returned(c, result.value) else Trapped(c).(pc := Plus(c.pc, 4))
      ensures FrameShows(trapFrame, d)
      ensures trapFrame.pid == old(trapFrame.pid) && trapFrame.thread == old(trapFrame.thread)
      ensures trapFrame.path == old(trapFrame.path)
    {
      hide Plus, SavedSlot;
      d := if result.Some? then Returned(c, result.value) else Trapped(c).(pc := Plus(c.pc, 4));
      ghost var e := Context(d.x, c.pc, c.status);
      FrameShowsAlso(trapFrame, c, e.(x := e.x[A0 := trapFrame.regs.regs[A0 - 1]]));
      if result.Some? { SetA0(trapFrame, result.value, e); }
      assert e.x[A0 := d.x[A0]] == e.x;
      StepPc(trapFrame, e);
    }

    /** `trap_frame->regs[r_a0 - 1] = result`. */
    method SetA0(trapFrame: TaskPage, result: Word, ghost c: Context)
      requires |c.x| == 32 && FrameShows(trapFrame, c.(x := c.x[A0 := trapFrame.regs.regs[A0 - 1]]))
      modifies trapFrame
      ensures FrameShows(trapFrame, c.(x := c.x[A0 := result]))
      ensures trapFrame.pid == old(trapFrame.pid) && trapFrame.thread == old(trapFrame.thread)
      ensures trapFrame.path == old(trapFrame.path)
    {
      ghost var r := trapFrame.regs;
      trapFrame.regs := trapFrame.regs.(regs := trapFrame.regs.regs[A0 - 1 := result]);
      forall k | 1 <= k < 32 && k != SP && k != T0 ensures SavedSlot(trapFrame.regs, k) == c.x[A0 := result][k] {
        assert SavedSlot(r, k) == c.x[A0 := r.regs[A0 - 1]][k];
      }
    }

    /** `trap_frame->sepc += 4`. */
    method StepPc(trapFrame: TaskPage, ghost c: Context)
      requires FrameShows(trapFrame, c)
      modifies trapFrame
      ensures FrameShows(trapFrame, c.(pc := Plus(c.pc, 4)))
      ensures trapFrame.pid == old(trapFrame.pid) && trapFrame.thread == old(trapFrame.thread)
      ensures trapFrame.path == old(trapFrame.path)
    {
      trapFrame.regs := trapFrame.regs.(sepc := Plus(trapFrame.regs.sepc, 4));
    }

    /** A timer interrupt; the scheduler may pick a task, possibly the same. */
    method ServeTimer(next: Option<nat>, junk: seq<Word>, ghost c: Context)
      requires InHandler(c) && c == users.contexts[current] && |junk| == 32
      requires next.Some? ==> next.value < |pages|
      modifies this, x, pages
      ensures Back() && pages == old(pages) && users == Served(old(users), Timer(next))
    {
      hide Plus, SavedSlot, ReturnsTo, Suspended, FrameShows;
      Clobber(junk);
      TimerReturns(pages[current], c);
      if next.None? {
        users := Served(users, Timer(next));
        Leave(Trapped(c));
      } else {
        SwitchAway(next.value, junk, Trapped(c));
      }
    }

    /** `switch_to` inside `do_timer`: one task leaves and the next one goes on. */
    method SwitchAway(next: nat, junk: seq<Word>, ghost d: Context)
      requires Pages() && OthersSuspended() && pages[current].pid == current + 1 && next < |pages| && |junk| == 32
      requires ReturnsTo(pages[current], FromTimer, d) && |d.x| == 32 && d.x[T0] == d.x[SP]
      requires sscratch == d.x[SP] && x[SP] == pages[current].Frame() && x[0] == 0
      modifies this, x, pages
      ensures Back() && pages == old(pages) && users == Users(old(users).contexts[old(current) := d], next)
    {
      hide Plus, SavedSlot, ReturnsTo, Suspended, FrameShows;
      Depart(next, FromTimer, d);
      Resume(junk);
    }

    /** `switch_to`: the running task will go on in context c. */
    method Depart(next: nat, via: Path, ghost c: Context)
      requires Pages() && OthersSuspended() && pages[current].pid == current + 1 && next < |pages|
      requires ReturnsTo(pages[current], via, c) && |c.x| == 32 && c.x[T0] == c.x[SP]
      requires sscratch == c.x[SP] && x[SP] == pages[current].Frame() && x[0] == 0
      modifies this`current, this`users, this`sepc, this`sstatus, this`sscratch, x, pages[current]
      ensures Pages() && current == next && users == Users(old(users).contexts[old(current) := c], next)
      ensures AllSuspended() && Loaded(pages[next])
    {
      hide Plus, Suspended;
      var p := pages[current];
      users := Users(users.contexts[current := c], next);
      current := next;
      SwitchStacks(p, pages[next], via, c);
    }

    /** `__switch_to`, called below the C functions of the path. */
    method SwitchStacks(p: TaskPage, next: TaskPage, via: Path, ghost c: Context)
      requires ReturnsTo(p, via, c) && |c.x| == 32 && c.x[T0] == c.x[SP]
      requires x.Length == 32 && sscratch == c.x[SP] && x[SP] == p.Frame() && x[0] == 0
      modifies this`sepc, this`sstatus, this`sscratch, x, p
      ensures Suspended(p, c) && Loaded(next) && p.pid == old(p.pid)
    {
      hide FrameShows, ReturnsTo, Plus, Suspended;
      x[SP] := Plus(x[SP], -Depth(via));
      p.path := via;
      x[1] := IN_SWITCH_TO;
      SwitchRegisters(p, next);
      NowSuspended(p, c);
    }

    lemma NowSuspended(p: TaskPage, c: Context)
      requires |c.x| == 32 && c.x[T0] == c.x[SP] && ReturnsTo(p, p.path, c)
      requires p.thread.ra == IN_SWITCH_TO && p.thread.sp == Plus(p.Frame(), -Depth(p.path))
      requires p.thread.sscratch == c.x[SP]
      ensures Suspended(p, c)
    {}

    /** `ret` at the end of `__switch_to`, and all the way to user mode. */
    method Resume(junk: seq<Word>)
      requires Pages() && AllSuspended() && Loaded(pages[current]) && |junk| == 32
      modifies this`pc, this`sepc, this`sstatus, this`sscratch, x, pages[current]
      ensures Back()
    {
      ghost var c, p := users.contexts[current], pages[current];
      if x[1] != RET_FROM_FORK {
        ReturnFromCalls(junk, c);
      }
      Leave(c);
    }

    /** The C calls above `switch_to` return; `sys_fork` still stores its result. */
    method ReturnFromCalls(junk: seq<Word>, ghost c: Context)
      requires Pages() && OthersSuspended() && Suspended(pages[current], c) && pages[current].pid == current + 1
      requires Loaded(pages[current]) && x[1] != RET_FROM_FORK && |junk| == 32
      modifies x, pages[current]
      ensures InHandler(c)
    {
      var via := pages[current].path;
      DepthBack(pages[current].Frame(), Depth(via));
      x[SP] := Plus(x[SP], Depth(via));
      Clobber(junk);
      if via == FromFork {
        var trapFrame := frames[x[SP]];
        StorePid(trapFrame, pages[current].pid, c);
      }
    }

    /** The parent's part of `sys_fork` after the switch. */
    method StorePid(trapFrame: TaskPage, pid: Word, ghost c: Context)
      requires ReturnsTo(trapFrame, FromFork, c) && pid == trapFrame.pid
      modifies trapFrame
      ensures FrameShows(trapFrame, c)
      ensures trapFrame.pid == old(trapFrame.pid) && trapFrame.thread == old(trapFrame.thread)
      ensures trapFrame.path == old(trapFrame.path)
    {
      hide FrameShows, Plus;
      ghost var raw := Context(c.x, trapFrame.regs.sepc, c.status);
      SetA0(trapFrame, pid, raw);
      assert raw.x[A0 := pid] == c.x;
      StepPc(trapFrame, raw);
    }

    /** A page from `kalloc`, and a free slot for it. */
    ghost predicate NewPage(child: TaskPage)
      reads this
    {
      && |pages| < NR_TASKS - 1 && child.base % 0x1000 == 0 && child.base > 0
      && forall p <- pages :: child != p && child.base != p.base
    }

    /** `sys_fork`: a child with the parent's registers but a0 = 0 runs at once, on
        the kernel stack in its own page; the parent will see its own pid. */
    method ServeFork(regs: Word, child: TaskPage, junk: seq<Word>, ghost c: Context)
      requires InHandler(c) && c == users.contexts[current] && regs == x[SP] && |junk| == 32
      requires NewPage(child)
      modifies this, x, pages, child
      ensures Back() && pages == old(pages) + [child] && current == |old(pages)|
      ensures users == Served(old(users), Fork(old(pages[current].pid)))
    {
      hide Plus, SavedSlot, FrameShows, ReturnsTo, Suspended, Served;
      ghost var parent := pages[current];
      ForkedUsers(users, parent.pid);
      MakeChild(regs, child, junk, c);
      ForkReturns(parent, c);
      Depart(|pages| - 1, FromFork, Returned(c, parent.pid));
      Resume(junk);
    }

    /** `sys_fork` up to the switch. */
    method MakeChild(regs: Word, child: TaskPage, junk: seq<Word>, ghost c: Context)
      requires InHandler(c) && c == users.contexts[current] && regs == x[SP] && |junk| == 32
      requires NewPage(child)
      modifies this`pages, this`frames, this`users, x, child
      ensures InHandler(c) && pages == old(pages) + [child]
      ensures users == Users(old(users).contexts + [Returned(c, 0)], current)
    {
      hide Plus, SavedSlot, FrameShows, ReturnsTo, Suspended;
      CopyTask(pages[current], child, regs, c);
      Clobber(junk);
      AddPage(child, Returned(c, 0));
    }

    /** Lines 30 to 48 of syscall.c. */
    method CopyTask(parent: TaskPage, child: TaskPage, regs: Word, ghost c: Context)
      requires FrameShows(parent, c) && regs == parent.Frame() && sscratch == c.x[SP] && parent != child
      requires parent.base % 0x1000 == 0 && child.base % 0x1000 == 0 && |pages| < NR_TASKS - 1
      modifies child
      ensures child.pid == |pages| + 1 && Suspended(child, Returned(c, 0))
    {
      var curUserStack := sscratch;
      var pid := |pages| + 1;
      child.thread, child.regs, child.path := parent.thread, parent.regs, parent.path;
      var regsOffset := Plus(regs, -(parent.base as int));
      var childRegs := Plus(child.base, regsOffset);
      SameOffset(parent, child);
      child.pid := pid;
      child.thread := child.thread.(sp := childRegs, ra := RET_FROM_FORK, sscratch := curUserStack);
      child.regs := child.regs.(regs := child.regs.regs[A0 - 1 := 0]);
      child.regs := child.regs.(regs := child.regs.regs[SP - 1 := child.thread.sp]);
      child.regs := child.regs.(sepc := Plus(child.regs.sepc, 4));
    }

    /** The child's page takes the next slot. */
    method AddPage(child: TaskPage, ghost c: Context)
      requires Pages() && OthersSuspended() && Suspended(child, c) && child.pid == |pages| + 1
      requires NewPage(child)
      modifies this`pages, this`frames, this`users
      ensures Pages() && OthersSuspended() && pages == old(pages) + [child]
      ensures users == Users(old(users).contexts + [c], current)
    {
      forall p <- pages ensures p.Frame() != child.Frame() { assert p in pages; FramesDiffer(p, child); }
      pages := pages + [child];
      frames := frames[child.Frame() := child];
      users := Users(users.contexts + [c], current);
    }
  }

  lemma FrameShowsAlso(p: TaskPage, c: Context, d: Context)
    requires FrameShows(p, c) && |d.x| == 32 && d.pc == c.pc && d.status == c.status
    requires forall k :: 0 <= k < 32 && k != SP && k != T0 && k != A0 ==> d.x[k] == c.x[k]
    requires d.x[A0] == p.regs.regs[A0 - 1]
    ensures FrameShows(p, d)
  {}

  lemma FrameShowsRegister(p: TaskPage, c: Context, k: int)
    requires FrameShows(p, c) && 1 <= k < 32 && k != SP && k != T0
    ensures SavedSlot(p.regs, k) == c.x[k]
  {}

  lemma DispatchedAs(id: Word, pid: Word, next: Option<nat>, written: Word, u: Users)
    requires u.current < |u.contexts| && |u.contexts[u.current].x| == 32
    ensures Dispatched(TIMER_INTR, id, pid, next, written) == Timer(next)
    ensures Served(u, Timer(next)).contexts == Served(u, Timer(None)).contexts
    ensures Served(u, Timer(next)).current == if next.Some? then next.value else u.current
    ensures Dispatched(ECALL_FROM_U_MODE, SYS_CLONE, pid, next, written) == Fork(pid)
    ensures Served(u, Fork(pid)).current == |u.contexts| == |Served(u, Fork(pid)).contexts| - 1
    ensures Served(u, Trap.Fault).current == u.current && |Served(u, Trap.Fault).contexts| == |u.contexts|
    ensures forall scause: Word :: scause != TIMER_INTR && scause != ECALL_FROM_U_MODE ==>
              Dispatched(scause, id, pid, next, written) == Trap.Fault
  {}

  lemma InUserFacts(m: Machine)
    requires m.InUser()
    ensures m.x.Length == 32 && m.current == m.users.current < |m.pages| == |m.users.contexts|
    ensures m.sscratch == m.pages[m.current].Top() && m.users.contexts[m.current] == Context(m.x[..], m.pc, m.sstatus)
    ensures m.sscratch == m.pages[m.current].base + 0xfff
    ensures |m.users.contexts[m.current].x| == 32 && m.current + 1 < TWO_64
  {
    assert m.pages[m.current].pid == m.current + 1;
  }

  lemma TimerReturns(p: TaskPage, c: Context)
    requires FrameShows(p, c)
    ensures FrameShows(p, Trapped(c)) && ReturnsTo(p, FromTimer, Trapped(c))
  {}

  lemma ForkedUsers(u: Users, pid: Word)
    requires u.current < |u.contexts| && |u.contexts[u.current].x| == 32
    ensures var c := u.contexts[u.current];
            Served(u, Fork(pid)) == Users((u.contexts + [Returned(c, 0)])[u.current := Returned(c, pid)], |u.contexts|)
  {}

  /** What the parent's trap frame still shows is completed when sys_fork returns. */
  lemma ForkReturns(p: TaskPage, c: Context)
    requires FrameShows(p, c)
    ensures ReturnsTo(p, FromFork, Returned(c, p.pid))
  {
    var after := Returned(c, p.pid);
    var now := Context(Returned(c, p.pid).x[A0 := SavedSlot(p.regs, A0)], p.regs.sepc, c.status);
    forall k | 1 <= k < 32 && k != SP && k != T0 ensures SavedSlot(p.regs, k) == now.x[k] {
      assert SavedSlot(p.regs, k) == c.x[k];
    }
    assert FrameShows(p, now);
  }

  lemma DepthBack(a: Word, d: int)
    ensures Plus(Plus(a, -d), d) == a
  {}

  lemma SameOffset(p: TaskPage, q: TaskPage)
    requires p.base % 0x1000 == 0 && q.base % 0x1000 == 0
    ensures Plus(q.base, Plus(p.Frame(), -(p.base as int))) == q.Frame()
  {}

  lemma FramesDiffer(p: TaskPage, q: TaskPage)
    requires p.base % 0x1000 == 0 && q.base % 0x1000 == 0 && p.base != q.base
    ensures p.Frame() != q.Frame()
  {}

  lemma FrameBelowTop(p: TaskPage)
    requires p.base % 0x1000 == 0 && p.base > 0
    ensures p.Top() != 0 && Plus(p.Top(), -264) == p.Frame() && Plus(p.Frame(), 264) == p.Top()
    ensures p.Top() == p.base + 0xfff && p.Frame() == p.base + 0xef7
  {}
}
