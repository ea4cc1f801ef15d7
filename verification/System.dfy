/** The whole system: the memory side, the task table and the register side of
    the same tasks, taking each trap together. */
module System {
  import opened Bits
  import opened Bytes
  import opened Defs
  import opened Sv39
  import opened UserMemory
  import J = Joint
  import P = Processes
  import S = Scheduling
  import T = TrapContext
  import W = World
  import Memory
  import Spaces

  /** Address spaces and kernel stacks live in the same task pages. */
  ghost predicate OnePage(procs: seq<Spaces.Proc>, pages: seq<T.TaskPage>) {
    |procs| == |pages| && forall i :: 0 <= i < |procs| ==> procs[i].page < FRAMES && pages[i].base == Kva(procs[i].page)
  }

  lemma OneMorePage(procs: seq<Spaces.Proc>, pages: seq<T.TaskPage>, procs': seq<Spaces.Proc>, pages': seq<T.TaskPage>)
    requires OnePage(procs, pages) && |procs'| == |pages'| == |procs| + 1 && pages'[..|pages|] == pages
    requires procs'[..|procs|] == procs && procs'[|procs|].page < FRAMES
    requires pages'[|pages|].base == Kva(procs'[|procs|].page)
    ensures OnePage(procs', pages')
  {
    forall i | 0 <= i < |procs'| ensures procs'[i].page < FRAMES && pages'[i].base == Kva(procs'[i].page) {
      if i < |procs| { assert procs'[..|procs|][i] == procs[i] && pages'[..|pages|][i] == pages[i]; }
    }
  }

  /** One task, wholly unmapped, that has time left. */
  ghost predicate Starts(file: W.File, st: J.State) {
    && P.ElfShaped(file) && W.PagesDisjoint(P.ProgramAreas(file))
    && st.world == W.Spawned(W.NoWorld(), P.ProgramAreas(file)) && S.Ready(st.sched)
  }

  /** Every program but the running one has a stack pointer to come back to. */
  ghost predicate HaveStacks(u: T.Users) {
    && T.Proper(u)
    && forall i :: 0 <= i < |u.contexts| && i != u.current ==> u.contexts[i].x[T.SP] != 0
  }

  lemma ServedStacks(u: T.Users, t: T.Trap)
    requires HaveStacks(u) && u.contexts[u.current].x[T.SP] != 0
    ensures (t.Timer? && t.next.Some? ==> t.next.value < |u.contexts|) ==>
              var v := T.Served(u, t); HaveStacks(v) && v.contexts[v.current].x[T.SP] != 0
  {
    if t.Timer? && t.next.Some? ==> t.next.value < |u.contexts| { T.ServedKeeps(u, t); }
  }

  lemma TrapHasStacks(u: T.Users, scause: Word, id: Word, pid: Word, next: Option<nat>, written: Word)
    requires HaveStacks(u) && u.contexts[u.current].x[T.SP] != 0 && (next.Some? ==> next.value < |u.contexts|)
    ensures var v := T.Served(u, T.Dispatched(scause, id, pid, next, written));
            HaveStacks(v) && v.current < |v.contexts| && |v.contexts[v.current].x| == 32
            && v.contexts[v.current].x[T.SP] != 0
  {
    hide HaveStacks, T.Served;
    var t := T.Dispatched(scause, id, pid, next, written);
    assert t.Timer? ==> t.next == next;
    StackFacts(u);
    ServedStacks(u, t);
    StackFacts(T.Served(u, t));
  }

  lemma StackFacts(u: T.Users)
    requires HaveStacks(u)
    ensures u.current < |u.contexts| && |u.contexts[u.current].x| == 32
  {}

  lemma ExecuteMoves(file: W.File, a: J.State, b: J.State, x: seq<Word>, pc: Word)
    requires J.Agree(a) && J.Agree(b) && b.world == a.world && b.sched == a.sched
    requires T.ProgramStep(a.users, T.Runs(x, pc), b.users)
    ensures J.Step(file, a, J.Executes(x, pc), b)
  {}

  lemma TickMoves(a: J.State, b: J.State)
    requires J.Agree(a) && J.Agree(b) && b.world == a.world && b.sched == S.Tick(a.sched) && T.Proper(a.users)
    requires b.users.contexts == T.Served(a.users, T.Timer(None)).contexts
    ensures forall file :: J.Step(file, a, J.Ticks, b)
  {}

  lemma FaultMoves(file: W.File, a: J.State, b: J.State, added: map<nat, nat>, addr: nat)
    requires J.Agree(a) && J.Agree(b) && b.sched == a.sched && T.Proper(a.users) && addr / 0x1000 in added
    requires W.FaultStep(file, a.world, b.world, a.users.current, added)
    requires b.users == T.Served(a.users, T.Trap.Fault)
    ensures J.Step(file, a, J.Faults, b) && W.Present(b.world, b.users.current, addr)
  {}

  lemma StartRefines(file: W.File, areas: seq<W.Vma>)
    requires W.PagesDisjoint(areas)
    ensures var w := W.Spawned(W.NoWorld(), areas); W.Sound(w) && W.Refines(file, w, [W.Eager(areas, map[])])
  {
    hide W.PagesDisjoint;
    assert W.Sound(W.NoWorld()) && W.Refines(file, W.NoWorld(), []);
    W.SpawnRefines(file, W.NoWorld(), [], areas);
    assert W.EagerNext([], W.Spawn(areas)) == [W.Eager(areas, map[])];
  }

  function Result(id: Word, pid: nat, written: Word): Option<Word>
    requires pid < TWO_64
  { if id == 172 then Some(pid) else if id == 64 then Some(written) else None }

  /** The fault that an access to a makes the running program take, if any. */
  ghost function FaultFor(st: J.State, a: nat): seq<J.Deed> {
    if W.Present(st.world, st.users.current, a) then [] else [J.Faults]
  }

  lemma CallMoves(file: W.File, a: J.State, b: J.State, id: Word, pid: Word, written: Word)
    requires J.Agree(a) && J.Agree(b) && T.Proper(a.users) && b.sched == a.sched && b.world == a.world
    requires id != T.SYS_CLONE
    requires b.users == T.Served(a.users, T.Dispatched(T.ECALL_FROM_U_MODE, id, pid, None, written))
    ensures J.Step(file, a, J.Calls(Result(id, pid, written)), b)
  {}

  lemma CallKeepsTask(u: T.Users, id: Word, pid: Word, written: Word)
    requires T.Proper(u) && id != T.SYS_CLONE
    ensures var v := T.Served(u, T.Dispatched(T.ECALL_FROM_U_MODE, id, pid, None, written));
            v.current == u.current && |v.contexts| == |u.contexts|
  {}

  lemma LoadMoves(file: W.File, a: J.State, at: Word, b: Byte)
    requires J.Agree(a) && W.Next(file, a.world, W.Read(a.users.current, at, b), a.world)
    ensures J.Step(file, a, J.Loads(at, b), a)
  {}

  lemma StoreMoves(file: W.File, a: J.State, b: J.State, at: Word, v: Byte)
    requires J.Agree(a) && J.Agree(b) && b.sched == a.sched && b.users == a.users
    requires W.WriteStep(a.world, b.world, a.users.current, at, v)
    ensures J.Step(file, a, J.Stores(at, v), b)
  {}

  lemma ForkMoves(file: W.File, a: J.State, b: J.State, priority: nat, copies: map<nat, nat>)
    requires J.Agree(a) && J.Agree(b) && T.Proper(a.users) && |a.sched.slots| < NR_TASKS && 1 <= priority <= 10
    requires b.sched == S.Forked(a.sched, priority) && a.users.current + 1 < TWO_64
    requires W.ForkStep(a.world, b.world, a.users.current, copies)
    requires b.users == T.Served(a.users, T.Fork(a.users.current + 1))
    ensures J.Step(file, a, J.Forks(priority), b)
  {}

  class Os {
    const kernel: P.Kernel
    const table: S.TaskTable
    const machine: T.Machine
    /** What happened since the first program started, and the states between. */
    ghost var states: seq<J.State>
    ghost var log: seq<J.Deed>

    constructor (kernel: P.Kernel, table: S.TaskTable, machine: T.Machine)
      ensures this.kernel == kernel && this.table == table && this.machine == machine
      ensures log == [] && states == [NowState()]
    {
      this.kernel, this.table, this.machine := kernel, table, machine;
      states, log := [J.State(kernel.Seen(), table.state, machine.users)], [];
    }

    /** The three descriptions are of the same tasks: slot i + 1 of the table, the
        i-th address space and the i-th task page belong together, and the same
        task runs everywhere. */
    ghost predicate Agree()
      reads kernel, machine, table, table.tasks, machine.pages
    {
      && |kernel.procs| == |machine.pages| == |table.tasks| - 1
      && kernel.current == machine.current && table.state.current == kernel.current + 1
      && OnePage(kernel.procs, machine.pages)
    }

    /** Between deeds of an operation: every part in order, and all agree. */
    ghost predicate Consistent()
      reads kernel, kernel.Repr(), table, table.task, table.tasks, machine, machine.x, machine.pages
    {
      && kernel.vm.buddy.bitmap != machine.x
      && kernel.Valid() && kernel.Running() && table.Valid() && S.Good(table.state) && machine.InUser() && Agree()
      && HaveStacks(machine.users)
    }

    ghost function NowState(): J.State
      reads kernel, kernel.Repr(), table, machine
    { J.State(kernel.Seen(), table.state, machine.users) }

    /** The log is a run of the whole system from the first program's start to now. */
    ghost predicate Logged()
      reads this, kernel, kernel.Repr(), table, machine
    {
      && J.IsRun(kernel.boot.file, states, log) && states[|log|] == NowState()
      && Starts(kernel.boot.file, states[0])
    }

    ghost predicate Valid()
      reads this, kernel, kernel.Repr(), table, table.task, table.tasks, machine, machine.x, machine.pages
    { Consistent() && Logged() }

    lemma Parts()
      requires Consistent()
      ensures kernel.Valid() && kernel.Running() && table.Valid() && S.Good(table.state) && machine.InUser()
      ensures kernel.vm.buddy.bitmap != machine.x && |kernel.procs| == |machine.pages| == |table.tasks| - 1
      ensures kernel.current == machine.current && table.state.current == kernel.current + 1
      ensures OnePage(kernel.procs, machine.pages) && HaveStacks(machine.users)
    {}

    lemma Whole()
      requires kernel.Valid() && kernel.Running() && table.Valid() && S.Good(table.state) && machine.InUser()
      requires kernel.vm.buddy.bitmap != machine.x && |kernel.procs| == |machine.pages| == |table.tasks| - 1
      requires kernel.current == machine.current && table.state.current == kernel.current + 1
      requires OnePage(kernel.procs, machine.pages) && HaveStacks(machine.users)
      ensures Consistent()
    {}

    lemma Agreed()
      requires Consistent()
      ensures J.Agree(NowState()) && S.Ready(NowState().sched) && T.Proper(NowState().users)
      ensures NowState().users.current == kernel.current && kernel.current + 1 < TWO_64
      ensures |NowState().sched.slots| == |kernel.procs| + 1
    {
      hide T.Machine.InUser, P.Kernel.Valid, S.Good;
      T.InUserFacts(machine);
      S.TableFacts(table);
      P.ValidFacts(kernel);
    }

    lemma Beginning()
      requires Consistent() && log == [] && states == [NowState()] && Starts(kernel.boot.file, NowState())
      ensures Valid()
    {
      hide Os.Consistent, J.Agree, Starts;
      Agreed();
    }

    /** No object belongs to two of the three parts. */
    lemma Apart(child: T.TaskPage)
      requires kernel.vm.buddy.bitmap != machine.x
      ensures child as object !in kernel.Repr() && child as object !in {table, table.task}
      ensures forall t <- table.tasks :: t as object != child
      ensures table as object !in kernel.Repr() && table.task as object !in kernel.Repr()
      ensures machine as object !in kernel.Repr() && machine.x as object !in kernel.Repr()
      ensures forall t <- table.tasks :: t as object !in kernel.Repr()
      ensures forall p <- machine.pages :: p as object !in kernel.Repr()
    {}

    lemma ApartFromMachine()
      ensures machine as object !in {table, table.task} && machine.x as object !in {table, table.task}
      ensures forall t <- table.tasks :: t as object !in {machine, machine.x, kernel} && t as object !in machine.pages
      ensures forall p <- machine.pages :: p as object !in {table, table.task, kernel}
    {}

    /** The register side of a trap leaves the other two sides alone. */
    method TrapRegisters(scause: Word, next: Option<nat>, written: Word, child: T.TaskPage, junk: seq<Word>)
      requires kernel.vm.buddy.bitmap != machine.x && kernel.Valid() && table.Valid() && HaveStacks(machine.users)
      requires machine.InUser() && machine.x[T.SP] != 0 && |junk| == 32 && (next.Some? ==> next.value < |machine.pages|)
      requires scause == T.ECALL_FROM_U_MODE && machine.x[T.A7] == T.SYS_CLONE ==> machine.NewPage(child)
      modifies machine, machine.x, machine.pages, child
      ensures kernel.Valid() && kernel.Seen() == old(kernel.Seen()) && table.Valid() && machine.InUser()
      ensures HaveStacks(machine.users) && machine.users == T.Served(old(machine.users),
                T.Dispatched(scause, old(machine.x[T.A7]), old(machine.current) + 1, next, written))
      ensures T.Answered(old(T.Context(machine.x[..], machine.pc, machine.sstatus)), old(machine.users), machine.users,
                         scause, old(machine.current) + 1, next, written)
      ensures scause == T.ECALL_FROM_U_MODE && old(machine.x[T.A7]) == T.SYS_CLONE ==>
              machine.pages == old(machine.pages) + [child]
      ensures scause != T.ECALL_FROM_U_MODE || old(machine.x[T.A7]) != T.SYS_CLONE ==>
              machine.pages == old(machine.pages)
      ensures machine.current == machine.users.current < |machine.pages|
      ensures machine.sscratch == machine.pages[machine.current].Top()
    {
      hide Os.Consistent, Os.Agree, OnePage, P.Kernel.Valid, P.Kernel.Steady, P.Kernel.Seen, P.Kernel.Running,
           P.Kernel.Faulting, P.Kernel.HasArea, P.ForkFrames, S.TaskTable.Valid, S.Good, S.Tick, S.Forked,
           T.Machine.InUser, T.Machine.Back, T.Machine.NewPage, T.Served, T.Dispatched, T.Proper, HaveStacks,
           W.ForkStep, W.FaultStep;
      Apart(child);
      ApartFromMachine();
      T.InUserFacts(machine);
      TrapHasStacks(machine.users, scause, machine.x[T.A7], machine.current + 1, next, written);
      machine.UserTrap(scause, next, written, child, junk);
      T.InUserFacts(machine);
    }

    /** A timer interrupt of the running program: the policy decides who runs next,
        on its own address space, kernel stack and registers; no memory changes. */
    method TimerTrap(junk: seq<Word>)
      requires Consistent() && machine.x[T.SP] != 0 && |junk| == 32
      modifies table`current, table`state, table.tasks, kernel`current, kernel`satp, machine, machine.x, machine.pages
      ensures Consistent() && table.state == S.Tick(old(table.state))
      ensures kernel.Seen() == old(kernel.Seen()) && kernel.procs == old(kernel.procs)
      ensures kernel.history == old(kernel.history)
      ensures machine.users.current == table.state.current - 1
      ensures machine.users.contexts == T.Served(old(machine.users), T.Timer(None)).contexts
    {
      hide Os.Consistent, Os.Agree, OnePage, P.Kernel.Valid, P.Kernel.Steady, P.Kernel.Seen, P.Kernel.Running,
           P.Kernel.Faulting, P.Kernel.HasArea, P.ForkFrames, S.TaskTable.Valid, S.Good, S.Tick, S.Forked,
           T.Machine.InUser, T.Machine.NewPage, T.Served, T.Dispatched, W.ForkStep, W.FaultStep;
      Parts();
      T.InUserFacts(machine);
      Apart(machine.pages[0]);
      ApartFromMachine();
      ghost var u, id := machine.users, machine.x[T.A7];
      var next := PickNext();
      TrapRegisters(T.TIMER_INTR, next, 0, machine.pages[0], junk);
      T.DispatchedAs(id, u.current + 1, next, 0, u);
      Whole();
    }

    /** `do_timer`, with `switch_to` where it is called. */
    method PickNext() returns (next: Option<nat>)
      requires Consistent()
      modifies table`current, table`state, table.tasks, kernel`current, kernel`satp
      ensures kernel.Valid() && kernel.Running() && table.Valid() && S.Good(table.state) && machine.InUser()
      ensures table.state == S.Tick(old(table.state)) && table.tasks == old(table.tasks)
      ensures table.state.current - 1 == kernel.current ==
              (if next.Some? then next.value else machine.current) < |machine.pages|
      ensures kernel.Seen() == old(kernel.Seen()) && kernel.procs == old(kernel.procs)
    {
      hide Os.Consistent, Os.Agree, OnePage, P.Kernel.Valid, P.Kernel.Steady, P.Kernel.Seen, P.Kernel.Running,
           P.Kernel.Faulting, P.Kernel.HasArea, P.ForkFrames, S.TaskTable.Valid, S.Good, S.Tick, S.Forked,
           T.Machine.InUser, T.Machine.NewPage, T.Served, T.Dispatched, W.ForkStep, W.FaultStep;
      Parts();
      T.InUserFacts(machine);
      Apart(machine.pages[0]);
      ApartFromMachine();
      P.ValidFacts(kernel);
      S.TableFacts(table);
      S.TickGood(table.state);
      S.TickKeepsRunning(table.state);
      var scheduled := table.current.counter <= 1;
      table.DoTimer();
      S.TableFacts(table);
      next := None;
      if scheduled {
        next := Some(table.current.pid - 1);
        kernel.SwitchTo(next.value);
      }
    }

    /** A page fault of the running program at an address of one of its areas: the
        page is mapped with its initial contents, and the program's registers are
        as before, t0 aside. False when no area contains the address. */
    method FaultTrap(scause: Word, addr: Word, junk: seq<Word>) returns (handled: bool, ghost added: map<nat, nat>)
      requires Consistent() && machine.x[T.SP] != 0 && |junk| == 32
      requires scause in {12, 13, 15}
      requires kernel.Faulting(addr)
      modifies kernel.vm.Repr(), kernel`history, machine, machine.x, machine.pages
      ensures handled == kernel.HasArea(addr) == old(kernel.HasArea(addr))
      ensures handled ==>
              Consistent() && W.FaultStep(kernel.boot.file, old(kernel.Seen()), kernel.Seen(), kernel.current, added)
      ensures handled ==> addr / 0x1000 in added && machine.users == T.Served(old(machine.users), T.Trap.Fault)
      ensures handled ==> kernel.history == old(kernel.history) + [W.MemoryEvent.Fault(kernel.current)]
      ensures handled ==> table.state == old(table.state)
      ensures !handled ==> NowState() == old(NowState())
    {
      hide Os.Consistent, Os.Agree, OnePage, P.Kernel.Valid, P.Kernel.Steady, P.Kernel.Seen, P.Kernel.Running,
           P.Kernel.Faulting, P.Kernel.HasArea, P.ForkFrames, S.TaskTable.Valid, S.Good, S.Tick, S.Forked,
           T.Machine.InUser, T.Machine.NewPage, T.Served, T.Dispatched, W.ForkStep, W.FaultStep;
      Parts();
      handled, added := FaultMemory(addr);
      if handled {
        FaultRegisters(scause, junk);
        Whole();
      }
    }

    /** Its register side. */
    method FaultRegisters(scause: Word, junk: seq<Word>)
      requires kernel.vm.buddy.bitmap != machine.x && kernel.Valid() && table.Valid() && HaveStacks(machine.users)
      requires machine.InUser() && machine.x[T.SP] != 0 && |junk| == 32
      requires scause in {12, 13, 15}
      modifies machine, machine.x, machine.pages
      ensures kernel.Valid() && kernel.Seen() == old(kernel.Seen()) && table.Valid() && machine.InUser()
      ensures HaveStacks(machine.users) && machine.users == T.Served(old(machine.users), T.Trap.Fault)
      ensures machine.pages == old(machine.pages) && machine.current == old(machine.current)
    {
      hide P.Kernel.Valid, P.Kernel.Seen, S.TaskTable.Valid, T.Machine.InUser, T.Served, T.Dispatched, HaveStacks;
      T.InUserFacts(machine);
      ghost var u, id := machine.users, machine.x[T.A7];
      TrapRegisters(scause, None, 0, machine.pages[0], junk);
      T.DispatchedAs(id, u.current + 1, None, 0, u);
    }

    /** Its memory side. */
    method FaultMemory(addr: Word) returns (handled: bool, ghost added: map<nat, nat>)
      requires Consistent() && kernel.Faulting(addr)
      modifies kernel.vm.Repr(), kernel`history
      ensures handled == kernel.HasArea(addr) == old(kernel.HasArea(addr))
      ensures kernel.Valid() && kernel.Running() && table.Valid() && S.Good(table.state) && machine.InUser()
      ensures handled ==>
                && addr / 0x1000 in added &&
                   kernel.history == old(kernel.history) + [W.MemoryEvent.Fault(kernel.current)]
                && W.FaultStep(kernel.boot.file, old(kernel.Seen()), kernel.Seen(), kernel.current, added)
      ensures !handled ==> kernel.Seen() == old(kernel.Seen())
    {
      hide Os.Consistent, OnePage, P.Kernel.Valid, P.Kernel.Steady, P.Kernel.Seen, P.Kernel.Faulting, P.Kernel.HasArea,
           S.TaskTable.Valid, S.Good, T.Machine.InUser, W.FaultStep, HaveStacks, P.BroughtIn, P.FirstArea, P.Keeps;
      Parts();
      T.InUserFacts(machine);
      Apart(machine.pages[0]);
      handled, added := kernel.DoPageFault(addr);
    }

    /** A fork by the running program, as a whole. The child is a new task in the
        next slot with the parent's counter; its address space has the parent's
        areas and fresh equal copies of the parent's mapped pages; it resumes behind
        the ecall with the parent's registers but a0 = 0, on its own kernel stack,
        and runs at once. The parent will see its own pid. */
    method ForkTrap(random: Word, junk: seq<Word>) returns (ghost copies: map<nat, nat>)
      requires Consistent() && machine.x[T.SP] != 0 && machine.x[T.A7] == T.SYS_CLONE && |junk| == 32
      requires |kernel.procs| < NR_TASKS - 1
      requires kernel.vm.FreePages() >= 2 + P.ForkFrames(kernel.Seen().spaces[kernel.current].pages.Keys)
      modifies kernel.Repr(), table, table.task, machine, machine.x, machine.pages
      ensures Consistent() && kernel.current == |old(kernel.procs)|
      ensures W.ForkStep(old(kernel.Seen()), kernel.Seen(), old(kernel.current), copies)
      ensures table.state == S.Forked(old(table.state), random % 10 + 1)
      ensures old(table.state.current < |table.state.slots|) && table.state.slots ==
              old(table.state.slots + [S.Slot(table.state.slots[table.state.current].counter, random % 10 + 1)])
      ensures machine.users == T.Served(old(machine.users), T.Fork(old(kernel.current) + 1))
      ensures T.Answered(old(T.Context(machine.x[..], machine.pc, machine.sstatus)), old(machine.users), machine.users,
                         8, old(machine.current) + 1, None, 0)
      ensures kernel.history == old(kernel.history) + [W.MemoryEvent.Fork(old(kernel.current))]
      ensures machine.sscratch == machine.pages[kernel.current].Top()
    {
      hide Os.Consistent, Os.Agree, OnePage, P.Kernel.Valid, P.Kernel.Steady, P.Kernel.Seen, P.Kernel.Running,
           P.Kernel.Faulting, P.Kernel.HasArea, P.ForkFrames, S.TaskTable.Valid, S.Good, S.Tick, S.Forked,
           T.Machine.InUser, T.Machine.NewPage, T.Served, T.Dispatched, T.Answered, W.ForkStep, W.FaultStep;
      Parts();
      T.InUserFacts(machine);
      ghost var procs, pages := kernel.procs, machine.pages;
      var child;
      child, copies := ForkTask(random);
      ForkRegisters(child, junk);
      OneMorePage(procs, pages, kernel.procs, machine.pages);
      Whole();
    }

    /** Its registers. */
    method ForkRegisters(child: T.TaskPage, junk: seq<Word>)
      requires kernel.vm.buddy.bitmap != machine.x && kernel.Valid() && table.Valid() && HaveStacks(machine.users)
      requires machine.InUser() && machine.x[T.SP] != 0 && machine.x[T.A7] == T.SYS_CLONE && |junk| == 32
      requires machine.NewPage(child) && machine.current + 1 < TWO_64
      modifies machine, machine.x, machine.pages, child
      ensures kernel.Valid() && kernel.Seen() == old(kernel.Seen()) && table.Valid() && machine.InUser()
      ensures HaveStacks(machine.users)
      ensures machine.users == T.Served(old(machine.users), T.Fork(old(machine.current) + 1))
      ensures T.Answered(old(T.Context(machine.x[..], machine.pc, machine.sstatus)), old(machine.users), machine.users,
                         8, old(machine.current) + 1, None, 0)
      ensures machine.pages == old(machine.pages) + [child] && machine.current == |old(machine.pages)|
      ensures machine.sscratch == machine.pages[machine.current].Top()
    {
      hide P.Kernel.Valid, P.Kernel.Seen, S.TaskTable.Valid, T.Machine.InUser, T.Machine.NewPage, T.Served,
           T.Dispatched, T.Answered, HaveStacks;
      T.InUserFacts(machine);
      ghost var u := machine.users;
      TrapRegisters(T.ECALL_FROM_U_MODE, None, 0, child, junk);
      T.DispatchedAs(T.SYS_CLONE, u.current + 1, None, 0, u);
    }

    /** Its memory and its slot. */
    method ForkTask(random: Word) returns (child: T.TaskPage, ghost copies: map<nat, nat>)
      requires Consistent() && |kernel.procs| < NR_TASKS - 1
      requires kernel.vm.FreePages() >= 2 + P.ForkFrames(kernel.Seen().spaces[kernel.current].pages.Keys)
      modifies kernel.Repr(), table, table.task
      ensures kernel.Valid() && kernel.Running() && table.Valid() && S.Good(table.state) && machine.InUser()
      ensures kernel.current == |old(kernel.procs)| == |kernel.procs| - 1
      ensures kernel.procs[..kernel.current] == old(kernel.procs)
      ensures W.ForkStep(old(kernel.Seen()), kernel.Seen(), old(kernel.current), copies)
      ensures kernel.history == old(kernel.history) + [W.MemoryEvent.Fork(old(kernel.current))]
      ensures table.state == S.Forked(old(table.state), random % 10 + 1) && |table.tasks| == |old(table.tasks)| + 1
      ensures old(table.state.current < |table.state.slots|) && table.state.slots ==
              old(table.state.slots + [S.Slot(table.state.slots[table.state.current].counter, random % 10 + 1)])
      ensures table.state.current == |table.tasks| - 1
      ensures kernel.procs[kernel.current].page < FRAMES && child.base == Kva(kernel.procs[kernel.current].page)
      ensures fresh(child) && machine.NewPage(child)
    {
      hide Os.Consistent, Os.Agree, OnePage, P.Kernel.Valid, P.Kernel.Steady, P.Kernel.Seen, P.Kernel.Running,
           P.Kernel.Faulting, P.Kernel.HasArea, P.ForkFrames, S.TaskTable.Valid, S.Good, S.Tick, S.Forked,
           T.Machine.InUser, T.Machine.NewPage, T.Served, T.Dispatched, W.ForkStep, W.FaultStep;
      Parts();
      ForkSlot(random);
      child, copies := ForkMemory();
    }

    /** Its slot. */
    method ForkSlot(random: Word)
      requires Consistent() && |kernel.procs| < NR_TASKS - 1
      modifies table, table.task
      ensures table.Valid() && S.Good(table.state) && table.state == S.Forked(old(table.state), random % 10 + 1)
      ensures old(table.state.current < |table.state.slots|) && table.state.slots ==
              old(table.state.slots + [S.Slot(table.state.slots[table.state.current].counter, random % 10 + 1)])
      ensures |table.tasks| == |old(table.tasks)| + 1 && table.state.current == |table.tasks| - 1
      ensures kernel.Valid() && kernel.Running() && kernel.Seen() == old(kernel.Seen()) && machine.InUser()
      ensures kernel.history == old(kernel.history)
    {
      hide Os.Consistent, Os.Agree, OnePage, P.Kernel.Valid, P.Kernel.Seen, P.Kernel.Running, S.TaskTable.Valid, S.Good,
           S.Forked, T.Machine.InUser;
      Parts();
      T.InUserFacts(machine);
      Apart(machine.pages[0]);
      ApartFromMachine();
      S.TableFacts(table);
      S.ForkGood(table.state, random % 10 + 1);
      var pid := table.Fork(random);
    }

    /** Its memory, and the page it lives in. */
    method ForkMemory() returns (child: T.TaskPage, ghost copies: map<nat, nat>)
      requires kernel.Valid() && kernel.Running() && |kernel.procs| < NR_TASKS - 1
      requires OnePage(kernel.procs, machine.pages) && table.Valid() && machine.InUser()
      requires kernel.vm.buddy.bitmap != machine.x
      requires kernel.vm.FreePages() >= 2 + P.ForkFrames(kernel.Seen().spaces[kernel.current].pages.Keys)
      modifies kernel.Repr()
      ensures table.Valid() && table.state == old(table.state) && machine.InUser()
      ensures kernel.Valid() && kernel.Running() && kernel.current == |old(kernel.procs)| == |kernel.procs| - 1
      ensures kernel.procs[..kernel.current] == old(kernel.procs)
      ensures W.ForkStep(old(kernel.Seen()), kernel.Seen(), old(kernel.current), copies)
      ensures kernel.history == old(kernel.history) + [W.MemoryEvent.Fork(old(kernel.current))]
      ensures kernel.procs[kernel.current].page < FRAMES && child.base == Kva(kernel.procs[kernel.current].page)
      ensures fresh(child) && machine.NewPage(child)
    {
      hide Os.Consistent, Os.Agree, OnePage, P.Kernel.Valid, P.Kernel.Steady, P.Kernel.Seen, P.Kernel.Running,
           P.Kernel.Faulting, P.Kernel.HasArea, P.ForkFrames, S.TaskTable.Valid, S.Good, S.Tick, S.Forked,
           T.Machine.InUser, T.Machine.NewPage, T.Served, T.Dispatched, W.ForkStep, W.FaultStep;
      T.InUserFacts(machine);
      Apart(machine.pages[0]);
      copies := kernel.SysFork();
      P.ValidFacts(kernel);
      P.SteadyFacts(kernel);
      Spaces.TaskPagesApart(kernel.vm.Now(), kernel.boot, kernel.procs);
      PageAddressRoundTrip(kernel.procs[kernel.current].page, 0);
      child := new T.TaskPage(Kva(kernel.procs[kernel.current].page));
      PageIsNew(kernel.procs, child);
    }

    lemma PageIsNew(procs: seq<Spaces.Proc>, child: T.TaskPage)
      requires 0 < |procs| < NR_TASKS && OnePage(procs[..|procs| - 1], machine.pages) && child !in machine.pages
      requires forall i: nat, j: nat :: i < |procs| && j < |procs| && procs[i].page == procs[j].page ==> i == j
      requires procs[|procs| - 1].page < FRAMES && child.base == Kva(procs[|procs| - 1].page)
      ensures machine.NewPage(child)
    {
      PageAddressRoundTrip(procs[|procs| - 1].page, 0);
      assert child.base == VM_START + 0x1000 * procs[|procs| - 1].page;
      forall i: nat | i < |machine.pages| ensures machine.pages[i].base != child.base {
        assert procs[..|procs| - 1][i] == procs[i];
      }
    }

    lemma Outside()
      ensures this as object !in kernel.Repr() && this as object !in {table, table.task, machine, machine.x}
      ensures (forall t <- table.tasks :: t as object != this) && forall p <- machine.pages :: p as object != this
    {}

    /** What every run of the system from the first program's start on has
        guaranteed so far. Memory: what the programs see is the eager reference, and
        every load got its byte. Scheduling: from any point on, no program was kept
        waiting. Registers: whoever trapped and ran again found them. */
    lemma RunSinceBoot()
      requires Valid()
      ensures P.ElfShaped(kernel.boot.file)
      ensures var file := kernel.boot.file; var ps := [W.Eager(P.ProgramAreas(file), map[])];
              && |states| == |log| + 1
              && W.Sound(kernel.Seen()) && W.Refines(file, kernel.Seen(), J.EagerAfter(ps, states, log, |log|))
              && forall m: nat :: m < |log| && log[m].Loads? ==>
                   W.ReadsReference(file, W.Read(states[m].users.current, log[m].a, log[m].b),
                                    J.EagerAfter(ps, states, log, m))
      ensures forall p: nat, i: nat :: p <= |log| && J.Long(states[p], log[p..], i) ==>
                exists m :: p <= m <= |log| && states[m].users.current == i
      ensures forall k: nat, m: nat, t: T.Trap ::
                k < m <= |log| && J.TrapsBy(states[k], log[k], states[k + 1], t) && J.Away(states, k, m) ==>
                J.KeepsRegisters(states, k, m, t)
    {
      hide Os.Consistent, W.Sound, W.Refines, W.ReadsReference, J.Step, J.Long, J.TrapsBy, J.Away, J.KeepsRegisters,
           J.EagerAfter, S.Ready, P.ProgramAreas, P.ElfShaped, P.Kernel.Seen;
      var file := kernel.boot.file;
      var areas := P.ProgramAreas(file);
      StartRefines(file, areas);
      J.MemoryAlong(file, states, log, [W.Eager(areas, map[])], |log|);
      forall p: nat, i: nat | p <= |log| && J.Long(states[p], log[p..], i)
        ensures exists m :: p <= m <= |log| && states[m].users.current == i
      {
        J.NobodyWaitsLong(file, states, log, p, i);
      }
      forall k: nat, m: nat, t: T.Trap
        | k < m <= |log| && J.TrapsBy(states[k], log[k], states[k + 1], t) && J.Away(states, k, m)
        ensures J.KeepsRegisters(states, k, m, t)
      {
        J.RegistersAlong(file, states, log, k, m, t);
      }
    }

    // ---- deeds -------------------------------------------------------------------

    ghost method Log(before: J.State, d: J.Deed)
      requires Consistent() && J.IsRun(kernel.boot.file, states, log) && states[|log|] == before
      requires Starts(kernel.boot.file, states[0]) && J.Step(kernel.boot.file, before, d, NowState())
      modifies this`states, this`log
      ensures Valid() && log == old(log) + [d] && states == old(states) + [NowState()] && NowState() == old(NowState())
    {
      hide Os.Consistent, Starts, J.Step, J.Agree;
      Outside();
      states, log := states + [NowState()], log + [d];
    }

    /** The running program executes on its registers. */
    method Execute(newX: seq<Word>, newPc: Word)
      requires Valid() && |newX| == 32 && newX[0] == 0
      modifies this`states, this`log, machine, machine.x
      ensures Valid() && log == old(log) + [J.Executes(newX, newPc)]
    {
      hide Os.Consistent, OnePage, Starts, HaveStacks, J.Step, J.Agree, P.Kernel.Valid, P.Kernel.Running, P.Kernel.Seen,
           P.Kernel.Steady, P.Kernel.Faulting, P.Kernel.HasArea, P.ForkFrames, P.Servable, S.TaskTable.Valid, S.Tick,
           S.Forked, S.Ready, S.Good, T.Machine.InUser, T.Served, T.Dispatched, T.Proper, W.Next, W.FaultStep,
           W.ForkStep, W.WriteStep, W.Present, W.Reachable;
      ghost var before := NowState();
      Agreed();
      ExecuteRegisters(newX, newPc);
      Agreed();
      ExecuteMoves(kernel.boot.file, before, NowState(), newX, newPc);
      Log(before, J.Executes(newX, newPc));
    }

    method ExecuteRegisters(newX: seq<Word>, newPc: Word)
      requires Consistent() && |newX| == 32 && newX[0] == 0
      modifies machine, machine.x
      ensures Consistent() && kernel.Seen() == old(kernel.Seen()) && table.state == old(table.state)
      ensures T.ProgramStep(old(machine.users), T.Runs(newX, newPc), machine.users)
    {
      hide Os.Consistent, Os.Agree, OnePage, P.Kernel.Valid, P.Kernel.Seen, P.Kernel.Running, S.TaskTable.Valid, S.Good,
           T.Machine.InUser;
      Parts();
      T.InUserFacts(machine);
      Apart(machine.pages[0]);
      ApartFromMachine();
      machine.UserRuns(newX, newPc);
      T.InUserFacts(machine);
      Whole();
    }

    /** A timer interrupt. */
    method Tick(junk: seq<Word>)
      requires Valid() && machine.x[T.SP] != 0 && |junk| == 32
      modifies this`states, this`log
      modifies table`current, table`state, table.tasks, kernel`current, kernel`satp, machine, machine.x, machine.pages
      ensures Valid() && log == old(log) + [J.Ticks]
    {
      hide Os.Consistent, OnePage, Starts, HaveStacks, J.Step, J.Agree, P.Kernel.Valid, P.Kernel.Running, P.Kernel.Seen,
           P.Kernel.Steady, P.Kernel.Faulting, P.Kernel.HasArea, P.ForkFrames, P.Servable, S.TaskTable.Valid, S.Tick,
           S.Forked, S.Ready, S.Good, T.Machine.InUser, T.Served, T.Dispatched, T.Proper, W.Next, W.FaultStep,
           W.ForkStep, W.WriteStep, W.Present, W.Reachable;
      ghost var before := NowState();
      Agreed();
      TimerTrap(junk);
      Agreed();
      TickMoves(before, NowState());
      Log(before, J.Ticks);
    }

    /** A page fault at an address of one of its areas; with no area the kernel
        halts. */
    method Fault(scause: Word, addr: Word, junk: seq<Word>) returns (handled: bool)
      requires Valid() && machine.x[T.SP] != 0 && |junk| == 32
      requires scause in {12, 13, 15}
      requires kernel.Faulting(addr)
      modifies this`states, this`log, kernel.vm.Repr(), kernel`history, machine, machine.x, machine.pages
      ensures handled == kernel.HasArea(addr) == old(kernel.HasArea(addr))
      ensures handled ==>
                && Valid() && log == old(log) + [J.Faults] && kernel.current == old(kernel.current)
                && W.Present(kernel.Seen(), kernel.current, addr)
      ensures !handled ==> log == old(log) && NowState() == old(NowState())
    {
      hide Os.Consistent, OnePage, Starts, HaveStacks, J.Step, J.Agree, P.Kernel.Valid, P.Kernel.Running, P.Kernel.Seen,
           P.Kernel.Steady, P.Kernel.Faulting, P.Kernel.HasArea, P.ForkFrames, P.Servable, S.TaskTable.Valid, S.Tick,
           S.Forked, S.Ready, S.Good, T.Machine.InUser, T.Served, T.Dispatched, T.Proper, W.Next, W.FaultStep,
           W.ForkStep, W.WriteStep, W.Present, W.Reachable;
      ghost var before := NowState();
      Agreed();
      ghost var added;
      handled, added := FaultTrap(scause, addr, junk);
      if handled {
        Agreed();
        FaultMoves(kernel.boot.file, before, NowState(), added, addr);
        Log(before, J.Faults);
      }
    }

    /** A system call other than fork; what write returns is a parameter. */
    method Call(written: Word, junk: seq<Word>)
      requires Valid() && machine.x[T.SP] != 0 && machine.x[17] != 220 && |junk| == 32
      modifies this`states, this`log, machine, machine.x, machine.pages
      ensures Valid()
      ensures var id := old(machine.x[17]);
              machine.x[10] == if id == 172 then old(machine.current) + 1 else if id == 64 then written
                               else old(machine.x[10])
      ensures machine.pc == (old(machine.pc) + 4) % 0x1_0000_0000_0000_0000
      ensures var id, pid := old(machine.x[T.A7]), old(machine.current) + 1;
              pid < TWO_64 && log == old(log) + [J.Calls(Result(id, pid, written))]
    {
      hide Os.Consistent, OnePage, Starts, HaveStacks, J.Step, J.Agree, P.Kernel.Valid, P.Kernel.Running, P.Kernel.Seen,
           P.Kernel.Steady, P.Kernel.Faulting, P.Kernel.HasArea, P.ForkFrames, P.Servable, S.TaskTable.Valid, S.Tick,
           S.Forked, S.Ready, S.Good, T.Machine.InUser, T.Served, T.Dispatched, T.Proper, W.Next, W.FaultStep,
           W.ForkStep, W.WriteStep, W.Present, W.Reachable;
      Agreed();
      Parts();
      T.InUserFacts(machine);
      ghost var before, id, pid := NowState(), machine.x[T.A7], machine.current + 1;
      CallTrap(written, junk);
      Agreed();
      CallMoves(kernel.boot.file, before, NowState(), id, pid, written);
      Log(before, J.Calls(Result(id, pid, written)));
    }

    method CallTrap(written: Word, junk: seq<Word>)
      requires Consistent() && machine.x[T.SP] != 0 && machine.x[17] != 220 && |junk| == 32
      modifies machine, machine.x, machine.pages
      ensures Consistent() && kernel.Seen() == old(kernel.Seen()) && table.state == old(table.state)
      ensures var id := old(machine.x[17]);
              machine.x[10] == if id == 172 then old(machine.current) + 1 else if id == 64 then written
                               else old(machine.x[10])
      ensures machine.pc == (old(machine.pc) + 4) % 0x1_0000_0000_0000_0000
      ensures machine.users == T.Served(old(machine.users), T.Dispatched(T.ECALL_FROM_U_MODE, old(machine.x[T.A7]),
                                                                         old(machine.current) + 1, None, written))
    {
      hide Os.Consistent, Os.Agree, OnePage, P.Kernel.Valid, P.Kernel.Seen, P.Kernel.Running, S.TaskTable.Valid, S.Good,
           T.Machine.InUser, T.Machine.NewPage, T.Served, T.Dispatched, HaveStacks;
      Parts();
      T.InUserFacts(machine);
      Apart(machine.pages[0]);
      ghost var u, id, pid := machine.users, machine.x[T.A7], machine.current + 1;
      TrapRegisters(T.ECALL_FROM_U_MODE, None, written, machine.pages[0], junk);
      CallKeepsTask(u, id, pid, written);
      T.InUserFacts(machine);
      Whole();
    }

    /** The running program loads a byte. Its page is brought in if it is absent;
        with no area for the address the kernel halts. */
    method Load(a: Word, junk: seq<Word>) returns (b: Option<Byte>)
      requires Valid() && machine.x[T.SP] != 0 && |junk| == 32
      requires kernel.Running() && P.Servable(kernel.vm, kernel.Seen(), kernel.current, a)
      modifies this`states, this`log, kernel.vm.Repr(), kernel`history, machine, machine.x, machine.pages
      ensures b.Some? <==> W.Reachable(old(kernel.Seen()), old(kernel.current), a)
      ensures b.Some? ==> Valid() && log == old(log) + FaultFor(old(NowState()), a) + [J.Loads(a, b.value)]
    {
      hide Os.Consistent, OnePage, Starts, HaveStacks, J.Step, J.Agree, P.Kernel.Valid, P.Kernel.Running, P.Kernel.Seen,
           P.Kernel.Steady, P.Kernel.Faulting, P.Kernel.HasArea, P.ForkFrames, P.Servable, S.TaskTable.Valid, S.Tick,
           S.Forked, S.Ready, S.Good, T.Machine.InUser, T.Served, T.Dispatched, T.Proper, W.Next, W.FaultStep,
           W.ForkStep, W.WriteStep, W.Present, W.Reachable;
      Agreed();
      Parts();
      FaultingIff(a);
      assert forall o <- kernel.Repr() :: allocated(o);
      assert (forall o <- table.tasks :: allocated(o)) && forall o <- machine.pages :: allocated(o);
      var hit := kernel.Hits(a, PTE_R);
      if !hit {
        hit := Fault(T.LOAD_PAGE_FAULT, a, junk);
        if !hit { return None; }
      }
      var byte := LoadHere(a);
      b := Some(byte);
    }

    /** The load instruction, when the page is there. */
    method LoadHere(a: Word) returns (b: Byte)
      requires Valid() && W.Present(kernel.Seen(), kernel.current, a)
      modifies this`states, this`log, kernel`history
      ensures Valid() && log == old(log) + [J.Loads(a, b)]
    {
      hide Os.Consistent, OnePage, Starts, HaveStacks, J.Step, J.Agree, P.Kernel.Valid, P.Kernel.Running, P.Kernel.Seen,
           P.Kernel.Steady, P.Kernel.Faulting, P.Kernel.HasArea, P.ForkFrames, P.Servable, S.TaskTable.Valid, S.Tick,
           S.Forked, S.Ready, S.Good, T.Machine.InUser, T.Served, T.Dispatched, T.Proper, W.Next, W.FaultStep,
           W.ForkStep, W.WriteStep, W.Present, W.Reachable;
      ghost var before := NowState();
      Agreed();
      Parts();
      b := kernel.LoadPresent(a);
      Whole();
      LoadMoves(kernel.boot.file, before, a, b);
      Log(before, J.Loads(a, b));
    }

    /** The running program stores a byte. */
    method Store(a: Word, v: Byte, junk: seq<Word>) returns (ok: bool)
      requires Valid() && machine.x[T.SP] != 0 && |junk| == 32
      requires kernel.Running() && P.Servable(kernel.vm, kernel.Seen(), kernel.current, a)
      modifies this`states, this`log, kernel.vm.Repr(), kernel`history, machine, machine.x, machine.pages
      ensures ok <==> W.Reachable(old(kernel.Seen()), old(kernel.current), a)
      ensures ok ==> Valid() && log == old(log) + FaultFor(old(NowState()), a) + [J.Stores(a, v)]
    {
      hide Os.Consistent, OnePage, Starts, HaveStacks, J.Step, J.Agree, P.Kernel.Valid, P.Kernel.Running, P.Kernel.Seen,
           P.Kernel.Steady, P.Kernel.Faulting, P.Kernel.HasArea, P.ForkFrames, P.Servable, S.TaskTable.Valid, S.Tick,
           S.Forked, S.Ready, S.Good, T.Machine.InUser, T.Served, T.Dispatched, T.Proper, W.Next, W.FaultStep,
           W.ForkStep, W.WriteStep, W.Present, W.Reachable;
      Agreed();
      Parts();
      FaultingIff(a);
      assert forall o <- kernel.Repr() :: allocated(o);
      assert (forall o <- table.tasks :: allocated(o)) && forall o <- machine.pages :: allocated(o);
      ok := kernel.Hits(a, PTE_W);
      if !ok {
        ok := Fault(T.STORE_PAGE_FAULT, a, junk);
        if !ok { return; }
      }
      StoreHere(a, v);
    }

    /** The store instruction, when the page is there. */
    method StoreHere(a: Word, v: Byte)
      requires Valid() && W.Present(kernel.Seen(), kernel.current, a)
      modifies this`states, this`log, kernel.vm.Repr(), kernel`history
      ensures Valid() && log == old(log) + [J.Stores(a, v)]
    {
      hide Os.Consistent, OnePage, Starts, HaveStacks, J.Step, J.Agree, P.Kernel.Valid, P.Kernel.Running, P.Kernel.Seen,
           P.Kernel.Steady, P.Kernel.Faulting, P.Kernel.HasArea, P.ForkFrames, P.Servable, S.TaskTable.Valid, S.Tick,
           S.Forked, S.Ready, S.Good, T.Machine.InUser, T.Served, T.Dispatched, T.Proper, W.Next, W.FaultStep,
           W.ForkStep, W.WriteStep, W.Present, W.Reachable;
      ghost var before := NowState();
      Agreed();
      Parts();
      StoreMemory(a, v);
      Agreed();
      StoreMoves(kernel.boot.file, before, NowState(), a, v);
      Log(before, J.Stores(a, v));
    }

    method StoreMemory(a: Word, v: Byte)
      requires Consistent() && W.Present(kernel.Seen(), kernel.current, a)
      modifies kernel.vm.Repr(), kernel`history
      ensures Consistent() && table.state == old(table.state) && machine.users == old(machine.users)
      ensures W.WriteStep(old(kernel.Seen()), kernel.Seen(), kernel.current, a, v)
    {
      hide Os.Consistent, OnePage, P.Kernel.Valid, P.Kernel.Steady, P.Kernel.Seen, P.Kernel.Running, S.TaskTable.Valid,
           S.Good, T.Machine.InUser, W.WriteStep, W.Present, HaveStacks;
      Parts();
      T.InUserFacts(machine);
      Apart(machine.pages[0]);
      kernel.StorePresent(a, v);
      Whole();
    }

    lemma FaultingIff(a: Word)
      requires kernel.Valid() && kernel.Running() && P.Servable(kernel.vm, kernel.Seen(), kernel.current, a)
      ensures !W.Present(kernel.Seen(), kernel.current, a) ==> kernel.Faulting(a)
      ensures W.Reachable(kernel.Seen(), kernel.current, a) <==>
              W.Present(kernel.Seen(), kernel.current, a) || kernel.HasArea(a)
    {
      hide P.FaultRoom;
    }

    /** The running program forks. */
    method Fork(random: Word, junk: seq<Word>)
      requires Valid() && machine.x[T.SP] != 0 && machine.x[T.A7] == T.SYS_CLONE && |junk| == 32
      requires |kernel.procs| < NR_TASKS - 1
      requires kernel.vm.FreePages() >= 2 + P.ForkFrames(kernel.Seen().spaces[kernel.current].pages.Keys)
      modifies this`states, this`log, kernel.Repr(), table, table.task, machine, machine.x, machine.pages
      ensures Valid() && log == old(log) + [J.Forks(random % 10 + 1)]
      ensures old(table.state.current < |table.state.slots|) && table.state.slots ==
              old(table.state.slots + [S.Slot(table.state.slots[table.state.current].counter, random % 10 + 1)])
    {
      hide Os.Consistent, OnePage, Starts, HaveStacks, J.Step, J.Agree, P.Kernel.Valid, P.Kernel.Running, P.Kernel.Seen,
           P.Kernel.Steady, P.Kernel.Faulting, P.Kernel.HasArea, P.ForkFrames, P.Servable, S.TaskTable.Valid, S.Tick,
           S.Forked, S.Ready, S.Good, T.Machine.InUser, T.Served, T.Dispatched, T.Proper, W.Next, W.FaultStep,
           W.ForkStep, W.WriteStep, W.Present, W.Reachable;
      ghost var before := NowState();
      Agreed();
      Parts();
      ghost var copies := ForkTrap(random, junk);
      Agreed();
      ForkMoves(kernel.boot.file, before, NowState(), random % 10 + 1, copies);
      Log(before, J.Forks(random % 10 + 1));
    }
  }

  /** From the boot image to the first instruction of the first program. */
  method Boot(ram: Memory.Ram, ekernel: Word, kroot: nat, uapp: Word, etext: Word, erodata: Word, random: Word,
              timerDepth: int, forkDepth: int, ghost boot: Spaces.Boot) returns (os: Os)
    requires P.BootImage(ram, ekernel, kroot, uapp, etext, erodata, boot)
    modifies ram, ram.words
    ensures os.Valid() && os.log == [] && os.kernel.boot == boot && |os.kernel.procs| == 1
    ensures os.kernel.history == [W.MemoryEvent.Spawn(P.ProgramAreas(boot.file))]
    ensures os.table.state == S.Sched([S.Slot(0, 0), S.Slot(random % 10 + 1, random % 10 + 1)], 1)
    ensures os.machine.pc == P.FileWord(boot.file, 24, 8) && os.machine.x[T.SP] == USER_END
  {
    hide OnePage, Os.Valid, P.BootImage, P.Kernel.Valid, P.Kernel.Seen, P.Kernel.Running, P.FileWord, P.ProgramAreas,
         S.TaskTable.Valid, S.Good, T.Machine.InUser;
    var kernel, entry := StartMemory(ram, ekernel, kroot, uapp, etext, erodata, boot);
    assert forall o <- kernel.Repr() :: allocated(o);
    var table := StartTable(random);
    var machine := StartMachine(kernel.procs[0].page, entry, timerDepth, forkDepth);
    os := new Os(kernel, table, machine);
    FirstPage(kernel.procs, machine.pages);
    os.Whole();
    os.Beginning();
  }

  /** The memory side, and the program's entry point. */
  method StartMemory(ram: Memory.Ram, ekernel: Word, kroot: nat, uapp: Word, etext: Word, erodata: Word,
                     ghost boot: Spaces.Boot) returns (kernel: P.Kernel, entry: Word)
    requires P.BootImage(ram, ekernel, kroot, uapp, etext, erodata, boot)
    modifies ram, ram.words
    ensures kernel.Valid() && kernel.Running() && kernel.boot == boot && |kernel.procs| == 1 && kernel.current == 0
    ensures kernel.history == [W.MemoryEvent.Spawn(P.ProgramAreas(boot.file))] && P.ElfShaped(boot.file)
    ensures W.PagesDisjoint(P.ProgramAreas(boot.file))
    ensures kernel.Seen() == W.Spawned(W.NoWorld(), P.ProgramAreas(boot.file))
    ensures kernel.procs[0].page < FRAMES && |boot.file| >= 64 && entry == P.FileWord(boot.file, 24, 8)
  {
    hide P.BootImage, P.BootRam, P.ImageIn, P.AreasOK, P.ElfShaped, Memory.Ram.Valid, P.BootPages,
         P.ProgramAreas, P.FileWord, P.Kernel.Valid, P.Kernel.Steady, P.Kernel.Seen, P.Kernel.Running;
    P.BootFacts(ram, ekernel, kroot, uapp, etext, erodata, boot);
    P.HeaderFields(boot.file);
    kernel := P.StartKernel(ram, ekernel, kroot, uapp, etext, erodata, boot);
    P.ValidFacts(kernel);
    P.SteadyFacts(kernel);
    Spaces.TaskPagesApart(kernel.vm.Now(), boot, kernel.procs);
    assert forall o <- kernel.Repr() :: allocated(o);
    entry := kernel.ReadField(uapp + 24, 8);
  }

  /** The task table of `task_init`, and the first `schedule`. */
  method StartTable(random: Word) returns (table: S.TaskTable)
    ensures table.Valid() && S.Good(table.state) && fresh(table) && fresh(table.task) && fresh(table.tasks)
    ensures table.state == S.Sched([S.Slot(0, 0), S.Slot(random % 10 + 1, random % 10 + 1)], 1) && |table.tasks| == 2
  {
    hide S.Schedule;
    table := new S.TaskTable(random);
    FirstSchedule(random % 10 + 1);
    table.ScheduleByPriority(table.state.slots);
  }

  /** The first task's registers, and the first `__switch_to`. */
  method StartMachine(page: nat, entry: Word, timerDepth: int, forkDepth: int) returns (machine: T.Machine)
    requires page < FRAMES
    ensures machine.InUser() && fresh(machine) && fresh(machine.x) && fresh(machine.pages)
    ensures |machine.pages| == 1 && machine.pages[0].base == Kva(page) && machine.current == 0
    ensures HaveStacks(machine.users)
    ensures machine.pc == entry && machine.x[T.SP] == USER_END
  {
    PageAddressRoundTrip(page, 0);
    var first := new T.TaskPage(Kva(page));
    var idle := new T.TaskPage(0);
    machine := new T.Machine(first, entry, timerDepth, forkDepth);
    machine.FirstDispatch(idle, entry);
  }

  lemma FirstPage(procs: seq<Spaces.Proc>, pages: seq<T.TaskPage>)
    requires |procs| == |pages| == 1 && procs[0].page < FRAMES && pages[0].base == Kva(procs[0].page)
    ensures OnePage(procs, pages)
  {}

  lemma FirstSchedule(priority: nat)
    requires 1 <= priority <= 10
    ensures var slots := [S.Slot(0, 0), S.Slot(0, priority)]; var s := S.Schedule(slots);
            && S.Bounded(slots) && S.Dispatchable(slots) && S.Good(s)
            && s == S.Sched([S.Slot(0, 0), S.Slot(priority, priority)], 1)
  {
    var slots := [S.Slot(0, 0), S.Slot(0, priority)];
    assert S.Fair(slots);
    S.FairDispatches(slots);
    S.ScheduleGood(slots);
    S.PickIsBest(slots, 0);
    assert S.Recharge(slots) == [S.Slot(0, 0), S.Slot(priority, priority)];
  }
}
