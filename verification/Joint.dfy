/** Runs of the whole system: what user programs do and the kernel does for them
    moves memory, task table and registers together. */
module Joint {
  import opened Bits
  import opened Bytes
  import opened Defs
  import opened Sv39
  import S = Scheduling
  import T = TrapContext
  import W = World

  datatype State = State(world: W.World, sched: S.Sched, users: T.Users)

  /** What happens in user mode, or from one trap to the way back. The program
      that does it is the running one. */
  datatype Deed =
    | Executes(x: seq<Word>, pc: Word)
    | Loads(a: Word, b: Byte)
    | Stores(a: Word, b: Byte)
    | Faults
    | Calls(result: Option<Word>)
    | Ticks
    | Forks(priority: nat)

  /** The three parts speak of the same tasks, and the same one runs. */
  ghost predicate Agree(st: State) {
    && |st.world.spaces| == |st.users.contexts| == |st.sched.slots| - 1
    && st.users.current + 1 == st.sched.current && st.users.current < |st.users.contexts|
  }

  // ---- what a deed is for each part ------------------------------------------

  ghost function MemoryPart(st: State, d: Deed): Option<W.MemoryEvent> {
    match d
    case Loads(a, b) => Some(W.Read(st.users.current, a, b))
    case Stores(a, b) => Some(W.Write(st.users.current, a, b))
    case Faults => Some(W.MemoryEvent.Fault(st.users.current))
    case Forks(_) => Some(W.MemoryEvent.Fork(st.users.current))
    case _ => None
  }

  ghost function SchedPart(d: Deed): Option<S.SchedEvent> {
    match d
    case Ticks => Some(S.SchedEvent.Timer)
    case Forks(priority) => Some(S.ForkBy(priority))
    case _ => None
  }

  ghost function ProgramPart(st: State, d: Deed, st': State): Option<T.ProgramEvent> {
    match d
    case Executes(x, pc) => Some(T.Runs(x, pc))
    case Faults => Some(T.Traps(T.Trap.Fault))
    case Calls(result) => Some(T.Traps(if result.Some? then T.Ecall(result.value) else T.OtherEcall))
    case Ticks => Some(T.Traps(T.Trap.Timer(Some(st'.users.current))))
    case Forks(_) => Some(T.Traps(T.Trap.Fork(Wrap(st.users.current + 1))))
    case _ => None
  }

  ghost predicate MemoryMoves(file: W.File, st: State, d: Deed, st': State) {
    match MemoryPart(st, d)
    case None => st'.world == st.world
    case Some(e) => W.Next(file, st.world, e, st'.world)
  }

  ghost predicate SchedMoves(st: State, d: Deed, st': State) {
    match SchedPart(d)
    case None => st'.sched == st.sched
    case Some(e) => S.SchedStep(st.sched, e, st'.sched)
  }

  ghost predicate ProgramsMove(st: State, d: Deed, st': State) {
    match ProgramPart(st, d, st')
    case None => st'.users == st.users
    case Some(e) => T.ProgramStep(st.users, e, st'.users)
  }

  ghost predicate Step(file: W.File, st: State, d: Deed, st': State) {
    Agree(st) && Agree(st') && MemoryMoves(file, st, d, st') && SchedMoves(st, d, st') && ProgramsMove(st, d, st')
  }

  ghost predicate IsRun(file: W.File, sts: seq<State>, ds: seq<Deed>) {
    |sts| == |ds| + 1 && Agree(sts[0]) && forall k :: 0 <= k < |ds| ==> Step(file, sts[k], ds[k], sts[k + 1])
  }

  // ---- memory ------------------------------------------------------------------

  /** The eager programs after k deeds. */
  ghost function EagerAfter(ps: seq<W.Eager>, sts: seq<State>, ds: seq<Deed>, k: nat): seq<W.Eager>
    requires k <= |ds| < |sts|
  {
    if k == 0 then ps
    else
      match MemoryPart(sts[k - 1], ds[k - 1])
      case None => EagerAfter(ps, sts, ds, k - 1)
      case Some(e) => W.EagerNext(EagerAfter(ps, sts, ds, k - 1), e)
  }

  /** Over every run of the whole system the programs' memory is that of the eager
      reference, and every load gets the reference's byte. */
  lemma {:induction false} MemoryAlong(file: W.File, sts: seq<State>, ds: seq<Deed>, ps: seq<W.Eager>, k: nat)
    requires IsRun(file, sts, ds) && k <= |ds| && W.Sound(sts[0].world) && W.Refines(file, sts[0].world, ps)
    ensures W.Sound(sts[k].world) && W.Refines(file, sts[k].world, EagerAfter(ps, sts, ds, k))
    ensures forall m: nat :: m < k && ds[m].Loads? ==>
              W.ReadsReference(file, W.Read(sts[m].users.current, ds[m].a, ds[m].b), EagerAfter(ps, sts, ds, m))
  {
    hide W.Sound, W.Refines, W.Next, W.ReadsReference, W.EagerNext;
    if k > 0 {
      MemoryAlong(file, sts, ds, ps, k - 1);
      var n := k - 1;
      assert Step(file, sts[n], ds[n], sts[k]);
      var e := MemoryPart(sts[n], ds[n]);
      if e.Some? {
        W.LastStep(file, sts[n].world, e.value, sts[k].world, EagerAfter(ps, sts, ds, n));
      }
    }
  }

  // ---- the scheduler -------------------------------------------------------------

  ghost function SchedEvents(ds: seq<Deed>): seq<S.SchedEvent> {
    if ds == [] then []
    else
      var e := SchedPart(ds[|ds| - 1]);
      SchedEvents(ds[..|ds| - 1]) + if e.Some? then [e.value] else []
  }

  ghost predicate Visited(ss: seq<S.Sched>, sts: seq<State>) {
    forall k :: 0 <= k < |ss| ==> exists m :: 0 <= m < |sts| && sts[m].sched == ss[k]
  }

  /** The deeds of a run, as far as the scheduler sees them, are a run of the
      scheduler through states of the run. */
  lemma {:induction false} SchedRun(file: W.File, sts: seq<State>, ds: seq<Deed>) returns (ss: seq<S.Sched>)
    requires IsRun(file, sts, ds)
    ensures S.IsSchedRun(ss, SchedEvents(ds)) && ss[0] == sts[0].sched && ss[|ss| - 1] == sts[|ds|].sched
    ensures Visited(ss, sts)
  {
    hide S.SchedStep, Agree, MemoryMoves, ProgramsMove, Visited;
    if ds == [] {
      ss := [sts[0].sched];
      VisitedFirst(sts);
    } else {
      var n := |ds| - 1;
      var before := ds[..n];
      RunPrefix(file, sts, ds);
      ss := SchedRun(file, sts[..n + 1], before);
      assert SchedMoves(sts[n], ds[n], sts[n + 1]) by { assert Step(file, sts[n], ds[n], sts[n + 1]); }
      VisitedMore(ss, sts, n + 1);
      if SchedPart(ds[n]).Some? {
        OneMore(ss, SchedEvents(before), SchedPart(ds[n]).value, sts[n + 1].sched);
        ss := ss + [sts[n + 1].sched];
      }
    }
  }

  lemma VisitedMore(ss: seq<S.Sched>, sts: seq<State>, n: nat)
    requires n < |sts| && Visited(ss, sts[..n])
    ensures Visited(ss, sts) && Visited(ss + [sts[n].sched], sts)
  {
    forall k | 0 <= k < |ss| ensures exists m :: 0 <= m < |sts| && sts[m].sched == ss[k] {
      var m :| 0 <= m < n && sts[..n][m].sched == ss[k];
      assert sts[m].sched == ss[k];
    }
    var all := ss + [sts[n].sched];
    forall k | 0 <= k < |all| ensures exists m :: 0 <= m < |sts| && sts[m].sched == all[k] {
      if k < |ss| { assert all[k] == ss[k]; } else { assert sts[n].sched == all[k]; }
    }
  }

  lemma VisitedFirst(sts: seq<State>)
    requires |sts| > 0
    ensures Visited([sts[0].sched], sts)
  {
    assert sts[0].sched == [sts[0].sched][0];
  }

  lemma OneMore(ss: seq<S.Sched>, es: seq<S.SchedEvent>, e: S.SchedEvent, s: S.Sched)
    requires S.IsSchedRun(ss, es) && S.SchedStep(ss[|ss| - 1], e, s)
    ensures S.IsSchedRun(ss + [s], es + [e])
  {
    hide S.SchedStep;
  }

  lemma RunPrefix(file: W.File, sts: seq<State>, ds: seq<Deed>)
    requires IsRun(file, sts, ds) && |ds| > 0
    ensures IsRun(file, sts[..|ds|], ds[..|ds| - 1])
  {
    forall k | 0 <= k < |ds| - 1
      ensures Step(file, sts[..|ds|][k], ds[..|ds| - 1][k], sts[..|ds|][k + 1])
    {
      assert Step(file, sts[k], ds[k], sts[k + 1]);
    }
  }

  lemma {:induction false} ReadyAlong(file: W.File, sts: seq<State>, ds: seq<Deed>, k: nat)
    requires IsRun(file, sts, ds) && S.Ready(sts[0].sched) && k <= |ds|
    ensures S.Ready(sts[k].sched)
  {
    if k > 0 {
      ReadyAlong(file, sts, ds, k - 1);
      assert Step(file, sts[k - 1], ds[k - 1], sts[k]);
      var e := SchedPart(ds[k - 1]);
      if e.Some? { S.StepGood(sts[k - 1].sched, e.value, sts[k].sched); }
    }
  }

  lemma RunSuffix(file: W.File, sts: seq<State>, ds: seq<Deed>, p: nat)
    requires IsRun(file, sts, ds) && p <= |ds|
    ensures IsRun(file, sts[p..], ds[p..])
  {
    Together(file, sts, ds, p);
    forall k | 0 <= k < |ds[p..]| ensures Step(file, sts[p..][k], ds[p..][k], sts[p..][k + 1]) {
      assert Step(file, sts[p + k], ds[p + k], sts[p + k + 1]);
    }
  }

  /** Enough ticks for program i to have run: what the tasks had left, 10 for every
      fork, and 150 if it had no time left itself. */
  ghost predicate Long(st: State, ds: seq<Deed>, i: nat) {
    && i + 1 < |st.sched.slots|
    && var es := SchedEvents(ds);
       S.Ticks(es) >= S.Total(st.sched.slots) + 10 * S.Forks(es) + if st.sched.slots[i + 1].counter > 0 then 0 else 150
  }

  /** No program is kept waiting, from whatever point of a run on and whatever all
      programs do. */
  lemma NobodyWaitsLong(file: W.File, sts: seq<State>, ds: seq<Deed>, p: nat, i: nat)
    requires IsRun(file, sts, ds) && S.Ready(sts[0].sched) && p <= |ds| && Long(sts[p], ds[p..], i)
    ensures exists m :: p <= m <= |ds| && sts[m].users.current == i
  {
    hide Step, S.SchedStep, S.Ready, S.Total, S.Ticks, S.Forks;
    ReadyAlong(file, sts, ds, p);
    RunSuffix(file, sts, ds, p);
    var ss := SchedRun(file, sts[p..], ds[p..]);
    S.NoStarvationWithForks(ss, SchedEvents(ds[p..]), i + 1);
    var k :| 0 <= k < |ss| && ss[k].current == i + 1;
    var m :| 0 <= m <= |ds[p..]| && sts[p..][m].sched == ss[k];
    Together(file, sts, ds, p + m);
    assert sts[p + m].users.current == i;
  }

  /** The same program runs for all three parts, at every point of a run. */
  lemma Together(file: W.File, sts: seq<State>, ds: seq<Deed>, m: nat)
    requires IsRun(file, sts, ds) && m <= |ds|
    ensures Agree(sts[m])
  {
    if m > 0 { assert Step(file, sts[m - 1], ds[m - 1], sts[m]); }
  }

  // ---- registers -----------------------------------------------------------------

  /** What the others do leaves a program's registers alone. */
  lemma {:induction false} Untouched(file: W.File, sts: seq<State>, ds: seq<Deed>, i: nat, k: nat, m: nat)
    requires IsRun(file, sts, ds) && k <= m <= |ds| && i < |sts[k].users.contexts|
    requires forall n :: k <= n < m ==> sts[n].users.current != i
    ensures i < |sts[m].users.contexts| && sts[m].users.contexts[i] == sts[k].users.contexts[i]
  {
    hide MemoryMoves, SchedMoves, Agree;
    if k < m {
      Untouched(file, sts, ds, i, k, m - 1);
      assert Step(file, sts[m - 1], ds[m - 1], sts[m]);
      TrapKeeps(sts[m - 1], ds[m - 1], sts[m]);
    }
  }

  /** A trap, as the programs see it. */
  ghost predicate TrapsBy(st: State, d: Deed, st': State, t: T.Trap) { ProgramPart(st, d, st') == Some(T.Traps(t)) }

  lemma TrapKeeps(st: State, d: Deed, st': State)
    requires ProgramsMove(st, d, st')
    ensures forall t :: TrapsBy(st, d, st', t) ==>
              T.Proper(st.users) && st'.users == T.Served(st.users, t)
              && (t.Timer? && t.next.Some? ==> t.next.value < |st.users.contexts|)
    ensures forall j :: 0 <= j < |st.users.contexts| && j != st.users.current ==>
              j < |st'.users.contexts| && st'.users.contexts[j] == st.users.contexts[j]
  {
    var e := ProgramPart(st, d, st');
    if e.Some? && e.value.Traps? { T.ServedKeeps(st.users, e.value.trap); }
  }

  /** Program i, the one that runs at k, has at m the registers it trapped with at
      k, but for t0 and a result in a0, one ecall further after a system call. */
  ghost predicate KeepsRegisters(sts: seq<State>, k: nat, m: nat, t: T.Trap)
    requires k < |sts| && m < |sts|
  {
    var i := sts[k].users.current; var us, vs := sts[k].users.contexts, sts[m].users.contexts;
    && i < |us| && i < |vs| && |us[i].x| == |vs[i].x| == 32
    && (forall r: nat :: T.Kept(t, r) ==> vs[i].x[r] == us[i].x[r]) && vs[i].x[T.SP] == us[i].x[T.SP]
    && vs[i].pc == T.PcAfter(t, us[i].pc) && vs[i].status == us[i].status
  }

  /** Over every run of the whole system a program that traps and later runs again
      finds its registers. */
  lemma RegistersAlong(file: W.File, sts: seq<State>, ds: seq<Deed>, k: nat, m: nat, t: T.Trap)
    requires IsRun(file, sts, ds) && k < m <= |ds| && TrapsBy(sts[k], ds[k], sts[k + 1], t)
    requires Away(sts, k, m)
    ensures KeepsRegisters(sts, k, m, t)
  {
    hide MemoryMoves, SchedMoves, Agree, ProgramPart;
    assert Step(file, sts[k], ds[k], sts[k + 1]);
    TrapKeeps(sts[k], ds[k], sts[k + 1]);
    T.ServedKeeps(sts[k].users, t);
    Untouched(file, sts, ds, sts[k].users.current, k + 1, m);
  }

  /** The program that runs at k does not run between k and m. */
  ghost predicate Away(sts: seq<State>, k: nat, m: nat)
    requires k < |sts| && m < |sts|
  { forall n :: k < n < m ==> sts[n].users.current != sts[k].users.current }
}
