/** The priority scheduler of proc.c and the task-table part of fork. */
module Scheduling {
  import opened Bits
  import opened Defs

  const PRIORITY_MAX: nat := 10

  /** What the scheduler knows about one task. */
  datatype Slot = Slot(counter: nat, priority: nat)

  /** The used prefix of the task table and the running task; slot 0 is idle. */
  datatype Sched = Sched(slots: seq<Slot>, current: nat)

  // ---- the policy -----------------------------------------------------------

  function Counter(slots: seq<Slot>, i: nat): nat { if 0 < i < |slots| then slots[i].counter else 0 }

  /** The scan over slots above i: the largest positive counter, the highest
      slot among equals, or 0. */
  function PickAbove(slots: seq<Slot>, i: nat): (next: nat)
    ensures next == 0 || i < next < |slots|
    decreases |slots| - i
  {
    if i + 1 >= |slots| then 0
    else
      var next := PickAbove(slots, i + 1);
      if slots[i + 1].counter > Counter(slots, next) then i + 1 else next
  }

  function Pick(slots: seq<Slot>): nat { PickAbove(slots, 0) }

  function Recharge(slots: seq<Slot>): (r: seq<Slot>)
    ensures |r| == |slots|
  {
    seq(|slots|, i requires 0 <= i < |slots| =>
      if i == 0 then slots[0] else Slot(slots[i].priority + slots[i].counter / 2, slots[i].priority))
  }

  function Schedule(slots: seq<Slot>): Sched {
    if Pick(slots) > 0 then Sched(slots, Pick(slots)) else Sched(Recharge(slots), Pick(Recharge(slots)))
  }

  function SetCounter(slots: seq<Slot>, i: nat, c: nat): seq<Slot>
    requires i < |slots|
  { slots[i := slots[i].(counter := c)] }

  /** One timer interrupt. */
  function Tick(s: Sched): Sched
    requires s.current < |s.slots|
  {
    var c := s.slots[s.current].counter;
    if s.current == 0 || c == 0 then Schedule(s.slots)
    else if c == 1 then Schedule(SetCounter(s.slots, s.current, 0))
    else Sched(SetCounter(s.slots, s.current, c - 1), s.current)
  }

  /** Fork: the child takes the next slot, the parent's counter and a priority of
      its own, and runs at once. */
  function Forked(s: Sched, priority: nat): Sched
    requires s.current < |s.slots|
  { Sched(s.slots + [Slot(s.slots[s.current].counter, priority)], |s.slots|) }

  ghost predicate Fair(slots: seq<Slot>) {
    && 2 <= |slots| <= NR_TASKS && slots[0] == Slot(0, 0)
    && forall i :: 0 < i < |slots| ==> slots[i].counter <= PRIORITY_MAX && 1 <= slots[i].priority <= PRIORITY_MAX
  }

  ghost predicate Good(s: Sched) {
    && Fair(s.slots) && s.current < |s.slots|
    && (s.current == 0 ==> forall i :: 0 < i < |s.slots| ==> s.slots[i].counter == 0)
    && (s.current > 0 ==> s.slots[s.current].counter > 0)
  }

  /** The dispatched task has a positive counter that no other exceeds; among
      equals it has the highest slot. Nothing is dispatched only if all are 0. */
  lemma {:induction false} PickIsBest(slots: seq<Slot>, i: nat)
    ensures var p := PickAbove(slots, i);
            && (p == 0 <==> forall j :: i < j < |slots| ==> slots[j].counter == 0)
            && (p > 0 ==> slots[p].counter > 0)
            && (p > 0 ==> forall j :: i < j < |slots| ==>
                  slots[j].counter < slots[p].counter || (slots[j].counter == slots[p].counter && j <= p))
    decreases |slots| - i
  {
    if i + 1 < |slots| {
      PickIsBest(slots, i + 1);
      assert PickAbove(slots, i) == 0 ==> slots[i + 1].counter == 0;
    }
  }

  lemma RechargedAt(slots: seq<Slot>, i: nat)
    requires 0 < i < |slots| && Bounded(slots)
    ensures (slots[i].priority + slots[i].counter / 2) % TWO_64 == Recharge(slots)[i].counter
  {}

  lemma RechargeEnds(slots: seq<Slot>)
    ensures |slots| > 0 ==> Recharge(slots)[0] == slots[0]
    ensures forall i :: 0 <= i < |slots| ==> Recharge(slots)[i].priority == slots[i].priority
  {}

  /** Fields that fit the C code's `int` variables. */
  ghost predicate Bounded(slots: seq<Slot>) {
    forall i :: 0 <= i < |slots| ==> slots[i].counter < 0x8000_0000 && slots[i].priority < 0x8000_0000
  }

  /** Some task has time left or would get some. */
  ghost predicate Dispatchable(slots: seq<Slot>) {
    exists i :: 0 < i < |slots| && (slots[i].counter > 0 || slots[i].priority > 0)
  }

  /** Whether dispatching ever succeeds: exactly if some task has time left or
      would get some. Otherwise another round of recharging changes nothing. */
  lemma DispatchesIff(slots: seq<Slot>)
    ensures Pick(slots) > 0 || Pick(Recharge(slots)) > 0 <==> Dispatchable(slots)
    ensures !(Pick(slots) > 0 || Pick(Recharge(slots)) > 0) ==> Recharge(slots) == slots
  {
    PickIsBest(slots, 0);
    PickIsBest(Recharge(slots), 0);
    if i :| 0 < i < |slots| && (slots[i].counter > 0 || slots[i].priority > 0) {
      assert Recharge(slots)[i].counter == 0 ==> slots[i].counter > 0;
    }
    if j :| 0 < j < |slots| && Recharge(slots)[j].counter > 0 {
      assert slots[j].counter > 0 || slots[j].priority > 0;
    }
  }

  // ---- invariants over every run ----------------------------------------------

  datatype SchedEvent = Timer | ForkBy(priority: nat)

  ghost predicate SchedStep(s: Sched, e: SchedEvent, t: Sched) {
    && s.current < |s.slots|
    && match e
       case Timer => t == Tick(s)
       case ForkBy(p) => s.current > 0 && |s.slots| < NR_TASKS && 1 <= p <= PRIORITY_MAX && t == Forked(s, p)
  }

  lemma ScheduleGood(slots: seq<Slot>)
    requires Fair(slots)
    ensures Good(Schedule(slots)) && Schedule(slots).current > 0
  {
    PickIsBest(slots, 0);
    PickIsBest(Recharge(slots), 0);
    assert Recharge(slots)[1].counter >= slots[1].priority;
  }

  lemma FairDispatches(slots: seq<Slot>)
    requires |slots| >= 2
    ensures Fair(slots) ==> Bounded(slots) && Dispatchable(slots)
  {
    assert Fair(slots) ==> slots[1].priority > 0;
  }

  /** After a timer interrupt a task with time left runs, whatever ran before. */
  lemma TickGood(s: Sched)
    requires Fair(s.slots) && s.current < |s.slots|
    ensures Good(Tick(s)) && Tick(s).current > 0 && |Tick(s).slots| == |s.slots|
  {
    var c := s.slots[s.current].counter;
    if s.current == 0 || c == 0 { ScheduleGood(s.slots); }
    else if c == 1 { ScheduleGood(SetCounter(s.slots, s.current, 0)); }
  }

  /** A task with more than one unit of time left is not interrupted. */
  lemma TickKeepsRunning(s: Sched)
    requires s.current < |s.slots|
    ensures s.current > 0 && s.slots[s.current].counter > 1 ==> Tick(s).current == s.current
  {}

  lemma ForkGood(s: Sched, priority: nat)
    requires Good(s) && s.current > 0 && |s.slots| < NR_TASKS && 1 <= priority <= PRIORITY_MAX
    ensures var t := Forked(s, priority); Good(t) && t.current == |s.slots| == |t.slots| - 1
    ensures Forked(s, priority).slots == s.slots + [Slot(s.slots[s.current].counter, priority)]
  {}

  /** Every step keeps counters at most 10 and dispatches only tasks with time
      left; the idle task never runs again. */
  lemma StepGood(s: Sched, e: SchedEvent, t: Sched)
    requires Good(s) && SchedStep(s, e, t)
    ensures Good(t) && t.current > 0 && |s.slots| <= |t.slots|
  {
    if e.Timer? { TickGood(s); }
  }

  ghost predicate IsSchedRun(ss: seq<Sched>, es: seq<SchedEvent>) {
    |ss| == |es| + 1 && forall k :: 0 <= k < |es| ==> SchedStep(ss[k], es[k], ss[k + 1])
  }

  lemma {:induction false} RunGood(ss: seq<Sched>, es: seq<SchedEvent>, k: nat)
    requires IsSchedRun(ss, es) && Good(ss[0]) && k <= |es|
    ensures Good(ss[k]) && (k > 0 ==> ss[k].current > 0)
  {
    if k > 0 {
      RunGood(ss, es, k - 1);
      StepGood(ss[k - 1], es[k - 1], ss[k]);
    }
  }

  // ---- what a fixed set of tasks gets ----------------------------------------

  ghost predicate Ready(s: Sched) { Good(s) && s.current > 0 }

  /** The state after t ticks without forks. */
  ghost function After(s: Sched, t: nat): (r: Sched)
    requires Ready(s)
    ensures Ready(r)
  {
    if t == 0 then s
    else
      var r := After(s, t - 1);
      StepGood(r, Timer, Tick(r));
      Tick(r)
  }

  /** A child keeps the processor for exactly the ticks its parent had left, with
      the priority drawn for it; meanwhile every older task, its parent included,
      keeps its counter. After the last of them there is a dispatch. */
  lemma {:induction false} ChildKeepsProcessor(s: Sched, priority: nat, t: nat)
    requires Ready(s) && |s.slots| < NR_TASKS && 1 <= priority <= PRIORITY_MAX && t <= s.slots[s.current].counter
    ensures var left := s.slots[s.current].counter; var f := Forked(s, priority);
            && Ready(f) && left > 0
            && (t < left ==> After(f, t) == Sched(s.slots + [Slot(left - t, priority)], |s.slots|))
            && (t == left ==> After(f, t) == Schedule(s.slots + [Slot(0, priority)]))
  {
    hide Schedule;
    ForkGood(s, priority);
    if t > 0 {
      ChildKeepsProcessor(s, priority, t - 1);
      var left := s.slots[s.current].counter;
      var n := |s.slots|;
      assert SetCounter(s.slots + [Slot(left - t + 1, priority)], n, left - t) == s.slots + [Slot(left - t, priority)];
    }
  }

  /** Who runs during each of the next t ticks. */
  ghost function Trace(s: Sched, t: nat): (r: seq<nat>)
    requires Ready(s)
    ensures |r| == t
  { if t == 0 then [] else Trace(s, t - 1) + [After(s, t - 1).current] }

  ghost function Total(slots: seq<Slot>): nat {
    if |slots| <= 1 then 0 else Total(slots[..|slots| - 1]) + slots[|slots| - 1].counter
  }

  function Repeat(p: nat, n: nat): (r: seq<nat>)
    ensures |r| == n && forall k :: 0 <= k < n ==> r[k] == p
  { seq(n, _ => p) }

  /** The dispatch order for the given counters: the largest first, each task for
      as many ticks as its counter says, in one go. */
  ghost function Turns(slots: seq<Slot>): (r: seq<nat>)
    ensures |r| == Total(slots)
    decreases Total(slots)
  {
    var p := Pick(slots);
    PickIsBest(slots, 0);
    if p == 0 then
      NoneLeft(slots);
      []
    else
      TotalSet(slots, p, 0);
      Repeat(p, slots[p].counter) + Turns(SetCounter(slots, p, 0))
  }

  lemma {:induction false} NoneLeft(slots: seq<Slot>)
    requires forall j :: 0 < j < |slots| ==> slots[j].counter == 0
    ensures Total(slots) == 0
  {
    if |slots| > 1 { NoneLeft(slots[..|slots| - 1]); }
  }

  lemma {:induction false} TotalSet(slots: seq<Slot>, p: nat, c: nat)
    requires 0 < p < |slots|
    ensures Total(SetCounter(slots, p, c)) == Total(slots) - slots[p].counter + c
  {
    var n := |slots| - 1;
    if p < n {
      TotalSet(slots[..n], p, c);
      assert SetCounter(slots, p, c)[..n] == SetCounter(slots[..n], p, c);
    } else {
      assert SetCounter(slots, p, c)[..n] == slots[..n];
    }
  }

  /** A task keeps running until its counter is used up. */
  lemma {:induction false} WithinTurn(s: Sched, t: nat)
    requires Ready(s) && t < s.slots[s.current].counter
    ensures After(s, t) == Sched(SetCounter(s.slots, s.current, s.slots[s.current].counter - t), s.current)
    ensures Trace(s, t) == Repeat(s.current, t)
  {
    if t > 0 { WithinTurn(s, t - 1); }
  }

  lemma LastTick(s: Sched, i: nat)
    requires 0 < i < |s.slots|
    ensures Tick(Sched(SetCounter(s.slots, i, 1), i)) == Schedule(SetCounter(s.slots, i, 0))
  {
    assert SetCounter(SetCounter(s.slots, i, 1), i, 0) == SetCounter(s.slots, i, 0);
  }

  lemma OneMore(s: Sched, t: nat)
    requires Ready(s)
    ensures After(s, t + 1) == Tick(After(s, t)) && Trace(s, t + 1) == Trace(s, t) + [After(s, t).current]
  {}

  /** Then the next one is chosen. */
  lemma TurnEnds(s: Sched)
    requires Ready(s)
    ensures var c := s.slots[s.current].counter;
            && After(s, c) == Schedule(SetCounter(s.slots, s.current, 0))
            && Trace(s, c) == Repeat(s.current, c)
  {
    hide After, Trace, Tick, Schedule;
    var c := s.slots[s.current].counter;
    WithinTurn(s, c - 1);
    LastTick(s, s.current);
    OneMore(s, c - 1);
  }

  lemma {:induction false} AfterSum(s: Sched, a: nat, b: nat)
    requires Ready(s)
    ensures After(s, a + b) == After(After(s, a), b)
    ensures Trace(s, a + b) == Trace(s, a) + Trace(After(s, a), b)
  {
    hide After, Trace, Tick, Good;
    if b > 0 {
      AfterSum(s, a, b - 1);
      OneMore(s, a + b - 1);
      OneMore(After(s, a), b - 1);
    } else {
      NoTicks(After(s, a));
    }
  }

  lemma NoTicks(s: Sched)
    requires Ready(s)
    ensures After(s, 0) == s && Trace(s, 0) == []
  {}

  /** The state right after a recharge. */
  ghost predicate EpochStart(s: Sched) {
    && Ready(s) && s.current == Pick(s.slots)
    && forall i :: 0 < i < |s.slots| ==> s.slots[i].counter == s.slots[i].priority
  }

  ghost predicate SamePriorities(a: seq<Slot>, b: seq<Slot>) {
    |a| == |b| && forall i :: 0 <= i < |a| ==> a[i].priority == b[i].priority
  }

  /** From any state the remaining time is used up in the dispatch order, the
      running task first; then an epoch starts. */
  lemma {:induction false} UsedUp(s: Sched)
    requires Ready(s)
    ensures var c := s.slots[s.current].counter;
            && Trace(s, Total(s.slots)) == Repeat(s.current, c) + Turns(SetCounter(s.slots, s.current, 0))
            && EpochStart(After(s, Total(s.slots))) && SamePriorities(After(s, Total(s.slots)).slots, s.slots)
    decreases Total(s.slots)
  {
    hide After, Trace, Turns, Tick, Recharge, Pick, EpochStart;
    var c, rest := s.slots[s.current].counter, SetCounter(s.slots, s.current, 0);
    TurnEnds(s);
    TotalSet(s.slots, s.current, 0);
    AfterSum(s, c, Total(rest));
    NextTurn(rest);
    if Pick(rest) > 0 {
      UsedUp(After(s, c));
    } else {
      RechargedEpoch(rest);
      NoTicks(After(s, c));
    }
  }

  lemma NextTurn(slots: seq<Slot>)
    ensures Pick(slots) < |slots| || Pick(slots) == 0
    ensures Pick(slots) > 0 ==>
              Turns(slots) == Repeat(Pick(slots), slots[Pick(slots)].counter) + Turns(SetCounter(slots, Pick(slots), 0))
    ensures Pick(slots) == 0 ==> Turns(slots) == [] && Total(slots) == 0
    ensures Pick(slots) == 0 ==> forall j :: 0 < j < |slots| ==> slots[j].counter == 0
  {
    PickIsBest(slots, 0);
    if Pick(slots) == 0 { NoneLeft(slots); }
  }

  lemma RechargedEpoch(slots: seq<Slot>)
    requires Ready(Schedule(slots)) && Pick(slots) == 0 && forall j :: 0 < j < |slots| ==> slots[j].counter == 0
    ensures EpochStart(Schedule(slots)) && SamePriorities(Schedule(slots).slots, slots)
  {
    assert forall i :: 0 < i < |slots| ==> Recharge(slots)[i] == Slot(slots[i].priority, slots[i].priority);
  }

  ghost function Count(xs: seq<nat>, i: nat): nat {
    if xs == [] then 0 else Count(xs[..|xs| - 1], i) + if xs[|xs| - 1] == i then 1 else 0
  }

  lemma {:induction false} CountSum(xs: seq<nat>, ys: seq<nat>, i: nat)
    ensures Count(xs + ys, i) == Count(xs, i) + Count(ys, i)
  {
    if ys == [] {
      assert xs + ys == xs;
    } else {
      CountSum(xs, ys[..|ys| - 1], i);
      assert (xs + ys)[..|xs + ys| - 1] == xs + ys[..|ys| - 1];
    }
  }

  lemma {:induction false} CountRepeat(p: nat, n: nat, i: nat)
    ensures Count(Repeat(p, n), i) == if p == i then n else 0
  {
    if n > 0 {
      CountRepeat(p, n - 1, i);
      assert Repeat(p, n)[..n - 1] == Repeat(p, n - 1);
    }
  }

  lemma {:induction false} TurnsCount(slots: seq<Slot>, i: nat)
    requires 0 < i < |slots|
    ensures Count(Turns(slots), i) == slots[i].counter
    decreases Total(slots)
  {
    var p := Pick(slots);
    PickIsBest(slots, 0);
    if p > 0 {
      TotalSet(slots, p, 0);
      TurnsCount(SetCounter(slots, p, 0), i);
      CountSum(Repeat(p, slots[p].counter), Turns(SetCounter(slots, p, 0)), i);
      CountRepeat(p, slots[p].counter, i);
    }
  }

  lemma SameEpoch(a: Sched, b: Sched)
    requires EpochStart(a) && EpochStart(b) && SamePriorities(a.slots, b.slots)
    ensures a == b
  {
    assert a.slots == b.slots;
  }

  /** One epoch: the order is by decreasing priority, ties to the higher slot,
      each task runs exactly `priority` ticks in one go, and the state returns. */
  lemma Epoch(s: Sched)
    requires EpochStart(s)
    ensures Trace(s, Total(s.slots)) == Turns(s.slots) && After(s, Total(s.slots)) == s
    ensures forall i :: 0 < i < |s.slots| ==> Count(Trace(s, Total(s.slots)), i) == s.slots[i].priority
  {
    UsedUp(s);
    SameEpoch(s, After(s, Total(s.slots)));
    forall i | 0 < i < |s.slots| ensures Count(Turns(s.slots), i) == s.slots[i].priority { TurnsCount(s.slots, i); }
  }

  /** Proportional share: after k epochs every task has run k times its priority. */
  lemma {:induction false} ProportionalShare(s: Sched, k: nat, i: nat)
    requires EpochStart(s) && 0 < i < |s.slots|
    ensures After(s, k * Total(s.slots)) == s
    ensures Count(Trace(s, k * Total(s.slots)), i) == k * s.slots[i].priority
  {
    hide After, Trace, Tick, Total, Ready, Good;
    var n := Total(s.slots);
    if k > 0 {
      ProportionalShare(s, k - 1, i);
      Epoch(s);
      MulNext(k, n);
      MulNext(k, s.slots[i].priority);
      var m := (k - 1) * n;
      AfterSum(s, m, n);
      CountSum(Trace(s, m), Trace(s, n), i);
    } else {
      NoTicks(s);
    }
  }

  lemma MulNext(k: nat, n: nat)
    requires k > 0
    ensures k * n == (k - 1) * n + n
  {}

  /** No starvation: without forks, a task with time left runs within as many
      ticks as all tasks have left together. */
  lemma NoStarvation(s: Sched, i: nat) returns (t: nat)
    requires Ready(s) && 0 < i < |s.slots| && s.slots[i].counter > 0
    ensures t < Total(s.slots) && After(s, t).current == i
  {
    UsedUp(s);
    var c, rest := s.slots[s.current].counter, SetCounter(s.slots, s.current, 0);
    CountSum(Repeat(s.current, c), Turns(rest), i);
    CountRepeat(s.current, c, i);
    TurnsCount(rest, i);
    t := Occurs(Trace(s, Total(s.slots)), i);
    TraceAt(s, Total(s.slots), t);
  }

  ghost function PrioritySum(slots: seq<Slot>): nat {
    if |slots| <= 1 then 0 else PrioritySum(slots[..|slots| - 1]) + slots[|slots| - 1].priority
  }

  lemma {:induction false} RechargedTotal(a: seq<Slot>, b: seq<Slot>)
    requires SamePriorities(a, b) && forall i :: 0 < i < |a| ==> a[i].counter == a[i].priority
    ensures Total(a) == PrioritySum(b)
  {
    if |a| > 1 { RechargedTotal(a[..|a| - 1], b[..|b| - 1]); }
  }

  /** Without forks every task, also one whose time is used up, runs within the
      remaining time of all tasks and one epoch. */
  lemma EveryoneRuns(s: Sched, i: nat) returns (t: nat)
    requires Ready(s) && 0 < i < |s.slots|
    ensures t < Total(s.slots) + PrioritySum(s.slots) && After(s, t).current == i
  {
    hide Turns, SamePriorities, After, Trace;
    UsedUp(s);
    var e := After(s, Total(s.slots));
    EpochKeepsTasks(s, e);
    var u := NoStarvation(e, i);
    t := Total(s.slots) + u;
    AfterSum(s, Total(s.slots), u);
  }

  lemma EpochKeepsTasks(s: Sched, e: Sched)
    requires Ready(s) && EpochStart(e) && SamePriorities(e.slots, s.slots)
    ensures |e.slots| == |s.slots| && Total(e.slots) == PrioritySum(s.slots)
    ensures forall i :: 0 < i < |s.slots| ==> e.slots[i].counter > 0
  {
    RechargedTotal(e.slots, s.slots);
  }

  // ---- with forks ------------------------------------------------------------

  ghost function Ticks(es: seq<SchedEvent>): nat {
    if es == [] then 0 else Ticks(es[..|es| - 1]) + if es[|es| - 1].Timer? then 1 else 0
  }

  ghost function Forks(es: seq<SchedEvent>): nat {
    if es == [] then 0 else Forks(es[..|es| - 1]) + if es[|es| - 1].ForkBy? then 1 else 0
  }

  lemma {:induction false} TotalBound(slots: seq<Slot>)
    requires forall i :: 0 < i < |slots| ==> slots[i].counter <= PRIORITY_MAX
    ensures |slots| > 0 ==> Total(slots) <= 10 * (|slots| - 1)
  {
    if |slots| > 1 { TotalBound(slots[..|slots| - 1]); }
  }

  /** A tick uses up one unit of time, or, when none is left, recharges. A task
      that waits with time left prevents the recharge. */
  lemma TickTotal(s: Sched, i: nat)
    requires Ready(s) && 0 < i < |s.slots| && i != s.current
    ensures Ready(Tick(s)) && |Tick(s).slots| == |s.slots|
    ensures || (Tick(s).slots[i] == s.slots[i] && Total(Tick(s).slots) + 1 == Total(s.slots))
            || (s.slots[i].counter == 0 && Tick(s).slots[i].counter > 0 && Total(Tick(s).slots) <= 150)
  {
    TickGood(s);
    var c := s.slots[s.current].counter;
    TotalSet(s.slots, s.current, c - 1);
    var rest := SetCounter(s.slots, s.current, c - 1);
    PickIsBest(rest, 0);
    TotalBound(Tick(s).slots);
    assert rest[i] == s.slots[i];
  }

  lemma ForkTotal(s: Sched, i: nat, priority: nat)
    requires Ready(s) && 0 < i < |s.slots| < NR_TASKS && 1 <= priority <= PRIORITY_MAX
    ensures var t := Forked(s, priority);
            Ready(t) && i < |t.slots| && t.slots[i] == s.slots[i] && Total(t.slots) <= Total(s.slots) + 10
  {
    var t := Forked(s, priority);
    assert t.slots[..|s.slots|] == s.slots;
  }

  /** While task i waits, ticks are paid for by the time that was left at the
      start, by 10 for every fork, and by one recharge if i had no time left. */
  ghost predicate Paid(s: Sched, t: Sched, es: seq<SchedEvent>, extra: nat) {
    Total(t.slots) + Ticks(es) <= Total(s.slots) + 10 * Forks(es) + extra
  }

  lemma {:induction false} Waiting(ss: seq<Sched>, es: seq<SchedEvent>, i: nat)
    requires IsSchedRun(ss, es) && Ready(ss[0]) && 0 < i < |ss[0].slots|
    requires forall k :: 0 <= k <= |es| ==> ss[k].current != i
    ensures Ready(ss[|es|]) && i < |ss[|es|].slots| && Paid(ss[0], ss[|es|], es, 150)
    ensures ss[0].slots[i].counter > 0 || ss[|es|].slots[i].counter == 0 ==> Paid(ss[0], ss[|es|], es, 0)
    ensures ss[0].slots[i].counter > 0 ==> ss[|es|].slots[i].counter > 0
  {
    hide Ready, Good, Tick, Total, Forked;
    if |es| > 0 {
      var n := |es| - 1;
      var e := es[n];
      assert SchedStep(ss[n], e, ss[n + 1]);
      var before, sb := es[..n], ss[..n + 1];
      assert IsSchedRun(sb, before) by {
        forall k | 0 <= k < n ensures SchedStep(sb[k], before[k], sb[k + 1]) {
          assert SchedStep(ss[k], es[k], ss[k + 1]);
        }
      }
      Waiting(sb, before, i);
      TimeLeft(ss[n]);
      if e.Timer? { TickTotal(ss[n], i); } else { ForkTotal(ss[n], i, e.priority); }
    }
  }

  /** No starvation over any run with forks: a task with time left has run before
      the ticks exceed the time left at the start and 10 for every fork; any task
      has run 150 ticks later at most. */
  lemma NoStarvationWithForks(ss: seq<Sched>, es: seq<SchedEvent>, i: nat)
    requires IsSchedRun(ss, es) && Ready(ss[0]) && 0 < i < |ss[0].slots|
    requires Ticks(es) >= Total(ss[0].slots) + 10 * Forks(es) + if ss[0].slots[i].counter > 0 then 0 else 150
    ensures exists k :: 0 <= k <= |es| && ss[k].current == i
  {
    if forall k :: 0 <= k <= |es| ==> ss[k].current != i {
      Waiting(ss, es, i);
      TimeLeft(ss[|es|]);
      assert false;
    }
  }

  lemma {:induction false} TotalAtLeast(slots: seq<Slot>, i: nat)
    requires 0 < i < |slots|
    ensures slots[i].counter <= Total(slots)
  {
    if i < |slots| - 1 { TotalAtLeast(slots[..|slots| - 1], i); }
  }

  lemma TimeLeft(s: Sched)
    requires Ready(s)
    ensures Total(s.slots) > 0
  {
    TotalAtLeast(s.slots, s.current);
  }

  lemma {:induction false} Occurs(xs: seq<nat>, i: nat) returns (k: nat)
    requires Count(xs, i) > 0
    ensures k < |xs| && xs[k] == i
  {
    if xs[|xs| - 1] == i { k := |xs| - 1; } else { k := Occurs(xs[..|xs| - 1], i); }
  }

  lemma {:induction false} TraceAt(s: Sched, n: nat, t: nat)
    requires Ready(s) && t < n
    ensures Trace(s, n)[t] == After(s, t).current
  {
    if t < n - 1 { TraceAt(s, n - 1, t); }
  }

  /** In the dispatch order a task comes before another exactly if its counter is
      larger, or equal and its slot higher. */
  ghost predicate Before(slots: seq<Slot>, i: nat, j: nat)
    requires i < |slots| && j < |slots|
  { slots[i].counter > slots[j].counter || (slots[i].counter == slots[j].counter && i > j) }

  lemma {:induction false} TurnsSorted(slots: seq<Slot>, a: nat, b: nat)
    requires a < b < |Turns(slots)|
    ensures forall k :: 0 <= k < |Turns(slots)| ==> 0 < Turns(slots)[k] < |slots|
    ensures var i, j := Turns(slots)[a], Turns(slots)[b]; i == j || Before(slots, i, j)
    decreases Total(slots)
  {
    var p := Pick(slots);
    PickIsBest(slots, 0);
    TurnsInRange(slots);
    if p > 0 {
      var c, rest := slots[p].counter, SetCounter(slots, p, 0);
      TotalSet(slots, p, 0);
      TurnsInRange(rest);
      if a >= c {
        TurnsSorted(rest, a - c, b - c);
      }
    }
  }

  lemma {:induction false} TurnsInRange(slots: seq<Slot>)
    ensures forall k :: 0 <= k < |Turns(slots)| ==> 0 < Turns(slots)[k] < |slots| && slots[Turns(slots)[k]].counter > 0
    decreases Total(slots)
  {
    var p := Pick(slots);
    PickIsBest(slots, 0);
    if p > 0 {
      TotalSet(slots, p, 0);
      TurnsInRange(SetCounter(slots, p, 0));
    }
  }

  // ---- the kernel's task table -------------------------------------------------

  /** The scheduling fields of `struct task_struct`. A new page reads zero. */
  class Task {
    var counter: Word
    var priority: Word
    var pid: Word

    constructor ()
      ensures counter == 0 && priority == 0 && pid == 0
    {
      counter, priority, pid := 0, 0, 0;
    }
  }

  class TaskTable {
    const task: array<Task?>
    const idle: Task
    var current: Task
    /** The tasks in the used slots, and the abstract state. */
    ghost var tasks: seq<Task>
    ghost var state: Sched

    /** The used slots are a prefix. */
    ghost predicate Slots()
      reads this, task
    {
      && task.Length == NR_TASKS && 2 <= |tasks| <= NR_TASKS && tasks[0] == idle
      && (forall i :: 0 <= i < |tasks| ==> task[i] == tasks[i])
      && (forall i :: |tasks| <= i < NR_TASKS ==> task[i] == null)
      && (forall i, j :: 0 <= i < j < |tasks| ==> tasks[i] != tasks[j])
    }

    /** The fields are those of the abstract state, and pids are slot numbers. */
    ghost predicate Shows(slots: seq<Slot>)
      reads this, tasks
    {
      && |slots| == |tasks|
      && forall i :: 0 <= i < |tasks| ==>
           tasks[i].counter == slots[i].counter && tasks[i].priority == slots[i].priority && tasks[i].pid == i
    }

    /** The table and the running task are those of the abstract state. */
    ghost predicate Consistent()
      reads this, task, tasks
    { Slots() && Shows(state.slots) && state.current < |tasks| && current == tasks[state.current] }

    ghost predicate Valid()
      reads this, task, tasks
    { Consistent() && Fair(state.slots) }

    /** `task_init`: idle and one task, whose priority is random. */
    constructor (random: Word)
      ensures Valid() && fresh(task) && fresh(tasks)
      ensures state == Sched([Slot(0, 0), Slot(0, random % 10 + 1)], 0) && Good(state)
    {
      var idleTask := new Task();
      var first := new Task();
      first.pid, first.priority := 1, random % 10 + 1;
      task := new Task?[NR_TASKS](i => if i == 0 then idleTask else if i == 1 then first else null);
      idle, current := idleTask, idleTask;
      tasks := [idleTask, first];
      state := Sched([Slot(0, 0), Slot(0, random % 10 + 1)], 0);
    }

    /** `add_task`: the first free slot from 2 on, or -1. */
    method AddTask(t: Task) returns (pid: int)
      requires Slots() && t !in tasks
      modifies task, this`tasks
      ensures Slots() && (pid == -1 <==> |old(tasks)| == NR_TASKS)
      ensures pid == -1 ==> tasks == old(tasks)
      ensures pid != -1 ==> pid == |old(tasks)| && tasks == old(tasks) + [t]
    {
      var i := 2;
      while i < NR_TASKS && task[i] != null
        invariant 2 <= i <= |tasks|
      {
        i := i + 1;
      }
      if i != NR_TASKS && task[i] == null {
        task[i] := t;
        tasks := tasks + [t];
        return i;
      }
      return -1;
    }

    /** The task-table part of `sys_fork`, up to the switch to the child. */
    method Fork(random: Word) returns (pid: int)
      requires Valid() && current != idle && |tasks| < NR_TASKS
      modifies this, task
      ensures Valid() && pid == |old(tasks)| == |tasks| - 1 && fresh(tasks[pid]) && tasks[..pid] == old(tasks)
      ensures state == Forked(old(state), random % 10 + 1) && current == tasks[pid] && tasks[pid].pid == pid
      ensures tasks[pid].counter == old(current.counter) && tasks[pid].priority == random % 10 + 1
      ensures forall i :: 0 <= i < pid ==>
                tasks[i].counter == old(tasks[i].counter) && tasks[i].priority == old(tasks[i].priority)
    {
      var child := new Task();
      pid := AddTask(child);
      child.counter := current.counter;
      child.pid := pid;
      child.priority := random % 10 + 1;
      state := Forked(state, random % 10 + 1);
      SwitchTo(child);
    }

    method SwitchTo(next: Task)
      modifies this`current
      ensures current == next
    {
      current := next;
    }

    /** `do_timer`. */
    method DoTimer()
      requires Valid()
      modifies this`current, this`state, tasks
      ensures Valid() && state == Tick(old(state)) && tasks == old(tasks)
    {
      hide Dispatchable, Bounded, Schedule;
      ghost var s := state;
      TickGood(s);
      FairDispatches(s.slots);
      FairDispatches(SetCounter(s.slots, s.current, 0));
      if current == idle {
        ScheduleByPriority(s.slots);
      } else if current.counter == 0 {
        ScheduleByPriority(s.slots);
      } else {
        current.counter := current.counter - 1;
        assert Shows(SetCounter(s.slots, s.current, current.counter));
        if current.counter == 0 {
          ScheduleByPriority(SetCounter(s.slots, s.current, 0));
        } else {
          state := Tick(s);
        }
      }
    }

    /** `schedule_priority`: at most one round of recharging, then the switch. */
    method ScheduleByPriority(ghost slots: seq<Slot>)
      requires Slots() && Shows(slots) && Bounded(slots) && Dispatchable(slots)
      modifies this`current, this`state, tasks
      ensures Consistent() && state == Schedule(slots) && state.current > 0 && tasks == old(tasks)
    {
      hide Recharge, PickAbove, Bounded, Dispatchable;
      DispatchesIff(slots);
      ghost var now, recharged := slots, false;
      var c, next := Scan(now);
      while c == 0
        invariant Slots() && Shows(now) && tasks == old(tasks)
        invariant now == (if recharged then Recharge(slots) else slots) && (recharged ==> Pick(slots) == 0)
        invariant next == Pick(now) && c == Counter(now, next)
        decreases !recharged
      {
        PickIsBest(now, 0);
        RechargeAll(now);
        now, recharged := Recharge(now), true;
        c, next := Scan(now);
      }
      PickIsBest(now, 0);
      state := Schedule(slots);
      SwitchTo(task[next]);
    }

    /** Lines 169 to 178 of proc.c. */
    method Scan(ghost slots: seq<Slot>) returns (c: Word, next: nat)
      requires Slots() && Shows(slots)
      ensures next == Pick(slots) && c == Counter(slots, next)
    {
      c, next := 0, 0;
      var i := NR_TASKS - 1;
      while i > 0
        invariant 0 <= i < NR_TASKS
        invariant next == PickAbove(slots, i) && c == Counter(slots, next)
      {
        if task[i] != null && task[i].counter > c {
          c := task[i].counter;
          next := i;
        }
        i := i - 1;
      }
    }

    /** Lines 182 to 186 of proc.c. */
    method RechargeAll(ghost slots: seq<Slot>)
      requires Slots() && Shows(slots) && Bounded(slots)
      modifies tasks
      ensures Slots() && Shows(Recharge(slots))
    {
      hide Recharge, Bounded;
      RechargeEnds(slots);
      var i := NR_TASKS - 1;
      while i > 0
        invariant 0 <= i < NR_TASKS && Slots() && PartlyRecharged(slots, i)
      {
        if task[i] != null {
          RechargedAt(slots, i);
          task[i].counter := (task[i].priority + task[i].counter / 2) % TWO_64;
        }
        i := i - 1;
      }
    }

    ghost predicate PartlyRecharged(slots: seq<Slot>, i: nat)
      reads this, tasks
    {
      && |slots| == |tasks|
      && forall j :: 0 <= j < |tasks| ==>
           && tasks[j].priority == slots[j].priority && tasks[j].pid == j
           && tasks[j].counter == if j > i then Recharge(slots)[j].counter else slots[j].counter
    }
  }

  lemma TableFacts(t: TaskTable)
    requires t.Valid()
    ensures t.state.current < |t.tasks| == |t.state.slots| && t.current == t.tasks[t.state.current]
    ensures Fair(t.state.slots)
    ensures t.current.pid == t.state.current && t.current.counter == t.state.slots[t.state.current].counter
    ensures t.state.current > 0 ==> t.current != t.idle
  {}
}
