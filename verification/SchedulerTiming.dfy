/**
 When processes run: bounded waiting in the ready queue, punctual waking, and an
 idle process that runs only when nothing else can.
 */
module SchedulerTiming {
  import opened Words
  import opened Scheduler
  import opened SchedulerConservation

  // ---------------------------------------------------------------- no wrap

  /** A legal operation whose slices and clock stay clear of the 32-bit wrap. */
  ghost predicate Timely<P>(s: Sched<P>, op: Op<P>) {
    Legal(s, op) && s.now + 1 + SLICE < WORD
  }

  ghost predicate TimelyRun<P>(s: Sched<P>, ops: seq<Op<P>>)
    ensures TimelyRun(s, ops) ==> LegalRun(s, ops)
    decreases |ops|
  {
    ops == [] || (Timely(s, ops[0]) && TimelyRun(Step(s, ops[0]), ops[1..]))
  }

  /** Nobody has been given more than one slice. */
  ghost predicate Sliced<P>(s: Sched<P>) {
    WellFormed(s) && (s.current.Some? ==> s.timeEnd[s.current.value] <= s.now + SLICE)
  }

  // -------------------------------------------------------- bounded waiting

  /** Ticks until the running process can be preempted. */
  ghost function Rest<P>(s: Sched<P>): (r: nat)
    requires Sliced(s)
    ensures 1 <= r <= SLICE
  {
    if s.current.Some? && s.current != s.idle && s.timeEnd[s.current.value] > s.now + 1
    then s.timeEnd[s.current.value] - s.now else 1
  }

  /** Ticks that the process at index `k` of the ready queue may still have to wait. */
  ghost function Budget<P>(s: Sched<P>, k: nat): nat
    requires Sliced(s)
  {
    SLICE * k + Rest(s)
  }

  /** How many processes an operation pushes in front of the ready queue. */
  ghost function Pushed<P>(s: Sched<P>, op: Op<P>): nat
    requires Enabled(s, op)
  {
    match op
    case Register(_, _) => 1
    case Yield => 0
    case _ => var e := Enter(s, op); |DueOf(e.waiting, e.timeEnd, e.now)|
  }

  ghost function TickOf<P>(op: Op<P>): nat { if op.Tick? then 1 else 0 }

  /** `proc_schedule` either leaves an unfinished slice alone or moves the queue up by one. */
  lemma DispatchMoves<P>(w: Sched<P>, k: nat)
    requires OnEntry(w) && w.now + SLICE < WORD && k < |w.ready|
    ensures var r := Dispatch(w);
      || (r == w && w.current.Some? && w.state[w.current.value] == Active && w.now < w.timeEnd[w.current.value])
      || (k == 0 && r.current == Some(w.ready[0]))
      || (k > 0 && k - 1 < |r.ready| && r.ready[k - 1] == w.ready[k] && Sliced(r))
    ensures Sliced(w) ==> Sliced(Dispatch(w))
  {
  }

  lemma WakeShifts<P>(s: Sched<P>, k: nat)
    requires WellFormed(s) && k < |s.ready|
    ensures var due := DueOf(s.waiting, s.timeEnd, s.now);
      && k + |due| < |Wake(s).ready| && Wake(s).ready[k + |due|] == s.ready[k]
  {
  }

  /** A schedule entered from `s` at `e`, with the waiting process at index `j` once awake
      processes have been pushed in front. */
  lemma BudgetSchedule<P>(s: Sched<P>, e: Sched<P>, w: Sched<P>, j: nat) returns (k': nat)
    requires Sliced(s) && OnEntry(w) && j < |w.ready| && w.now + SLICE < WORD
    requires s.now <= e.now <= s.now + 1 && w.now == e.now && w.timeEnd == e.timeEnd
    requires w.current == e.current && w.idle == s.idle
    requires e.current.Some? && w.state[e.current.value] == Active ==> e.current == s.current && e.timeEnd == s.timeEnd
    ensures var r := Dispatch(w);
      r.current != Some(w.ready[j]) ==>
        && k' < |r.ready| && r.ready[k'] == w.ready[j] && Sliced(r)
        && Budget(r, k') + (e.now - s.now) <= SLICE * j + Rest(s)
  {
    DispatchMoves(w, j);
    k' := if Dispatch(w) == w || j == 0 then j else j - 1;
  }

  lemma EnterFacts<P>(s: Sched<P>, op: Op<P>)
    requires Inv(s) && Timely(s, op) && !op.Register? && !op.Yield?
    ensures var e := Enter(s, op);
      && OnEntry(e) && OnEntry(Wake(e)) && e.ready == s.ready && e.idle == s.idle
      && e.now == s.now + TickOf(op)
      && (e.current.Some? && Wake(e).state[e.current.value] == Active ==>
            e.current == s.current && e.timeEnd == s.timeEnd)
      && (e.current.Some? && e.current == e.idle ==> e.current == s.current && e.timeEnd == s.timeEnd)
  {
    EnterKeeps(s, op);
    WakeKeeps(Enter(s, op));
  }

  lemma BudgetFrom<P>(s: Sched<P>, e: Sched<P>, k: nat) returns (k': nat)
    requires Sliced(s) && OnEntry(e) && OnEntry(Wake(e)) && k < |s.ready|
    requires e.ready == s.ready && e.idle == s.idle && s.now <= e.now <= s.now + 1 && e.now + SLICE < WORD
    requires e.current.Some? && Wake(e).state[e.current.value] == Active ==>
      e.current == s.current && e.timeEnd == s.timeEnd
    ensures var r := Schedule(e);
      r.current != Some(s.ready[k]) ==>
        && Sliced(r) && k' < |r.ready| && r.ready[k'] == s.ready[k]
        && Budget(r, k') + (e.now - s.now) <= Budget(s, k) + SLICE * |DueOf(e.waiting, e.timeEnd, e.now)|
  {
    WakeShifts(e, k);
    k' := BudgetSchedule(s, e, Wake(e), k + |DueOf(e.waiting, e.timeEnd, e.now)|);
  }

  lemma BudgetEnter<P>(s: Sched<P>, op: Op<P>, k: nat) returns (k': nat)
    requires Inv(s) && Sliced(s) && Timely(s, op) && k < |s.ready| && !op.Register? && !op.Yield?
    ensures var r := Schedule(Enter(s, op));
      r.current != Some(s.ready[k]) ==>
        && Sliced(r) && k' < |r.ready| && r.ready[k'] == s.ready[k]
        && Budget(r, k') + TickOf(op) <= Budget(s, k) + SLICE * Pushed(s, op)
  {
    EnterFacts(s, op);
    k' := BudgetFrom(s, Enter(s, op), k);
  }

  /** One operation: the process at index `k` gets the processor, or its budget falls by the
      ticks that passed and grows by one slice for every process pushed in front. */
  lemma BudgetStep<P>(s: Sched<P>, op: Op<P>, k: nat) returns (k': nat)
    requires Inv(s) && Sliced(s) && Timely(s, op) && k < |s.ready|
    ensures var r := Step(s, op);
      r.current != Some(s.ready[k]) ==>
        && Sliced(r) && k' < |r.ready| && r.ready[k'] == s.ready[k]
        && Budget(r, k') + TickOf(op) <= Budget(s, k) + SLICE * Pushed(s, op)
  {
    match op
    case Register(_, _) => k' := k + 1;
    case Yield => k' := k;
    case _ => k' := BudgetEnter(s, op, k);
  }

  ghost function Ticks<P>(ops: seq<Op<P>>): nat {
    if ops == [] then 0 else TickOf(ops[0]) + Ticks(ops[1..])
  }

  /** Wakes and registrations that go in front of the ready queue during a run. */
  ghost function PushedBy<P>(s: Sched<P>, ops: seq<Op<P>>): nat
    requires TimelyRun(s, ops)
    decreases |ops|
  {
    if ops == [] then 0 else Pushed(s, ops[0]) + PushedBy(Step(s, ops[0]), ops[1..])
  }

  ghost predicate RunsDuring<P>(s: Sched<P>, ops: seq<Op<P>>, p: P)
    requires TimelyRun(s, ops)
    decreases |ops|
  {
    s.current == Some(p) || (ops != [] && RunsDuring(Step(s, ops[0]), ops[1..], p))
  }

  lemma {:induction false} BudgetRun<P>(s: Sched<P>, ops: seq<Op<P>>, k: nat)
    requires Inv(s) && Sliced(s) && TimelyRun(s, ops) && k < |s.ready|
    ensures RunsDuring(s, ops, s.ready[k]) || Ticks(ops) < Budget(s, k) + SLICE * PushedBy(s, ops)
    decreases |ops|
  {
    if ops != [] {
      var r := Step(s, ops[0]);
      StepKeeps(s, ops[0]);
      var k' := BudgetStep(s, ops[0], k);
      if r.current != Some(s.ready[k]) {
        BudgetRun(r, ops[1..], k');
      }
    }
  }

  /** Bounded waiting: whoever is at index `k` of the ready queue runs before
      8 * (k + 1 + m) ticks have passed, where `m` processes were pushed in front. */
  lemma BoundedWaiting<P>(s: Sched<P>, ops: seq<Op<P>>, k: nat)
    requires Inv(s) && Sliced(s) && TimelyRun(s, ops) && k < |s.ready|
    requires Ticks(ops) >= 8 * (k + 1 + PushedBy(s, ops))
    ensures RunsDuring(s, ops, s.ready[k])
  {
    BudgetRun(s, ops, k);
  }

  /** `Sliced` is no extra assumption: it holds before the first schedule, when nobody is
      current, and every timely operation keeps it. */
  lemma StepSliced<P>(s: Sched<P>, op: Op<P>)
    requires Inv(s) && Sliced(s) && Timely(s, op)
    ensures Sliced(Step(s, op))
  {
    if !op.Register? && !op.Yield? {
      EnterFacts(s, op);
      SlicedSchedule(s, Enter(s, op), Wake(Enter(s, op)));
    }
  }

  lemma SlicedSchedule<P>(s: Sched<P>, e: Sched<P>, w: Sched<P>)
    requires Sliced(s) && OnEntry(w) && w.now + SLICE < WORD && s.now <= w.now
    requires w.current == e.current && w.timeEnd == e.timeEnd
    requires e.current.Some? && w.state[e.current.value] == Active ==> e.current == s.current && e.timeEnd == s.timeEnd
    requires e.current.Some? && e.current == w.idle ==> e.current == s.current && e.timeEnd == s.timeEnd
    ensures Sliced(Dispatch(w))
  {
  }

  // ------------------------------------------------------- punctual waking

  ghost predicate Asleep<P>(s: Sched<P>, p: P, deadline: u32)
    requires WellFormed(s)
  {
    p in s.waiting && s.timeEnd[p] == deadline
  }

  ghost predicate Awake<P>(s: Sched<P>, p: P) {
    p in s.ready || s.current == Some(p)
  }

  lemma WakePunctual<P>(e: Sched<P>, p: P)
    requires OnEntry(e) && p in e.waiting
    ensures if e.now < e.timeEnd[p] then Asleep(Wake(e), p, e.timeEnd[p]) else p in Wake(e).ready
  {
    WakeMembers(e.waiting, e.timeEnd, e.now);
    ReverseMembers(DueOf(e.waiting, e.timeEnd, e.now));
  }

  lemma DispatchPunctual<P>(w: Sched<P>, p: P)
    requires OnEntry(w)
    ensures p in w.waiting ==> Asleep(Dispatch(w), p, w.timeEnd[p])
    ensures p in w.ready ==> Awake(Dispatch(w), p)
  {
    if p in w.ready && Dispatch(w) != w {
      var q := if w.current.Some? && w.state[w.current.value] == Active then w.ready + [w.current.value] else w.ready;
      var i :| 0 <= i < |w.ready| && w.ready[i] == p;
      assert q[i] == p && (i > 0 ==> q[1..][i - 1] == p);
    }
  }

  lemma SchedulePunctual<P>(e: Sched<P>, p: P)
    requires OnEntry(e) && p in e.waiting
    ensures var r := Schedule(e);
      r.now == e.now && if e.now < e.timeEnd[p] then Asleep(r, p, e.timeEnd[p]) else Awake(r, p)
  {
    WakeKeeps(e);
    WakePunctual(e, p);
    DispatchPunctual(Wake(e), p);
  }

  lemma EnterLeavesSleeper<P>(s: Sched<P>, op: Op<P>, p: P)
    requires Inv(s) && Legal(s, op) && p in s.waiting && !op.Register? && !op.Yield?
    ensures var e := Enter(s, op); OnEntry(e) && p in e.waiting && e.timeEnd[p] == s.timeEnd[p]
  {
    EnterKeeps(s, op);
  }

  /** One operation leaves a sleeper and its deadline alone before the deadline, and makes it
      ready or running at the deadline. */
  lemma SleeperStep<P>(s: Sched<P>, op: Op<P>, p: P)
    requires Inv(s) && Timely(s, op) && p in s.waiting
    ensures var r := Step(s, op);
      if r.now < s.timeEnd[p] then Asleep(r, p, s.timeEnd[p]) else Awake(r, p)
  {
    if !op.Register? && !op.Yield? {
      EnterLeavesSleeper(s, op, p);
      SchedulePunctual(Enter(s, op), p);
    }
  }

  /** Throughout a run a sleeper stays asleep, its deadline untouched by slice updates, exactly
      until the clock first shows its deadline; at that moment it is ready or running. */
  ghost predicate SleepsUntil<P>(s: Sched<P>, ops: seq<Op<P>>, p: P, deadline: u32)
    requires TimelyRun(s, ops)
    decreases |ops|
  {
    if s.now < deadline then
      && WellFormed(s) && Asleep(s, p, deadline)
      && (ops != [] ==> SleepsUntil(Step(s, ops[0]), ops[1..], p, deadline))
    else Awake(s, p)
  }

  lemma {:induction false} PunctualWaking<P>(s: Sched<P>, ops: seq<Op<P>>, p: P)
    requires Inv(s) && TimelyRun(s, ops) && p in s.waiting
    ensures SleepsUntil(s, ops, p, s.timeEnd[p])
    decreases |ops|
  {
    if ops != [] {
      var r := Step(s, ops[0]);
      StepKeeps(s, ops[0]);
      SleeperStep(s, ops[0], p);
      if r.now < s.timeEnd[p] {
        PunctualWaking(r, ops[1..], p);
      }
    }
  }

  lemma FallsAsleep<P>(s: Sched<P>, msec: u32)
    requires Inv(s) && Legal(s, SleepFor(msec))
    ensures var r := Step(s, SleepFor(msec)); Inv(r) && Asleep(r, s.current.value, s.now + msec)
  {
    var p, e := s.current.value, Enter(s, SleepFor(msec));
    EnterKeeps(s, SleepFor(msec));
    assert p in e.waiting && e.timeEnd[p] == s.now + msec && e.now == s.now;
    SchedulePunctual(e, p);
    ScheduleKeeps(e);
  }

  lemma SleepsOn<P>(r: Sched<P>, ops: seq<Op<P>>, p: P, deadline: u32)
    requires Inv(r) && TimelyRun(r, ops) && Asleep(r, p, deadline)
    ensures SleepsUntil(r, ops, p, deadline)
  {
    PunctualWaking(r, ops, p);
  }

  /** A sleep lasts as long as asked: the caller is asleep right away, and stays so until the clock
      first shows the time of the call plus `msec`. */
  lemma SleepLasts<P>(s: Sched<P>, p: P, msec: u32, r: Sched<P>, ops: seq<Op<P>>, deadline: u32)
    requires Inv(s) && s.current == Some(p) && Legal(s, SleepFor(msec)) && deadline == s.now + msec
    requires r == Step(s, SleepFor(msec)) && TimelyRun(r, ops)
    ensures SleepsUntil(r, ops, p, deadline)
  {
    assert Inv(r) && Asleep(r, p, deadline) by {
      FallsAsleep(s, msec);
    }
    SleepsOn(r, ops, p, deadline);
  }

  // ------------------------------------------------------------------ slices

  /** A tick before the end of the slice leaves the running process alone. */
  lemma TickInSlice<P>(s: Sched<P>, p: P)
    requires Inv(s) && Timely(s, Tick) && s.current == Some(p) != s.idle && s.now + 1 < s.timeEnd[p]
    ensures var r := Step(s, Tick);
      r.now == s.now + 1 && r.current == Some(p) && r.timeEnd == s.timeEnd && r.idle == s.idle
  {
    WakeLeavesOthers(Enter(s, Tick), p);
  }

  lemma SliceStep<P>(s: Sched<P>, op: Op<P>, p: P)
    requires Inv(s) && Timely(s, op) && s.current == Some(p) != s.idle
    requires (op.Tick? || op.Register?) && s.now + TickOf(op) < s.timeEnd[p]
    ensures var r := Step(s, op);
      && Inv(r) && r.now == s.now + TickOf(op) && r.current == Some(p) != r.idle
      && p in r.timeEnd && r.timeEnd[p] == s.timeEnd[p]
  {
    StepKeeps(s, op);
    if op.Tick? {
      TickInSlice(s, p);
    }
  }

  /** While nobody but the clock and new registrations interfere, a process keeps the processor up to
      the end of its slice, which `proc_switch` puts 8 ticks ahead. */
  lemma {:induction false} KeepsSlice<P>(s: Sched<P>, ops: seq<Op<P>>, p: P)
    requires Inv(s) && TimelyRun(s, ops) && s.current == Some(p) != s.idle
    requires (forall op <- ops :: op.Tick? || op.Register?) && s.now + Ticks(ops) < s.timeEnd[p]
    ensures Run(s, ops).current == Some(p)
    decreases |ops|
  {
    if ops != [] {
      assert ops[0] in ops;
      SliceStep(s, ops[0], p);
      KeepsSlice(Step(s, ops[0]), ops[1..], p);
    }
  }

  /** A process whose slice is over goes to the end of a queue that is not empty. */
  lemma GivesWay<P>(w: Sched<P>, p: P)
    requires OnEntry(w) && w.ready != [] && w.current == Some(p) && w.state[p] == Active && w.now >= w.timeEnd[p]
    ensures var r := Dispatch(w);
      r.current != Some(p) && r.ready != [] && r.ready[|r.ready| - 1] == p
  {
    assert w.ready[0] in w.ready;
  }

  lemma YieldThenTick<P>(s: Sched<P>, y: Sched<P>)
    requires Inv(s) && Timely(s, Yield) && s.ready != [] && y == Step(s, Yield)
    ensures var e := Enter(y, Tick);
      && OnEntry(e) && e.current == s.current && e.ready == s.ready && e.state == s.state
      && e.now >= e.timeEnd[s.current.value]
      && s.current.value !in e.ready && s.current.value !in e.waiting
  {
    StepKeeps(s, Yield);
    EnterKeeps(y, Tick);
  }

  /** Whoever yields is behind everybody else after the next tick, if anybody is ready. */
  lemma YieldGivesWay<P>(s: Sched<P>)
    requires Inv(s) && Timely(s, Yield) && s.ready != []
    ensures var r := Step(Step(s, Yield), Tick);
      r.current != s.current && r.ready != [] && Some(r.ready[|r.ready| - 1]) == s.current
  {
    var p, e := s.current.value, Enter(Step(s, Yield), Tick);
    YieldThenTick(s, Step(s, Yield));
    WakeKeeps(e);
    WakeLeavesOthers(e, p);
    GivesWay(Wake(e), p);
  }

  // ------------------------------------------------------ work conservation

  lemma BusyDispatch<P>(w: Sched<P>)
    requires OnEntry(w) && w.ready != []
    ensures Dispatch(w).current != w.idle
  {
    assert w.ready[0] in w.ready;
  }

  /** After a schedule the idle process runs only if nothing is ready and nobody is due. */
  lemma IdleOnlyWhenNothingToDo<P>(e: Sched<P>)
    requires OnEntry(e) && Schedule(e).current == e.idle
    ensures Schedule(e).ready == [] && e.ready == []
    ensures Schedule(e).waiting == e.waiting && forall p <- e.waiting :: e.now < e.timeEnd[p]
  {
    WakeKeeps(e);
    if Wake(e).ready != [] {
      BusyDispatch(Wake(e));
    }
    forall p | p in e.waiting ensures e.now < e.timeEnd[p] { WakePunctual(e, p); }
    NobodyDue(e.waiting, e.timeEnd, e.now);
  }

  lemma {:induction false} NobodyDue<P>(w: seq<P>, timeEnd: map<P, u32>, now: u32)
    requires forall p <- w :: p in timeEnd && now < timeEnd[p]
    ensures AsleepOf(w, timeEnd, now) == w && DueOf(w, timeEnd, now) == []
  {
    if w != [] {
      var init, last := w[..|w| - 1], w[|w| - 1];
      NobodyDue(init, timeEnd, now);
      assert AsleepOf(w, timeEnd, now) == AsleepOf(init, timeEnd, now) + [last];
      assert w == init + [last];
    }
  }
}
