/**
 What one operation of the scheduler does to every process: who runs next, in which order the
 others wait, and which slices, deadlines and marks change.
 */
module SchedulerEffects {
  import opened Words
  import opened Scheduler
  import opened SchedulerConservation
  import opened SchedulerTiming

  // ------------------------------------------------------------ order of waking

  /** `p` comes before `q` in `line`. */
  ghost predicate Before<P>(line: seq<P>, p: P, q: P) {
    exists i, j :: 0 <= i < j < |line| && line[i] == p && line[j] == q
  }

  ghost predicate InOrder<P>(part: seq<P>, line: seq<P>) {
    forall i, j :: 0 <= i < j < |part| ==> Before(line, part[i], part[j])
  }

  lemma BeforeGrows<P>(init: seq<P>, last: P, part: seq<P>)
    requires InOrder(part, init) && forall p <- part :: p in init
    ensures InOrder(part, init + [last]) && InOrder(part + [last], init + [last])
  {
    var w := init + [last];
    forall i, j | 0 <= i < j < |part| ensures Before(w, part[i], part[j]) {
      assert Before(init, part[i], part[j]);
      var a, b :| 0 <= a < b < |init| && init[a] == part[i] && init[b] == part[j];
      assert w[a] == part[i] && w[b] == part[j];
    }
    forall i | 0 <= i < |part| ensures Before(w, part[i], last) {
      assert part[i] in init;
      var a :| 0 <= a < |init| && init[a] == part[i];
      assert w[a] == part[i] && w[|init|] == last;
    }
  }

  lemma {:induction false} DueOrder<P>(w: seq<P>, timeEnd: map<P, u32>, now: u32)
    requires forall p <- w :: p in timeEnd
    ensures InOrder(DueOf(w, timeEnd, now), w) && InOrder(AsleepOf(w, timeEnd, now), w)
  {
    if w != [] {
      var init, last := w[..|w| - 1], w[|w| - 1];
      DueOrder(init, timeEnd, now);
      WakeMembers(init, timeEnd, now);
      BeforeGrows(init, last, DueOf(init, timeEnd, now));
      BeforeGrows(init, last, AsleepOf(init, timeEnd, now));
      assert w == init + [last];
    }
  }

  lemma Reversed<P>(due: seq<P>, w: seq<P>, rest: seq<P>)
    requires InOrder(due, w)
    ensures var line := Reverse(due) + rest;
      line[..|due|] == Reverse(due) && forall i, j :: 0 <= i < j < |due| ==> Before(w, line[j], line[i])
  {
    var line := Reverse(due) + rest;
    forall i, j | 0 <= i < j < |due| ensures Before(w, line[j], line[i]) {
      ReverseAt(due, i);
      ReverseAt(due, j);
      assert Before(w, due[|due| - 1 - j], due[|due| - 1 - i]);
    }
  }

  lemma {:induction false} ReverseAt<P>(s: seq<P>, k: nat)
    requires k < |s|
    ensures Reverse(s)[k] == s[|s| - 1 - k]
  {
    if k > 0 {
      ReverseAt(s[..|s| - 1], k - 1);
    }
  }

  ghost predicate Due<P>(s: Sched<P>, p: P)
    requires WellFormed(s)
  {
    p in s.waiting && s.now >= s.timeEnd[p]
  }

  ghost predicate SomebodyAwake<P>(s: Sched<P>)
    requires WellFormed(s)
  {
    s.ready != [] || exists p <- s.waiting :: Due(s, p)
  }

  /** The line that forms when sleepers wake: first those that are due, whoever is deeper in the waiting queue
      and so fell asleep earlier going first, and then who was ready before.  The others sleep on in order. */
  lemma WakeOrder<P>(s: Sched<P>)
    requires WellFormed(s)
    ensures var line, n := Wake(s).ready, |Wake(s).ready| - |s.ready|;
      && n >= 0 && line[n..] == s.ready
      && (forall i :: 0 <= i < n ==> Due(s, line[i]))
      && (forall i, j :: 0 <= i < j < n ==> Before(s.waiting, line[j], line[i]))
      && (forall p <- s.waiting :: Due(s, p) ==> p in line[..n])
    ensures var on := Wake(s).waiting;
      && (forall i, j :: 0 <= i < j < |on| ==> Before(s.waiting, on[i], on[j]))
      && (forall p <- s.waiting :: p in on <==> !Due(s, p))
      && (forall p <- on :: p in s.waiting)
  {
    var due := DueOf(s.waiting, s.timeEnd, s.now);
    WakeMembers(s.waiting, s.timeEnd, s.now);
    DueOrder(s.waiting, s.timeEnd, s.now);
    ReverseMembers(due);
    Reversed(due, s.waiting, s.ready);
    assert forall i :: 0 <= i < |due| ==> Reverse(due)[i] in Reverse(due);
  }

  // ----------------------------------------------------------- who runs next

  /** The current process can go on: it is active with time left, or it is idle or active and nobody else is awake. */
  ghost predicate GoesOn<P>(e: Sched<P>)
    requires WellFormed(e)
  {
    && e.current.Some?
    && var p := e.current.value;
       if SomebodyAwake(e) then e.state[p] == Active && e.now < e.timeEnd[p]
       else e.state[p] in {Active, Idle}
  }

  lemma AwakeLine<P>(e: Sched<P>)
    requires WellFormed(e)
    ensures SomebodyAwake(e) <==> Wake(e).ready != []
  {
    WakeOrder(e);
    if e.ready == [] && Wake(e).ready != [] {
      assert Due(e, Wake(e).ready[0]);
    }
  }

  lemma WakeState<P>(e: Sched<P>, p: P)
    requires WellFormed(e) && p in e.state
    ensures p in Wake(e).state && Wake(e).state[p] == if Due(e, p) then Ready else e.state[p]
  {
    WakeMembers(e.waiting, e.timeEnd, e.now);
  }

  lemma DispatchChooses<P>(w: Sched<P>)
    requires OnEntry(w)
    ensures var r, active := Dispatch(w), w.current.Some? && w.state[w.current.value] == Active;
      if w.ready == [] then
        r.ready == [] && r.current == if active || w.current == w.idle then w.current else w.idle
      else if active && w.now < w.timeEnd[w.current.value] then
        r.current == w.current && r.ready == w.ready
      else
        && r.current == Some(w.ready[0]) != w.current
        && r.ready == w.ready[1..] + if active then [w.current.value] else []
    ensures Dispatch(w).waiting == w.waiting && Dispatch(w).now == w.now && Dispatch(w).idle == w.idle
  {
    if w.ready != [] {
      assert w.ready[0] in w.ready;
    }
  }

  /** Who runs after a schedule: the current process if it can go on, otherwise the first in line or, if there is
      none, idle.  A process whose slice is over goes to the end of the line. */
  lemma RunsNext<P>(e: Sched<P>)
    requires OnEntry(e)
    ensures var r, line := Schedule(e), Wake(e).ready;
      && r.current.Some? && r.waiting == Wake(e).waiting && r.now == e.now && r.idle == e.idle
      && if GoesOn(e) then r.current == e.current && r.ready == line
         else if line == [] then r.current == e.idle && r.ready == []
         else
           && r.current == Some(line[0]) != e.current
           && r.ready == line[1..] +
              if e.current.Some? && e.state[e.current.value] == Active then [e.current.value] else []
  {
    WakeKeeps(e);
    AwakeLine(e);
    DispatchChooses(Wake(e));
    if e.current.Some? {
      WakeState(e, e.current.value);
    }
  }

  // ------------------------------------------------------- what is left alone

  lemma DispatchEffect<P>(w: Sched<P>, p: P)
    requires OnEntry(w) && p in w.state
    ensures var r := Dispatch(w);
      && p in r.state
      && r.timeEnd[p] == (if r.current == Some(p) && w.current != Some(p) then Add32(w.now, 8) else w.timeEnd[p])
      && r.state[p] == if r.current == Some(p) && w.current != Some(p) && w.idle != Some(p) then Active else w.state[p]
  {
    if w.ready != [] {
      assert w.ready[0] in w.ready;
    }
  }

  /** A schedule writes the slice of the process that takes over, which gets 8 ticks, and no other `time_end`;
      it marks that process active (idle keeps its mark) and those it wakes ready, and marks nobody else. */
  lemma ScheduleEffect<P>(e: Sched<P>, p: P)
    requires OnEntry(e) && p in e.state
    ensures var r := Schedule(e);
      var takesOver := r.current == Some(p) && e.current != Some(p);
      && p in r.state
      && r.timeEnd[p] == (if takesOver then (e.now + 8) % WORD else e.timeEnd[p])
      && r.state[p] == if takesOver && e.idle != Some(p) then Active else if Due(e, p) then Ready else e.state[p]
  {
    WakeKeeps(e);
    WakeState(e, p);
    DispatchEffect(Wake(e), p);
    Add32Mod(e.now, 8);
  }

  /** The clock counts ticks, and nothing else. */
  lemma ClockCounts<P>(s: Sched<P>, op: Op<P>)
    requires Inv(s) && Legal(s, op)
    ensures Step(s, op).now == if op.Tick? then (s.now + 1) % WORD else s.now
  {
    if op.Tick? {
      Add32Mod(s.now, 1);
    }
    if !op.Register? && !op.Yield? {
      EnterKeeps(s, op);
      RunsNext(Enter(s, op));
    }
  }

  // ---------------------------------------------------------- the operations

  lemma NobodyOverdue<P>(s: Sched<P>)
    requires Inv(s)
    ensures Wake(s).ready == s.ready && Wake(s).waiting == s.waiting
  {
    NobodyDue(s.waiting, s.timeEnd, s.now);
    assert Reverse<P>([]) + s.ready == s.ready;
  }

  /** The first who is ready, or idle. */
  ghost function FirstOf<P>(s: Sched<P>): Option<P> {
    if s.ready == [] then s.idle else Some(s.ready[0])
  }

  /** Whoever exits is gone, and the first who is ready takes over at once, or idle does. */
  lemma ExitHandsOver<P>(s: Sched<P>)
    requires Inv(s) && Legal(s, Exit)
    ensures var r := Step(s, Exit);
      && r.current == FirstOf(s) && r.ready == (if s.ready == [] then [] else s.ready[1..]) && r.waiting == s.waiting
  {
    var e := Enter(s, Exit);
    EnterKeeps(s, Exit);
    RunsNext(e);
    AwakeLine(e);
    NobodyOverdue(s);
    assert Wake(e).ready == Wake(s).ready && Wake(e).waiting == Wake(s).waiting;
    assert s.ready == [] ==> s.ready + [] == [];
  }

  lemma SleepEnters<P>(s: Sched<P>, msec: u32, e: Sched<P>)
    requires Inv(s) && Legal(s, SleepFor(msec)) && e == Enter(s, SleepFor(msec))
    ensures OnEntry(e) && Wake(e).ready == s.ready && Wake(e).waiting == [s.current.value] + s.waiting
  {
    EnterKeeps(s, SleepFor(msec));
    NobodyDue(e.waiting, e.timeEnd, e.now);
    assert Reverse<P>([]) + s.ready == s.ready;
  }

  /** Whoever sleeps goes to the front of the waiting queue, and the first who is ready takes over, or idle. */
  lemma SleepHandsOver<P>(s: Sched<P>, msec: u32)
    requires Inv(s) && Legal(s, SleepFor(msec))
    ensures var r := Step(s, SleepFor(msec));
      && r.current == FirstOf(s) && r.ready == (if s.ready == [] then [] else s.ready[1..])
      && r.waiting == [s.current.value] + s.waiting
  {
    var e := Enter(s, SleepFor(msec));
    SleepEnters(s, msec, e);
    RunsNext(e);
    AwakeLine(e);
    assert e.current == s.current && e.state[s.current.value] == Sleep;
  }

  /** A new process is ready, in front of all others, and nothing else changes. */
  lemma RegisterEffect<P>(s: Sched<P>, p: P, garbage: u32, q: P)
    requires Inv(s) && Legal(s, Register(p, garbage)) && q in s.state && q != p
    ensures var r := Step(s, Register(p, garbage));
      && |r.ready| == |s.ready| + 1 && r.ready[0] == p && r.ready[1..] == s.ready && r.waiting == s.waiting
      && r.current == s.current && r.idle == s.idle && r.now == s.now && r.state[p] == Ready && r.timeEnd[p] == garbage
      && r.state[q] == s.state[q] && r.timeEnd[q] == s.timeEnd[q]
  {
  }

  /** The first in line when the sleepers that are due have woken, or idle. */
  ghost function NextInLine<P>(e: Sched<P>): Option<P>
    requires WellFormed(e)
  {
    if Wake(e).ready == [] then e.idle else Some(Wake(e).ready[0])
  }

  lemma ScheduleChooses<P>(e: Sched<P>)
    requires OnEntry(e)
    ensures var r := Schedule(e);
      && r.current == (if GoesOn(e) then e.current else NextInLine(e))
      && (!GoesOn(e) && SomebodyAwake(e) && e.current.Some? && e.state[e.current.value] == Active ==>
            e.current != NextInLine(e) && r.ready != [] && r.ready[|r.ready| - 1] == e.current.value)
  {
    RunsNext(e);
    AwakeLine(e);
  }

  /** A tick, by who is awake then. */
  lemma TickChooses<P>(s: Sched<P>, e: Sched<P>, r: Sched<P>)
    requires Inv(s) && Timely(s, Tick) && e == s.(now := s.now + 1) && r == Step(s, Tick)
    ensures OnEntry(e)
    ensures r.current == if GoesOn(e) then s.current else NextInLine(e)
    ensures !GoesOn(e) && SomebodyAwake(e) && s.current.Some? && s.current != s.idle ==>
      s.current != NextInLine(e) && r.ready != [] && r.ready[|r.ready| - 1] == s.current.value
  {
    assert OnEntry(e) && r == Schedule(e) && e == Enter(s, Tick) by {
      EnterKeeps(s, Tick);
    }
    ScheduleChooses(e);
  }

  /** A process registered while the current one has run out of time, or is idle, runs from the next tick on, unless a
      sleeper is due then. */
  lemma NewcomerRunsNext<P>(s: Sched<P>, p: P, garbage: u32, r: Sched<P>)
    requires Inv(s) && Legal(s, Register(p, garbage)) && r == Step(s, Register(p, garbage)) && Timely(r, Tick)
    requires s.current.Some? && (s.current == s.idle || s.timeEnd[s.current.value] <= s.now + 1)
    requires forall q <- s.waiting :: s.timeEnd[q] > s.now + 1
    ensures Step(r, Tick).current == Some(p)
  {
    var e := r.(now := r.now + 1);
    StepKeeps(s, Register(p, garbage));
    TickChooses(r, e, Step(r, Tick));
    WakeOrder(e);
    assert forall q <- e.waiting :: !Due(e, q);
    assert Wake(e).ready[0] == p;
  }

  /** A yield ends the caller's slice now, and changes nothing else. */
  lemma YieldWrites<P>(s: Sched<P>, y: Sched<P>)
    requires Inv(s) && Legal(s, Yield) && y == Step(s, Yield)
    ensures Inv(y) && y == s.(timeEnd := y.timeEnd) && y.timeEnd.Keys == s.timeEnd.Keys
    ensures forall q <- s.timeEnd.Keys :: y.timeEnd[q] == if s.current == Some(q) then s.now else s.timeEnd[q]
  {
    StepKeeps(s, Yield);
  }

  /** Whoever yields goes to the end of the line at the next tick, if anybody is awake then; otherwise it runs on. */
  lemma YieldEffect<P>(s: Sched<P>, y: Sched<P>, e: Sched<P>, r: Sched<P>)
    requires Inv(s) && Timely(s, Yield) && y == Step(s, Yield) && e == y.(now := y.now + 1) && r == Step(y, Tick)
    ensures WellFormed(e)
    ensures
      if SomebodyAwake(e) then
        r.current == NextInLine(e) != s.current && r.ready != [] && Some(r.ready[|r.ready| - 1]) == s.current
      else r.current == s.current
  {
    YieldWrites(s, y);
    TickChooses(y, e, r);
  }

  // ------------------------------------------------------------------ slices

  ghost predicate Passive<P>(op: Op<P>) { op.Tick? || op.Register? || op.Reschedule? }

  /** A slice is not prolonged: its end is written when a process takes over, and not while it runs. */
  lemma SliceKept<P>(s: Sched<P>, op: Op<P>, p: P)
    requires Inv(s) && Legal(s, op) && Passive(op) && s.current == Some(p) == Step(s, op).current
    ensures p in Step(s, op).timeEnd && Step(s, op).timeEnd[p] == s.timeEnd[p]
  {
    if !op.Register? {
      EnterKeeps(s, op);
      ScheduleEffect(Enter(s, op), p);
    }
  }

  ghost predicate RunsOn<P>(s: Sched<P>, ops: seq<Op<P>>, p: P)
    requires LegalRun(s, ops)
    decreases |ops|
  {
    s.current == Some(p) && (ops == [] || (Passive(ops[0]) && RunsOn(Step(s, ops[0]), ops[1..], p)))
  }

  /** So through every run in which it keeps the processor. */
  lemma {:induction false} SliceKeptThroughout<P>(s: Sched<P>, ops: seq<Op<P>>, p: P)
    requires Inv(s) && LegalRun(s, ops) && RunsOn(s, ops, p)
    ensures p in Run(s, ops).timeEnd && Run(s, ops).timeEnd[p] == s.timeEnd[p]
    decreases |ops|
  {
    if ops != [] {
      StepKeeps(s, ops[0]);
      SliceKept(s, ops[0], p);
      SliceKeptThroughout(Step(s, ops[0]), ops[1..], p);
    }
  }

  /** Whoever takes over may run for 8 ticks: up to then neither ticks nor registrations take the processor away. */
  lemma SliceLasts<P>(e: Sched<P>, r: Sched<P>, p: P, ops: seq<Op<P>>)
    requires OnEntry(e) && r == Schedule(e) && r.current == Some(p) != e.current && Some(p) != e.idle
    requires TimelyRun(r, ops) && (forall op <- ops :: op.Tick? || op.Register?) && Ticks(ops) < 8 && e.now + 8 < WORD
    ensures Run(r, ops).current == Some(p)
  {
    ScheduleKeeps(e);
    RunsNext(e);
    assert p in e.state by {
      Took(e, p);
    }
    ScheduleEffect(e, p);
    KeepsSlice(r, ops, p);
  }

  lemma Took<P>(e: Sched<P>, p: P)
    requires OnEntry(e) && Schedule(e).current == Some(p)
    ensures p in e.state
  {
    assert WellFormed(Schedule(e)) && WellFormed(Wake(e));
    assert Schedule(e).state.Keys == Wake(e).state.Keys == e.state.Keys by {
      KeysStay(Wake(e));
    }
  }

  lemma KeysStay<P>(w: Sched<P>)
    requires WellFormed(w)
    ensures Dispatch(w).state.Keys == w.state.Keys
  {
  }

  lemma EarliestFirst<P>(e: Sched<P>, q: P)
    requires OnEntry(e) && e.ready == [] && Due(e, q)
    requires forall x <- e.waiting :: x != q && Due(e, x) ==> Before(e.waiting, x, q)
    ensures NextInLine(e) == Some(q)
  {
    WakeOrder(e);
    FirstDue(e.waiting, Wake(e).ready, q);
  }

  /** At the end of a slice a sleeper that is due by then runs at once, if nobody is ready: the earliest to fall
      asleep of those that are due. */
  lemma SleeperTakesOver<P>(s: Sched<P>, e: Sched<P>, p: P, q: P)
    requires Inv(s) && Timely(s, Tick) && s.current == Some(p) && s.ready == [] && e == s.(now := s.now + 1)
    requires s.timeEnd[p] <= s.now + 1 && q in s.waiting && s.timeEnd[q] <= s.now + 1
    requires forall x <- s.waiting :: x != q && s.timeEnd[x] <= s.now + 1 ==> Before(s.waiting, x, q)
    ensures Step(s, Tick).current == Some(q)
  {
    TickChooses(s, e, Step(s, Tick));
    assert Due(e, q);
    EarliestFirst(e, q);
  }

  lemma Asymmetric<P>(w: seq<P>, p: P, q: P)
    requires NoDup(w) && Before(w, p, q)
    ensures !Before(w, q, p)
  {
  }

  lemma FirstDue<P>(w: seq<P>, line: seq<P>, q: P)
    requires NoDup(w) && q in line && forall i, j :: 0 <= i < j < |line| ==> Before(w, line[j], line[i])
    requires forall x <- line :: x != q ==> Before(w, x, q)
    ensures line[0] == q
  {
    var j :| 0 <= j < |line| && line[j] == q;
    if j > 0 {
      assert Before(w, line[j], line[0]);
      Asymmetric(w, q, line[0]);
    }
  }

  /** Once scheduling has begun somebody always has the processor. */
  lemma {:induction false} NeverVacant<P>(s: Sched<P>, ops: seq<Op<P>>)
    requires Inv(s) && LegalRun(s, ops)
    requires s.current.Some? || (ops != [] && (ops[0].Tick? || ops[0].Reschedule?))
    ensures Run(s, ops).current.Some?
    decreases |ops|
  {
    if ops != [] {
      StepKeeps(s, ops[0]);
      if !ops[0].Register? && !ops[0].Yield? {
        EnterKeeps(s, ops[0]);
        RunsNext(Enter(s, ops[0]));
      }
      NeverVacant(Step(s, ops[0]), ops[1..]);
    }
  }
}
