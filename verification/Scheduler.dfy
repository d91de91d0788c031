/**
 The scheduler of kernel/proc.c as transitions on values: two queues, a current
 and an idle process, a millisecond clock, and for every process its state and
 `time_end`, which is both the end of its slice and its sleep deadline.
 `SchedulerHeap` proves that the linked-list code computes exactly these
 transitions; this module proves what whole runs of them keep.
 */
module Scheduler {
  import opened Words

  const SLICE: u32 := 8

  datatype ProcState = Active | Ready | Sleep | Idle

  datatype Sched<!P(==)> = Sched(
    now: u32,
    current: Option<P>,
    idle: Option<P>,
    ready: seq<P>,
    waiting: seq<P>,
    state: map<P, ProcState>,
    timeEnd: map<P, u32>)

  /** Every process the scheduler refers to has a state and a `time_end`. */
  ghost predicate WellFormed<P>(s: Sched<P>) {
    && s.state.Keys == s.timeEnd.Keys
    && (s.current.Some? ==> s.current.value in s.state)
    && (s.idle.Some? ==> s.idle.value in s.state)
    && (forall p <- s.ready :: p in s.state)
    && (forall p <- s.waiting :: p in s.state)
  }

  // ---------------------------------------------------------------- schedule

  /** The members of `w` whose deadline has come, in order. */
  function DueOf<P>(w: seq<P>, timeEnd: map<P, u32>, now: u32): seq<P>
    requires forall p <- w :: p in timeEnd
  {
    if w == [] then []
    else
      var p := w[|w| - 1];
      DueOf(w[..|w| - 1], timeEnd, now) + (if now >= timeEnd[p] then [p] else [])
  }

  /** The members of `w` that sleep on, in order. */
  function AsleepOf<P>(w: seq<P>, timeEnd: map<P, u32>, now: u32): seq<P>
    requires forall p <- w :: p in timeEnd
  {
    if w == [] then []
    else
      var p := w[|w| - 1];
      AsleepOf(w[..|w| - 1], timeEnd, now) + (if now < timeEnd[p] then [p] else [])
  }

  lemma {:induction false} WakeMembers<P>(w: seq<P>, timeEnd: map<P, u32>, now: u32)
    requires forall p <- w :: p in timeEnd
    ensures forall p <- DueOf(w, timeEnd, now) :: p in w && now >= timeEnd[p]
    ensures forall p <- AsleepOf(w, timeEnd, now) :: p in w && now < timeEnd[p]
    ensures forall p <- w :: p in if now >= timeEnd[p] then DueOf(w, timeEnd, now) else AsleepOf(w, timeEnd, now)
  {
    if w != [] {
      WakeMembers(w[..|w| - 1], timeEnd, now);
      assert w == w[..|w| - 1] + [w[|w| - 1]];
    }
  }

  function Reverse<P>(s: seq<P>): (r: seq<P>)
    ensures |r| == |s|
  {
    if s == [] then [] else [s[|s| - 1]] + Reverse(s[..|s| - 1])
  }

  lemma {:induction false} ReverseMembers<P>(s: seq<P>)
    ensures forall p <- Reverse(s) :: p in s
    ensures forall p <- s :: p in Reverse(s)
  {
    if s != [] {
      ReverseMembers(s[..|s| - 1]);
      assert s == s[..|s| - 1] + [s[|s| - 1]];
    }
  }

  function MarkReady<P>(state: map<P, ProcState>, due: seq<P>): map<P, ProcState> {
    map p | p in state :: if p in due then Ready else state[p]
  }

  function Wake<P>(s: Sched<P>): (r: Sched<P>)
    requires WellFormed(s)
    ensures WellFormed(r)
  {
    var due := DueOf(s.waiting, s.timeEnd, s.now);
    WakeMembers(s.waiting, s.timeEnd, s.now);
    ReverseMembers(due);
    s.(ready := Reverse(due) + s.ready,
       waiting := AsleepOf(s.waiting, s.timeEnd, s.now),
       state := MarkReady(s.state, due))
  }

  /** `proc_switch`: a fresh slice for the process that becomes current. */
  function SwitchTo<P>(s: Sched<P>, p: P): (r: Sched<P>)
    requires WellFormed(s) && p in s.state
    ensures WellFormed(r)
  {
    s.(current := Some(p), timeEnd := s.timeEnd[p := Add32(s.now, SLICE)])
  }

  function Dispatch<P>(s: Sched<P>): (r: Sched<P>)
    requires WellFormed(s)
    ensures WellFormed(r)
  {
    var active := s.current.Some? && s.state[s.current.value] == Active;
    if s.ready == [] then
      if (s.current.None? || s.state[s.current.value] !in {Active, Idle}) && s.idle.Some?
      then SwitchTo(s, s.idle.value)
      else s
    else if active && s.now < s.timeEnd[s.current.value] then s
    else
      var queue := if active then s.ready + [s.current.value] else s.ready;
      var popped := s.(ready := queue[1..]);
      if s.current == Some(queue[0]) then popped
      else SwitchTo(popped.(state := s.state[queue[0] := Active]), queue[0])
  }

  function Schedule<P>(s: Sched<P>): (r: Sched<P>)
    requires WellFormed(s)
    ensures WellFormed(r)
  {
    Dispatch(Wake(s))
  }

  // -------------------------------------------------------------- operations

  /** `Register` carries the `time_end` that fresh process memory happens to hold;
      `Reschedule` is the bare call that ends booting (kernel/kernel.c:260). */
  datatype Op<+P> =
    | Register(proc: P, garbage: u32)
    | Tick
    | SleepFor(msec: u32)
    | Yield
    | Exit
    | Reschedule

  ghost predicate Enabled<P>(s: Sched<P>, op: Op<P>) {
    && WellFormed(s)
    && (op.SleepFor? || op.Yield? || op.Exit? ==> s.current.Some?)
  }

  /** What an operation does before it calls `proc_schedule`; registering and
      yielding never call it. */
  function Enter<P>(s: Sched<P>, op: Op<P>): (r: Sched<P>)
    requires Enabled(s, op) && !op.Register? && !op.Yield?
    ensures WellFormed(r)
  {
    match op
    case Tick => s.(now := Add32(s.now, 1))
    case SleepFor(msec) =>
      var p := s.current.value;
      s.(timeEnd := s.timeEnd[p := Add32(s.now, msec)],
         waiting := [p] + s.waiting,
         state := s.state[p := Sleep])
    case Exit => s.(current := None)
    case Reschedule => s
  }

  function Step<P>(s: Sched<P>, op: Op<P>): (r: Sched<P>)
    requires Enabled(s, op)
    ensures WellFormed(r)
  {
    match op
    case Register(p, t) =>
      s.(state := s.state[p := Ready], timeEnd := s.timeEnd[p := t], ready := [p] + s.ready)
    case Yield =>
      s.(timeEnd := s.timeEnd[s.current.value := s.now])
    case _ => Schedule(Enter(s, op))
  }

  // --------------------------------------------------------------- invariant

  ghost predicate NoDup<P>(q: seq<P>) {
    forall i, j :: 0 <= i < j < |q| ==> q[i] != q[j]
  }

  /** The registered processes, wherever they are; the idle one is not registered. */
  ghost function Alive<P>(s: Sched<P>): set<P> {
    (if s.current.Some? && s.current != s.idle then {s.current.value} else {})
    + (set p <- s.ready) + (set p <- s.waiting)
  }

  /** No process is in two places, and the idle one is in no queue. */
  ghost predicate Apart<P>(s: Sched<P>) {
    && NoDup(s.ready)
    && NoDup(s.waiting)
    && (forall p <- s.ready :: p !in s.waiting && Some(p) != s.idle)
    && (forall p <- s.waiting :: Some(p) != s.idle)
  }

  ghost predicate Inv<P>(s: Sched<P>) {
    && WellFormed(s)
    && s.idle.Some? && s.state[s.idle.value] == Idle
    && Apart(s)
    && (s.current.Some? ==> s.current.value !in s.ready && s.current.value !in s.waiting)
    && (s.current.Some? && s.current != s.idle ==> s.state[s.current.value] == Active)
    && (forall p <- s.ready :: s.state[p] in {Ready, Active})
    && (forall p <- s.waiting :: s.state[p] == Sleep && s.now < s.timeEnd[p])
  }

  /** What callers owe the scheduler: a registered process is a new one, and
      only a process other than idle sleeps, yields or exits.  A sleep must lie in the
      future of the 32-bit clock (see `SleepKeepsInvariantExactly`). */
  ghost predicate Legal<P>(s: Sched<P>, op: Op<P>) {
    && Enabled(s, op)
    && (op.Register? ==> op.proc !in Alive(s) && Some(op.proc) != s.idle)
    && (op.SleepFor? || op.Yield? || op.Exit? ==> s.current != s.idle)
    && (op.SleepFor? ==> 0 < op.msec && s.now + op.msec < WORD)
  }
}
