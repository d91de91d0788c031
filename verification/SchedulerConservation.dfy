/**
 Conservation over every run: no process is lost, duplicated or shared between
 the queues, and exactly which sleeps break that.
 */
module SchedulerConservation {
  import opened Words
  import opened Scheduler

  // ------------------------------------------------------------------ waking

  lemma NoDupAppend<P>(a: seq<P>, b: seq<P>)
    requires NoDup(a) && NoDup(b) && forall p <- a :: p !in b
    ensures NoDup(a + b)
  {
    forall i, j | 0 <= i < j < |a + b| ensures (a + b)[i] != (a + b)[j] {
      if i < |a| <= j {
        assert a[i] in a && b[j - |a|] in b;
      }
    }
  }

  lemma {:induction false} ReverseNoDup<P>(q: seq<P>)
    requires NoDup(q)
    ensures NoDup(Reverse(q))
  {
    if q != [] {
      var init, last := q[..|q| - 1], q[|q| - 1];
      ReverseNoDup(init);
      ReverseMembers(init);
      assert last !in init;
      NoDupAppend([last], Reverse(init));
    }
  }

  lemma {:induction false} DueNoDup<P>(w: seq<P>, timeEnd: map<P, u32>, now: u32)
    requires NoDup(w) && forall p <- w :: p in timeEnd
    ensures NoDup(DueOf(w, timeEnd, now)) && NoDup(AsleepOf(w, timeEnd, now))
  {
    if w != [] {
      DueNoDup(w[..|w| - 1], timeEnd, now);
      WakeMembers(w[..|w| - 1], timeEnd, now);
    }
  }

  // ---------------------------------------------------------------- one step

  /** What holds when `proc_schedule` is entered: the current process may have
      just put itself to sleep. */
  ghost predicate OnEntry<P>(s: Sched<P>) {
    && WellFormed(s)
    && s.idle.Some? && s.state[s.idle.value] == Idle
    && Apart(s)
    && (s.current.Some? ==> s.current.value !in s.ready)
    && (s.current.Some? && s.current != s.idle ==>
          var p := s.current.value;
          if s.state[p] == Active then p !in s.waiting
          else p in s.waiting && s.now < s.timeEnd[p])
    && (forall p <- s.ready :: s.state[p] in {Ready, Active})
    && (forall p <- s.waiting :: s.state[p] == Sleep)
  }

  lemma WakeKeeps<P>(s: Sched<P>)
    requires OnEntry(s)
    ensures OnEntry(Wake(s)) && Alive(Wake(s)) == Alive(s)
    ensures forall p <- Wake(s).waiting :: s.now < s.timeEnd[p]
  {
    var due := DueOf(s.waiting, s.timeEnd, s.now);
    DueNoDup(s.waiting, s.timeEnd, s.now);
    WakeMembers(s.waiting, s.timeEnd, s.now);
    ReverseMembers(due);
    ReverseNoDup(due);
    NoDupAppend(Reverse(due), s.ready);
    assert Apart(Wake(s));
  }

  /** The pop of `proc_schedule`: the head of `queue` leaves it and becomes current. */
  lemma PopKeeps<P>(s: Sched<P>, queue: seq<P>)
    requires OnEntry(s) && forall p <- s.waiting :: s.now < s.timeEnd[p]
    requires s.ready != [] && s.ready <= queue && NoDup(queue)
    requires forall p <- queue :: p in s.state && p !in s.waiting && Some(p) != s.idle
    requires forall p <- queue :: s.state[p] in {Ready, Active}
    ensures var r := SwitchTo(s.(ready := queue[1..], state := s.state[queue[0] := Active]), queue[0]);
      Inv(r) && Alive(r) == (set p <- queue) + (set p <- s.waiting)
  {
    var r := SwitchTo(s.(ready := queue[1..], state := s.state[queue[0] := Active]), queue[0]);
    assert Apart(r);
    assert queue == [queue[0]] + queue[1..];
  }

  lemma DispatchKeeps<P>(s: Sched<P>)
    requires OnEntry(s) && forall p <- s.waiting :: s.now < s.timeEnd[p]
    ensures Inv(Dispatch(s)) && Alive(Dispatch(s)) == Alive(s)
  {
    var active := s.current.Some? && s.state[s.current.value] == Active;
    if s.ready != [] && !(active && s.now < s.timeEnd[s.current.value]) {
      var queue := if active then s.ready + [s.current.value] else s.ready;
      PopKeeps(s, queue);
      assert s.current != Some(queue[0]);
    }
  }

  lemma ScheduleKeeps<P>(s: Sched<P>)
    requires OnEntry(s)
    ensures Inv(Schedule(s)) && Alive(Schedule(s)) == Alive(s)
  {
    WakeKeeps(s);
    DispatchKeeps(Wake(s));
  }

  /** The registered, not yet exited processes after one more operation. */
  ghost function LiveStep<P>(s: Sched<P>, op: Op<P>, live: set<P>): set<P> {
    match op
    case Register(p, _) => live + {p}
    case Exit => if s.current.Some? then live - {s.current.value} else live
    case _ => live
  }

  lemma EnterKeeps<P>(s: Sched<P>, op: Op<P>)
    requires Inv(s) && Legal(s, op) && !op.Register? && !op.Yield?
    ensures OnEntry(Enter(s, op)) && Alive(Enter(s, op)) == LiveStep(s, op, Alive(s))
  {
    if op.SleepFor? {
      NoDupAppend([s.current.value], s.waiting);
    }
  }

  lemma RegisterKeeps<P>(s: Sched<P>, p: P, t: u32)
    requires Inv(s) && Legal(s, Register(p, t))
    ensures Inv(Step(s, Register(p, t))) && Alive(Step(s, Register(p, t))) == Alive(s) + {p}
  {
    NoDupAppend([p], s.ready);
  }

  /** Each operation keeps the invariant, and every live process stays in exactly one place. */
  lemma StepKeeps<P>(s: Sched<P>, op: Op<P>)
    requires Inv(s) && Legal(s, op)
    ensures Inv(Step(s, op)) && Alive(Step(s, op)) == LiveStep(s, op, Alive(s))
  {
    match op
    case Register(p, t) => RegisterKeeps(s, p, t);
    case Yield =>
    case _ =>
      EnterKeeps(s, op);
      ScheduleKeeps(Enter(s, op));
  }

  // ------------------------------------------------------------------- runs

  ghost predicate LegalRun<P>(s: Sched<P>, ops: seq<Op<P>>)
    decreases |ops|
  {
    ops == [] || (Legal(s, ops[0]) && LegalRun(Step(s, ops[0]), ops[1..]))
  }

  ghost function Run<P>(s: Sched<P>, ops: seq<Op<P>>): Sched<P>
    requires LegalRun(s, ops)
    decreases |ops|
  {
    if ops == [] then s else Run(Step(s, ops[0]), ops[1..])
  }

  /** Registered and not yet exited, from the history of operations alone: who exits
      is whoever runs at that moment. */
  ghost function LiveAfter<P>(s: Sched<P>, ops: seq<Op<P>>, live: set<P>): set<P>
    requires LegalRun(s, ops)
    decreases |ops|
  {
    if ops == [] then live
    else LiveAfter(Step(s, ops[0]), ops[1..], LiveStep(s, ops[0], live))
  }

  /** Conservation: after every run the live processes are exactly those found
      running, ready or waiting, and `Inv` puts each of them in one place only. */
  lemma {:induction false} Conservation<P>(s: Sched<P>, ops: seq<Op<P>>)
    requires Inv(s) && LegalRun(s, ops)
    ensures Inv(Run(s, ops))
    ensures Alive(Run(s, ops)) == LiveAfter(s, ops, Alive(s))
    decreases |ops|
  {
    if ops != [] {
      StepKeeps(s, ops[0]);
      Conservation(Step(s, ops[0]), ops[1..]);
    }
  }

  /** The state in which the kernel first schedules satisfies the invariant. */
  lemma BootInv<P>(now: u32, idle: P, t: u32)
    ensures Inv(Sched(now, None, Some(idle), [], [], map[idle := Idle], map[idle := t]))
  {
  }

  // --------------------------------------------------- sleeps that go astray

  lemma {:induction false} OnlyFirstDue<P>(p: P, w: seq<P>, timeEnd: map<P, u32>, now: u32)
    requires p in timeEnd && now >= timeEnd[p]
    requires forall q <- w :: q in timeEnd && now < timeEnd[q]
    ensures DueOf([p] + w, timeEnd, now) == [p]
    ensures AsleepOf([p] + w, timeEnd, now) == w
  {
    var all := [p] + w;
    if w == [] {
      assert all[..0] == [] && DueOf(all[..0], timeEnd, now) == [] && AsleepOf(all[..0], timeEnd, now) == [];
    } else {
      var init, q := w[..|w| - 1], w[|w| - 1];
      assert all[|w|] == q && all[..|w|] == [p] + init;
      OnlyFirstDue(p, init, timeEnd, now);
      assert w == init + [q];
    }
  }

  lemma WakeOnlyFirst<P>(s: Sched<P>, p: P, w: seq<P>)
    requires WellFormed(s) && s.waiting == [p] + w
    requires s.now >= s.timeEnd[p] && forall q <- w :: s.now < s.timeEnd[q]
    ensures Wake(s) == s.(ready := [p] + s.ready, waiting := w, state := s.state[p := Ready])
  {
    OnlyFirstDue(p, w, s.timeEnd, s.now);
    var due := DueOf(s.waiting, s.timeEnd, s.now);
    assert due == [p];
    assert Reverse([p]) == [p];
    assert MarkReady(s.state, due) == s.state[p := Ready];
  }

  lemma OwnSuccessorStays<P>(w: Sched<P>, p: P, rest: seq<P>)
    requires WellFormed(w) && w.current == Some(p) && w.state[p] == Ready && w.ready == [p] + rest
    ensures Dispatch(w) == w.(ready := rest)
  {
    assert w.ready[1..] == rest;
  }

  /** A sleep whose deadline is not in the future is woken at once and comes straight
      back as its own successor: still current, but marked ready. */
  lemma DueSleepStaysReady<P>(s: Sched<P>, msec: u32)
    requires Inv(s) && Enabled(s, SleepFor(msec)) && s.current != s.idle
    requires msec == 0 || s.now + msec >= WORD
    ensures Step(s, SleepFor(msec)) ==
      s.(timeEnd := s.timeEnd[s.current.value := Add32(s.now, msec)],
         state := s.state[s.current.value := Ready])
  {
    var p := s.current.value;
    WakeOnlyFirst(Enter(s, SleepFor(msec)), p, s.waiting);
    assert s.state[p := Sleep][p := Ready] == s.state[p := Ready];
    OwnSuccessorStays(Wake(Enter(s, SleepFor(msec))), p, s.ready);
  }

  /** The invariant survives a sleep exactly when the deadline lies in the future. */
  lemma SleepKeepsInvariantExactly<P>(s: Sched<P>, msec: u32)
    requires Inv(s) && Enabled(s, SleepFor(msec)) && s.current != s.idle
    ensures Inv(Step(s, SleepFor(msec))) <==> 0 < msec && s.now + msec < WORD
  {
    if 0 < msec && s.now + msec < WORD {
      StepKeeps(s, SleepFor(msec));
    } else {
      DueSleepStaysReady(s, msec);
    }
  }

  lemma WakeLeavesOthers<P>(s: Sched<P>, p: P)
    requires WellFormed(s) && p in s.state && p !in s.ready && p !in s.waiting
    ensures p !in Wake(s).ready && p !in Wake(s).waiting && Wake(s).state[p] == s.state[p]
  {
    WakeMembers(s.waiting, s.timeEnd, s.now);
    ReverseMembers(DueOf(s.waiting, s.timeEnd, s.now));
  }

  lemma ReadyCurrentIsDropped<P>(w: Sched<P>)
    requires WellFormed(w) && w.idle.Some? && w.current.Some? && w.current != w.idle
    requires w.current.value !in w.ready && w.current.value !in w.waiting
    requires w.state[w.current.value] == Ready
    ensures w.current.value !in Alive(Dispatch(w))
  {
    if w.ready != [] {
      assert w.ready[0] in w.ready;
    }
  }

  /** Otherwise the next tick loses the process: it runs no more and no queue holds it. */
  lemma DueSleepLosesProcess<P>(s: Sched<P>, msec: u32)
    requires Inv(s) && Enabled(s, SleepFor(msec)) && s.current != s.idle
    requires msec == 0 || s.now + msec >= WORD
    ensures s.current.value in Alive(s)
    ensures s.current.value !in Alive(Step(Step(s, SleepFor(msec)), Tick))
  {
    DueSleepStaysReady(s, msec);
    var r := Step(s, SleepFor(msec));
    WakeLeavesOthers(Enter(r, Tick), s.current.value);
    ReadyCurrentIsDropped(Wake(Enter(r, Tick)));
  }
}
