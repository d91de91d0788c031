/**
 Starting the application cores (kernel/kernel.c): the boot core takes `ap_init_lock`
 before each start message and once more at the end; every core releases it when it is
 up.  The moves of all cores interleave freely.
 */
module CoreStart {

  /** What the boot core does next: look at entry `i` of the core list (or, past its end, take the
      lock a last time), send the start message for entry `i`, or go on with booting. */
  datatype Boot = Next(i: nat) | Send(i: nat) | Passed

  datatype Cores<!Id(==)> = Cores(boot: Boot, lock: bool, started: set<Id>, released: set<Id>)

  datatype Move<+Id> =
    | Skip
    | TestAndSet
    | Start
    | Release(core: Id)

  /** The cores that have a start message and have not released the lock. */
  ghost function InFlight<Id>(s: Cores<Id>): set<Id> { s.started - s.released }

  ghost predicate Enabled<Id>(ids: seq<Id>, self: Id, s: Cores<Id>, m: Move<Id>) {
    match m
    case Skip => s.boot.Next? && s.boot.i < |ids| && ids[s.boot.i] == self
    case TestAndSet => s.boot.Next? && (s.boot.i < |ids| ==> ids[s.boot.i] != self)
    case Start => s.boot.Send? && s.boot.i < |ids|
    case Release(c) => c in InFlight(s)
  }

  function Step<Id>(ids: seq<Id>, self: Id, s: Cores<Id>, m: Move<Id>): Cores<Id>
    requires Enabled(ids, self, s, m)
  {
    match m
    case Skip => s.(boot := Next(s.boot.i + 1))
    case TestAndSet =>
      if s.lock then s // spins
      else s.(lock := true, boot := if s.boot.i < |ids| then Send(s.boot.i) else Passed)
    case Start => s.(boot := Next(s.boot.i + 1), started := s.started + {ids[s.boot.i]})
    case Release(c) => s.(released := s.released + {c}, lock := false)
  }

  ghost predicate Distinct<Id>(ids: seq<Id>) {
    forall i, j :: 0 <= i < j < |ids| ==> ids[i] != ids[j]
  }

  /** The cores among the first `n` entries that the boot core has to start. */
  ghost function Others<Id>(ids: seq<Id>, self: Id, n: nat): set<Id>
    requires n <= |ids|
  {
    set j | 0 <= j < n && ids[j] != self :: ids[j]
  }

  ghost predicate Inv<Id>(ids: seq<Id>, self: Id, s: Cores<Id>) {
    var n := if s.boot.Passed? then |ids| else s.boot.i;
    && n <= |ids|
    && (s.boot.Send? ==> n < |ids| && ids[n] != self)
    && s.started == Others(ids, self, n)
    && s.released <= s.started
    && (forall a, b :: a in InFlight(s) && b in InFlight(s) ==> a == b)
    && s.lock == (!s.boot.Next? || InFlight(s) != {})
    && (!s.boot.Next? ==> InFlight(s) == {})
  }

  lemma OthersGrow<Id>(ids: seq<Id>, self: Id, n: nat)
    requires n < |ids|
    ensures Others(ids, self, n + 1) == Others(ids, self, n) + if ids[n] == self then {} else {ids[n]}
    ensures Distinct(ids) ==> ids[n] !in Others(ids, self, n)
  {
  }

  lemma StepKeeps<Id>(ids: seq<Id>, self: Id, s: Cores<Id>, m: Move<Id>)
    requires Distinct(ids) && Inv(ids, self, s) && Enabled(ids, self, s, m)
    ensures Inv(ids, self, Step(ids, self, s, m))
  {
    var r := Step(ids, self, s, m);
    match m
    case Skip => OthersGrow(ids, self, s.boot.i);
    case TestAndSet =>
    case Start =>
      OthersGrow(ids, self, s.boot.i);
      assert InFlight(r) == {ids[s.boot.i]};
    case Release(c) =>
      assert InFlight(s) == {c};
      assert InFlight(r) == {};
  }

  // -------------------------------------------------------------------- runs

  ghost predicate EnabledRun<Id>(ids: seq<Id>, self: Id, s: Cores<Id>, ms: seq<Move<Id>>)
    decreases |ms|
  {
    ms == [] || (Enabled(ids, self, s, ms[0]) && EnabledRun(ids, self, Step(ids, self, s, ms[0]), ms[1..]))
  }

  ghost function Run<Id>(ids: seq<Id>, self: Id, s: Cores<Id>, ms: seq<Move<Id>>): Cores<Id>
    requires EnabledRun(ids, self, s, ms)
    decreases |ms|
  {
    if ms == [] then s else Run(ids, self, Step(ids, self, s, ms[0]), ms[1..])
  }

  lemma {:induction false} RunKeeps<Id>(ids: seq<Id>, self: Id, s: Cores<Id>, ms: seq<Move<Id>>)
    requires Distinct(ids) && Inv(ids, self, s) && EnabledRun(ids, self, s, ms)
    ensures Inv(ids, self, Run(ids, self, s, ms))
    decreases |ms|
  {
    if ms != [] {
      StepKeeps(ids, self, s, ms[0]);
      RunKeeps(ids, self, Step(ids, self, s, ms[0]), ms[1..]);
    }
  }

  const FIRST: Boot := Next(0)

  /** For any list of distinct cores and any interleaving: at most one core is between its
      start message and its release, and once the boot core is past the last lock, every
      listed core other than itself has been started and has released. */
  lemma OneAtATime<Id>(ids: seq<Id>, self: Id, ms: seq<Move<Id>>)
    requires Distinct(ids) && EnabledRun(ids, self, Cores(FIRST, false, {}, {}), ms)
    ensures var r := Run(ids, self, Cores(FIRST, false, {}, {}), ms);
      && |InFlight(r)| <= 1
      && (r.boot.Passed? ==> r.released == set c | c in ids && c != self)
      && (r.boot.Next? || r.boot.Send? ==>
            r.boot.i <= |ids| && r.started == set j | 0 <= j < r.boot.i && ids[j] != self :: ids[j])
  {
    var s: Cores<Id> := Cores(FIRST, false, {}, {});
    assert Inv(ids, self, s);
    RunKeeps(ids, self, s, ms);
    var r := Run(ids, self, s, ms);
    if InFlight(r) != {} {
      var a :| a in InFlight(r);
      assert InFlight(r) == {a};
    }
    if r.boot.Passed? {
      assert r.released == r.started == Others(ids, self, |ids|);
    }
  }

  // ---------------------------------------------------------------- progress

  ghost predicate Spins<Id>(s: Cores<Id>, m: Move<Id>) { m.TestAndSet? && s.lock }

  /** An upper bound on the moves still to come, spinning aside. */
  ghost function Work<Id>(ids: seq<Id>, s: Cores<Id>): int {
    (match s.boot
     case Next(i) => 3 * (|ids| - i) + 1
     case Send(i) => 3 * (|ids| - i)
     case Passed => 0)
    + if InFlight(s) == {} then 0 else 1
  }

  /** Start-up cannot get stuck: short of the end some move other than spinning is possible,
      and every such move brings the end nearer. */
  lemma Progress<Id>(ids: seq<Id>, self: Id, s: Cores<Id>) returns (m: Move<Id>)
    requires Distinct(ids) && Inv(ids, self, s) && !s.boot.Passed?
    ensures Enabled(ids, self, s, m) && !Spins(s, m)
  {
    if InFlight(s) != {} {
      var c :| c in InFlight(s);
      m := Release(c);
    } else if s.boot.Send? {
      m := Start;
    } else if s.boot.i < |ids| && ids[s.boot.i] == self {
      m := Skip;
    } else {
      m := TestAndSet;
    }
  }

  lemma WorkFalls<Id>(ids: seq<Id>, self: Id, s: Cores<Id>, m: Move<Id>)
    requires Distinct(ids) && Inv(ids, self, s) && Enabled(ids, self, s, m) && !Spins(s, m)
    ensures 0 <= Work(ids, Step(ids, self, s, m)) < Work(ids, s)
  {
    StepKeeps(ids, self, s, m);
    if m.Release? {
      assert InFlight(Step(ids, self, s, m)) == {};
    }
  }

  ghost predicate SpinFree<Id>(ids: seq<Id>, self: Id, s: Cores<Id>, ms: seq<Move<Id>>)
    requires EnabledRun(ids, self, s, ms)
    decreases |ms|
  {
    ms == [] || (!Spins(s, ms[0]) && SpinFree(ids, self, Step(ids, self, s, ms[0]), ms[1..]))
  }

  /** Without the spinning, start-up takes at most three moves per core and one more. */
  lemma {:induction false} BoundedStart<Id>(ids: seq<Id>, self: Id, s: Cores<Id>, ms: seq<Move<Id>>)
    requires Distinct(ids) && Inv(ids, self, s) && EnabledRun(ids, self, s, ms) && SpinFree(ids, self, s, ms)
    ensures |ms| <= Work(ids, s)
    ensures s == Cores(FIRST, false, {}, {}) ==> |ms| <= 3 * |ids| + 1
    decreases |ms|
  {
    if ms != [] {
      var r := Step(ids, self, s, ms[0]);
      StepKeeps(ids, self, s, ms[0]);
      WorkFalls(ids, self, s, ms[0]);
      BoundedStart(ids, self, r, ms[1..]);
    }
  }
}
