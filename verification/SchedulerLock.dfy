/**
 The scheduler lock on one processor: `proc_lock` and `proc_release` instruction by
 instruction, timer interrupts that may arrive wherever the interrupt flag is set,
 and `proc_switch`, which lets one process release what another acquired.
 */
module SchedulerLock {

  /** Where a stack frame is in `flags = getf(); cli(); lock; ...; unlock; setf(flags)`.
      `Resumed` is a frame on which `proc_switch` has returned: all it can still do is release. */
  datatype Pc = Body | GotFlags | Cleared | Holding | Resumed | Freed | Done

  /** `flags` is the interrupt flag that `getf` saw; `handler` frames are interrupt
      handlers, and `returnIf` is the flag that `iretd` will restore. */
  datatype Frame = Frame(pc: Pc, flags: bool, handler: bool, returnIf: bool)

  /** A process that is switched out: its stack, and the flag that `popfd` will restore. */
  datatype Saved = Saved(stack: seq<Frame>, intr: bool)

  /** `booting` is true until the release that follows the unlocked first schedule. */
  datatype Cpu<!P(==)> = Cpu(
    lock: bool,
    intr: bool,
    running: P,
    stack: seq<Frame>,
    suspended: map<P, Saved>,
    booting: bool)

  datatype Move<+P> =
    | GetFlags
    | Cli
    | TestAndSet
    | Switch(to: P)
    | SwitchExit(to: P)
    | Free
    | SetFlags
    | Iret
    | Interrupt
    | Create(proc: P)
    | SetIntr(on: bool)

  datatype Event<+P> = Acquired(who: P) | Switched(out: P, into: P) | Released(who: P)

  ghost function Top<P>(s: Cpu<P>): Frame
    requires s.stack != []
  {
    s.stack[|s.stack| - 1]
  }

  function WithTop(stack: seq<Frame>, f: Frame): seq<Frame>
    requires stack != []
  {
    stack[..|stack| - 1] + [f]
  }

  /** A process no one has started: `proc_switch` will pop cleared flags and return into
      `proc_startup`, which releases with interrupts on (kernel/x86/proc.asm:54-76). */
  const NewProcess := Saved([Frame(Resumed, true, false, false)], false)

  ghost predicate Enabled<P>(s: Cpu<P>, m: Move<P>) {
    && s.stack != []
    && var pc := Top(s).pc;
       match m
       case GetFlags => pc == Body
       case Cli => pc == GotFlags
       case TestAndSet => pc == Cleared
       case Switch(q) => pc == Holding && q in s.suspended && s.suspended[q].stack != []
       case SwitchExit(q) => pc == Holding && q in s.suspended && s.suspended[q].stack != []
       case Free => pc == Holding || pc == Resumed
       case SetFlags => pc == Freed
       case Iret => Top(s).handler && (pc == Body || pc == Done) && |s.stack| > 1
       case Interrupt => s.intr
       case Create(q) => pc == Body && q != s.running && q !in s.suspended
       case SetIntr(_) => pc == Body && !Top(s).handler
  }

  function Step<P>(s: Cpu<P>, m: Move<P>): Cpu<P>
    requires Enabled(s, m)
  {
    var top := s.stack[|s.stack| - 1];
    match m
    case GetFlags => s.(stack := WithTop(s.stack, top.(pc := GotFlags, flags := s.intr)))
    case Cli => s.(stack := WithTop(s.stack, top.(pc := Cleared)), intr := false)
    case TestAndSet =>
      if s.lock then s // spins
      else s.(stack := WithTop(s.stack, top.(pc := Holding)), lock := true)
    case Switch(q) =>
      var out := Saved(WithTop(s.stack, top.(pc := Resumed)), s.intr);
      s.(running := q, stack := s.suspended[q].stack, intr := s.suspended[q].intr,
         suspended := (s.suspended - {q})[s.running := out])
    case SwitchExit(q) =>
      s.(running := q, stack := s.suspended[q].stack, intr := s.suspended[q].intr, suspended := s.suspended - {q})
    case Free => s.(stack := WithTop(s.stack, top.(pc := Freed)), lock := false, booting := false)
    case SetFlags => s.(stack := WithTop(s.stack, top.(pc := if top.handler then Done else Body)), intr := top.flags)
    case Iret => s.(stack := s.stack[..|s.stack| - 1], intr := top.returnIf)
    case Interrupt => s.(stack := s.stack + [Frame(Body, false, true, s.intr)], intr := false)
    case Create(q) => s.(suspended := s.suspended[q := NewProcess])
    case SetIntr(on) => s.(intr := on)
  }

  ghost function Events<P>(s: Cpu<P>, m: Move<P>): seq<Event<P>>
    requires Enabled(s, m)
  {
    match m
    case TestAndSet => if s.lock then [] else [Acquired(s.running)]
    case Switch(q) => [Switched(s.running, q)]
    case SwitchExit(q) => [Switched(s.running, q)]
    case Free => [Released(s.running)]
    case _ => []
  }

  // --------------------------------------------------------------- invariant

  /** A process level frame, and above it at most one handler, which interrupted ordinary code. */
  ghost predicate Shaped(stack: seq<Frame>) {
    && 1 <= |stack| <= 2
    && !stack[0].handler
    && stack[0].pc != Done
    && (|stack| == 2 ==>
          && stack[0].pc in {Body, GotFlags}
          && stack[1].handler && stack[1].returnIf && !stack[1].flags)
  }

  /** Switched out with interrupts off, and about to release when switched in again. */
  ghost predicate Parked(p: Saved) {
    Shaped(p.stack) && !p.intr && p.stack[|p.stack| - 1].pc == Resumed
  }

  ghost predicate Inv<P>(s: Cpu<P>) {
    && Shaped(s.stack)
    && s.running !in s.suspended
    && (s.intr ==> |s.stack| == 1 && Top(s).pc in {Body, GotFlags})
    && (forall q <- s.suspended.Keys :: Parked(s.suspended[q]))
    && (if s.booting then !s.lock && Top(s).pc == Resumed && !s.intr
        else s.lock == (Top(s).pc in {Holding, Resumed}))
  }

  /** The state right after boot's first, unlocked `proc_schedule`: `first` is about to
      release a lock that nobody took. */
  lemma BootInv<P>(first: P, others: set<P>)
    requires first !in others
    ensures Inv(Cpu(false, false, first, NewProcess.stack, map q | q in others :: NewProcess, true))
  {
  }

  lemma LocalKeeps<P>(s: Cpu<P>, m: Move<P>)
    requires Inv(s) && Enabled(s, m) && !m.Switch? && !m.SwitchExit? && !m.Create?
    ensures Shaped(Step(s, m).stack)
  {
    var r := Step(s, m);
    if m.Interrupt? || m.Iret? {
      assert |s.stack| == 1 ==> r.stack[0] == s.stack[0];
    }
  }

  lemma ParksOutgoing<P>(s: Cpu<P>)
    requires Inv(s) && Top(s).pc == Holding
    ensures Parked(Saved(WithTop(s.stack, Top(s).(pc := Resumed)), s.intr)) && s.lock && !s.booting
  {
  }

  lemma SwitchKeeps<P>(s: Cpu<P>, m: Move<P>)
    requires Inv(s) && Enabled(s, m) && (m.Switch? || m.SwitchExit?)
    ensures Inv(Step(s, m))
  {
    ParksOutgoing(s);
    assert Parked(s.suspended[m.to]);
  }

  /** Every move keeps the invariant. */
  lemma StepKeeps<P>(s: Cpu<P>, m: Move<P>)
    requires Inv(s) && Enabled(s, m)
    ensures Inv(Step(s, m))
  {
    if m.Switch? || m.SwitchExit? {
      SwitchKeeps(s, m);
    } else if !m.Create? {
      LocalKeeps(s, m);
    }
  }

  // -------------------------------------------------------------------- runs

  ghost predicate EnabledRun<P>(s: Cpu<P>, moves: seq<Move<P>>)
    decreases |moves|
  {
    moves == [] || (Enabled(s, moves[0]) && EnabledRun(Step(s, moves[0]), moves[1..]))
  }

  ghost function Run<P>(s: Cpu<P>, moves: seq<Move<P>>): Cpu<P>
    requires EnabledRun(s, moves)
    decreases |moves|
  {
    if moves == [] then s else Run(Step(s, moves[0]), moves[1..])
  }

  ghost function Trace<P>(s: Cpu<P>, moves: seq<Move<P>>): seq<Event<P>>
    requires EnabledRun(s, moves)
    decreases |moves|
  {
    if moves == [] then [] else Events(s, moves[0]) + Trace(Step(s, moves[0]), moves[1..])
  }

  /** In every reachable state the processor holds the lock only with interrupts off, and a
      test-and-set succeeds at once: neither a process nor the timer handler ever spins. */
  lemma {:induction false} NeverSpins<P>(s: Cpu<P>, moves: seq<Move<P>>)
    requires Inv(s) && EnabledRun(s, moves)
    ensures var r := Run(s, moves);
      && Inv(r)
      && (r.lock ==> !r.intr && !Enabled(r, Interrupt))
      && (Enabled(r, TestAndSet) ==> !r.lock && Step(r, TestAndSet).lock)
    decreases |moves|
  {
    if moves != [] {
      StepKeeps(s, moves[0]);
      NeverSpins(Step(s, moves[0]), moves[1..]);
    }
  }

  // ---------------------------------------------------------------- hand-off

  /** Who owes the next release: nobody, whoever acquired, or whoever was switched to. */
  datatype Phase<+P> = Unlocked | Held(owner: P) | Handed(heir: P) | Broken

  /** acquire by p, at most one switch from p to q, release by the one then running. */
  ghost function Follow<P>(ph: Phase<P>, e: Event<P>): Phase<P> {
    match e
    case Acquired(p) => if ph == Unlocked then Held(p) else Broken
    case Switched(p, q) => if ph == Held(p) then Handed(q) else Broken
    case Released(p) => if ph == Held(p) || ph == Handed(p) then Unlocked else Broken
  }

  ghost function FollowAll<P>(ph: Phase<P>, trace: seq<Event<P>>): Phase<P>
    decreases |trace|
  {
    if trace == [] then ph else FollowAll(Follow(ph, trace[0]), trace[1..])
  }

  ghost function PhaseOf<P>(s: Cpu<P>): Phase<P>
    requires s.stack != []
  {
    match Top(s).pc
    case Holding => Held(s.running)
    case Resumed => Handed(s.running)
    case _ => Unlocked
  }

  lemma StepFollows<P>(s: Cpu<P>, m: Move<P>)
    requires Inv(s) && Enabled(s, m)
    ensures FollowAll(PhaseOf(s), Events(s, m)) == PhaseOf(Step(s, m))
  {
    StepKeeps(s, m);
    if m.Switch? || m.SwitchExit? {
      assert Parked(s.suspended[m.to]);
    }
    FollowOne(PhaseOf(s), Events(s, m));
  }

  lemma FollowOne<P>(ph: Phase<P>, es: seq<Event<P>>)
    requires |es| <= 1
    ensures FollowAll(ph, es) == if es == [] then ph else Follow(ph, es[0])
  {
    if es != [] {
      assert es[1..] == [];
    }
  }

  lemma {:induction false} FollowConcat<P>(ph: Phase<P>, a: seq<Event<P>>, b: seq<Event<P>>)
    ensures FollowAll(ph, a + b) == FollowAll(FollowAll(ph, a), b)
    decreases |a|
  {
    if a == [] {
      assert a + b == b;
    } else {
      assert (a + b)[0] == a[0] && (a + b)[1..] == a[1..] + b;
      FollowConcat(Follow(ph, a[0]), a[1..], b);
    }
  }

  /** Hand-off: in every run acquires and releases alternate, and each switch is followed by
      exactly one release, by the process it resumed or started. */
  lemma {:induction false} HandOff<P>(s: Cpu<P>, moves: seq<Move<P>>)
    requires Inv(s) && EnabledRun(s, moves)
    ensures Run(s, moves).stack != []
    ensures FollowAll(PhaseOf(s), Trace(s, moves)) == PhaseOf(Run(s, moves)) != Broken
    decreases |moves|
  {
    if moves != [] {
      var r := Step(s, moves[0]);
      StepKeeps(s, moves[0]);
      StepFollows(s, moves[0]);
      HandOff(r, moves[1..]);
      FollowConcat(PhaseOf(s), Events(s, moves[0]), Trace(r, moves[1..]));
    }
  }

  // -------------------------------------------------------- interrupts come back

  /** Process level code that is not in a critical section has interrupts on, and whoever is in one will turn them
      on again when leaving it. */
  ghost predicate WillBeOn(stack: seq<Frame>) { stack != [] && (stack[0].pc != Body ==> stack[0].flags) }

  ghost predicate Responsive<P>(s: Cpu<P>) {
    && WillBeOn(s.stack)
    && (forall q <- s.suspended.Keys :: WillBeOn(s.suspended[q].stack))
    && (|s.stack| == 1 && s.stack[0].pc == Body ==> s.intr)
  }

  lemma StepResponsive<P>(s: Cpu<P>, m: Move<P>)
    requires Inv(s) && Responsive(s) && Enabled(s, m) && !m.SetIntr?
    ensures Responsive(Step(s, m))
  {
    if m.Switch? || m.SwitchExit? {
      assert Parked(s.suspended[m.to]);
    }
  }

  /** The boot state, too, is such. */
  lemma BootResponsive<P>(first: P, others: set<P>)
    requires first !in others
    ensures Responsive(Cpu(false, false, first, NewProcess.stack, map q | q in others :: NewProcess, true))
  {
  }

  /** As long as no process turns interrupts off itself, the timer can interrupt ordinary process code whenever it
      runs, whatever locks were taken and handed over before. */
  lemma {:induction false} TimerAlwaysReturns<P>(s: Cpu<P>, moves: seq<Move<P>>)
    requires Inv(s) && Responsive(s) && EnabledRun(s, moves) && forall m <- moves :: !m.SetIntr?
    ensures var r := Run(s, moves);
      Responsive(r) && (|r.stack| == 1 && r.stack[0].pc == Body ==> r.intr && Enabled(r, Interrupt))
    decreases |moves|
  {
    if moves != [] {
      assert moves[0] in moves;
      StepKeeps(s, moves[0]);
      StepResponsive(s, moves[0]);
      TimerAlwaysReturns(Step(s, moves[0]), moves[1..]);
    }
  }

  /** The stack of process `p`, running or not. */
  ghost function StackOf<P>(s: Cpu<P>, p: P): seq<Frame> {
    if p == s.running then s.stack else if p in s.suspended then s.suspended[p].stack else []
  }

  /** Frame `d` of `p` has read the interrupt flag as `f` and not restored it yet. */
  ghost predicate InSection<P>(s: Cpu<P>, p: P, d: nat, f: bool) {
    d < |StackOf(s, p)| && StackOf(s, p)[d].pc !in {Body, Done} && StackOf(s, p)[d].flags == f
  }

  /** The move by which that frame leaves its section, or its process. */
  ghost predicate Leaves<P>(s: Cpu<P>, p: P, d: nat, m: Move<P>) {
    s.running == p && ((m.SetFlags? && |s.stack| == d + 1) || m.SwitchExit?)
  }

  lemma SectionGoesOn<P>(s: Cpu<P>, p: P, d: nat, f: bool, m: Move<P>)
    requires Inv(s) && InSection(s, p, d, f) && Enabled(s, m) && !Leaves(s, p, d, m)
    ensures InSection(Step(s, m), p, d, f)
  {
    if m.Switch? || m.SwitchExit? {
      SectionSwitch(s, p, d, f, m);
    } else if p == s.running {
      SectionLocal(s, p, d, f, m);
    }
  }

  lemma SectionSwitch<P>(s: Cpu<P>, p: P, d: nat, f: bool, m: Move<P>)
    requires Inv(s) && InSection(s, p, d, f) && Enabled(s, m) && !Leaves(s, p, d, m) && (m.Switch? || m.SwitchExit?)
    ensures InSection(Step(s, m), p, d, f)
  {
    assert Parked(s.suspended[m.to]);
    if p == s.running {
      var out := WithTop(s.stack, Top(s).(pc := Resumed));
      assert StackOf(Step(s, m), p) == out;
    }
  }

  lemma SectionLocal<P>(s: Cpu<P>, p: P, d: nat, f: bool, m: Move<P>)
    requires Inv(s) && InSection(s, p, d, f) && Enabled(s, m) && !Leaves(s, p, d, m)
    requires p == s.running && !m.Switch? && !m.SwitchExit?
    ensures InSection(Step(s, m), p, d, f)
  {
    var r := Step(s, m);
    assert StackOf(r, p) == r.stack;
    assert d < |s.stack| - 1 ==> r.stack[d] == s.stack[d];
  }

  ghost predicate StaysIn<P>(s: Cpu<P>, p: P, d: nat, moves: seq<Move<P>>)
    requires EnabledRun(s, moves)
    decreases |moves|
  {
    moves == [] || (!Leaves(s, p, d, moves[0]) && StaysIn(Step(s, moves[0]), p, d, moves[1..]))
  }

  lemma {:induction false} SectionLasts<P>(s: Cpu<P>, p: P, d: nat, f: bool, moves: seq<Move<P>>)
    requires Inv(s) && InSection(s, p, d, f) && EnabledRun(s, moves) && StaysIn(s, p, d, moves)
    ensures InSection(Run(s, moves), p, d, f)
    decreases |moves|
  {
    if moves != [] {
      StepKeeps(s, moves[0]);
      SectionGoesOn(s, p, d, f, moves[0]);
      SectionLasts(Step(s, moves[0]), p, d, f, moves[1..]);
    }
  }

  lemma SectionStarts<P>(s: Cpu<P>, g: Cpu<P>, p: P, d: nat, f: bool)
    requires Inv(s) && Enabled(s, GetFlags) && g == Step(s, GetFlags)
    requires p == s.running && d + 1 == |s.stack| && f == s.intr
    ensures Inv(g) && InSection(g, p, d, f)
  {
    StepKeeps(s, GetFlags);
  }

  lemma SectionEnds<P>(r: Cpu<P>, p: P, d: nat, f: bool)
    requires InSection(r, p, d, f) && r.running == p && |r.stack| == d + 1 && Enabled(r, SetFlags)
    ensures Step(r, SetFlags).intr == f
  {
  }

  /** A critical section ends with the interrupt flag it began with, whatever other processes and handlers did to
      the flag between, and however often the processor changed hands. */
  lemma ReleaseRestores<P>(s: Cpu<P>, g: Cpu<P>, p: P, d: nat, f: bool, moves: seq<Move<P>>, r: Cpu<P>)
    requires Inv(s) && Enabled(s, GetFlags) && g == Step(s, GetFlags)
    requires p == s.running && d + 1 == |s.stack| && f == s.intr
    requires EnabledRun(g, moves) && StaysIn(g, p, d, moves) && r == Run(g, moves)
    requires r.running == p && |r.stack| == d + 1 && Enabled(r, SetFlags)
    ensures Step(r, SetFlags).intr == f
  {
    assert InSection(r, p, d, f) by {
      SectionStarts(s, g, p, d, f);
      SectionLasts(g, p, d, f, moves);
    }
    SectionEnds(r, p, d, f);
  }

  /** A process that was never started begins its own code with interrupts on. */
  lemma StartsWithInterrupts<P>(s: Cpu<P>)
    requires Inv(s) && s.stack == NewProcess.stack && Enabled(s, Free)
    ensures var r := Step(Step(s, Free), SetFlags); Enabled(Step(s, Free), SetFlags) && r.intr && Top(r).pc == Body
  {
  }

  /** A handler that has released the lock does nothing but return to what it interrupted. */
  lemma HandlerReturns<P>(s: Cpu<P>, r: Cpu<P>, m: Move<P>)
    requires Inv(s) && Top(s).handler && Enabled(s, SetFlags) && r == Step(s, SetFlags) && Enabled(r, m)
    ensures m == Iret && Step(r, Iret).stack == s.stack[..1] && Step(r, Iret).intr
  {
    StepKeeps(s, SetFlags);
  }

  /** After a switch, and after a handler's release, there is only one way to go on: to release, and to return. */
  lemma OnlyWayOut<P>(s: Cpu<P>, m: Move<P>)
    requires Inv(s) && Enabled(s, m)
    ensures Top(s).pc == Resumed ==> m == Free
    ensures Top(s).pc == Freed ==> m == SetFlags
    ensures Top(s).pc == Done ==> m == Iret
  {
  }
}
