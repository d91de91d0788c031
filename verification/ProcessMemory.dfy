/**
 Processes and the memory they live in: `proc_create` takes a process's record and stack from
 the allocator, `proc_exit` gives them back while the scheduler moves on.  Over every run that
 mixes both with other scheduling and other allocations, no live process shares its memory;
 and none is lost, exactly if there is memory whenever one is created.
 */
module ProcessMemory {
  import opened Words
  import opened Pmman
  import S = Scheduler
  import C = SchedulerConservation
  import R = PmmanRuns

  const PROC_SIZE: u32 := 4096

  /** Processes are the addresses of their records. */
  datatype World = World(sched: S.Sched<u32>, heap: R.Heap)

  datatype Op =
    | Create(garbage: u32)
    | Exit
    | Other(op: S.Op<u32>)
    | Memory(mem: R.Op)

  /** The processes that have memory: those the scheduler keeps, and idle. */
  ghost function Procs(w: World): set<u32> {
    S.Alive(w.sched) + if w.sched.idle.Some? then {w.sched.idle.value} else {}
  }

  function Block(p: u32): R.Live { R.Live(p, PROC_SIZE) }

  /** Each of the processes has its memory; and block 0, whose address is null, is reserved. */
  ghost predicate Backed(reserved: seq<bool>, procs: set<u32>, h: R.Heap) {
    && R.Inv(reserved, h) && reserved[0]
    && (forall l <- h.live :: l.addr % BLOCK == 0)
    && forall p <- procs :: Block(p) in h.live
  }

  ghost predicate Inv(reserved: seq<bool>, w: World) {
    S.Inv(w.sched) && Backed(reserved, Procs(w), w.heap)
  }

  /** What callers owe: only a process other than idle exits, and memory freed otherwise is not that of a
      process.  That whoever exits has memory follows from `Inv`. */
  ghost predicate Legal(w: World, op: Op) {
    match op
    case Create(_) => |w.heap.used| == BITS
    case Exit => |w.heap.used| == BITS && S.Legal(w.sched, S.Exit) && Block(w.sched.current.value) in w.heap.live
    case Other(o) => S.Legal(w.sched, o) && !o.Register? && !o.Exit?
    case Memory(m) => R.Enabled(w.heap, m) && (m.Free? ==> w.heap.live[m.k].addr !in Procs(w))
  }

  /** There is memory for one more process. */
  ghost predicate HasRoom(h: R.Heap) { |h.used| == BITS && Fit(h.used, ToBlocks(PROC_SIZE)).Some? }

  ghost function IndexOf(live: seq<R.Live>, l: R.Live): (k: nat)
    requires l in live
    ensures k < |live| && live[k] == l
  {
    var k :| 0 <= k < |live| && live[k] == l; k
  }

  /** The address that `proc_create` gets. */
  ghost function Fresh(h: R.Heap): u32
    requires HasRoom(h)
  {
    FitIs(h.used, ToBlocks(PROC_SIZE));
    Fit(h.used, ToBlocks(PROC_SIZE)).value * BLOCK
  }

  /** `proc_create` does not look whether it got memory, and `proc_register` makes what it returned the head
      of the ready queue.  If that is null, the queue is empty from then on. */
  ghost function Step(w: World, op: Op): World
    requires Legal(w, op) && S.WellFormed(w.sched)
  {
    match op
    case Create(garbage) =>
      if HasRoom(w.heap)
      then World(S.Step(w.sched, S.Register(Fresh(w.heap), garbage)), R.Step(w.heap, R.Alloc(PROC_SIZE)))
      else w.(sched := w.sched.(ready := []))
    case Exit =>
      World(S.Step(w.sched, S.Exit), R.Step(w.heap, R.Free(IndexOf(w.heap.live, Block(w.sched.current.value)))))
    case Other(o) => w.(sched := S.Step(w.sched, o))
    case Memory(m) => w.(heap := R.Step(w.heap, m))
  }

  // ---------------------------------------------------------------- one step

  lemma LiveIsUsed(reserved: seq<bool>, h: R.Heap, l: R.Live)
    requires R.Inv(reserved, h) && l in h.live
    ensures R.First(l) < BITS && h.used[R.First(l)]
  {
    var k :| 0 <= k < |h.live| && h.live[k] == l;
    assert R.Holds(h.live[k], R.First(l));
    assert R.Held(h.live, R.First(l));
  }

  /** An allocation takes an address that nobody has. */
  lemma AllocBacks(reserved: seq<bool>, procs: set<u32>, h: R.Heap, size: u32)
    requires Backed(reserved, procs, h) && Fit(h.used, ToBlocks(size)).Some?
    ensures var addr := Fit(h.used, ToBlocks(size)).value * BLOCK;
      && addr < WORD && addr !in procs
      && Backed(reserved, procs, R.Step(h, R.Alloc(size)))
      && R.Live(addr, size) in R.Step(h, R.Alloc(size)).live
  {
    R.AllocKeeps(reserved, h, size);
    FitIs(h.used, ToBlocks(size));
    var start := Fit(h.used, ToBlocks(size)).value;
    if start * BLOCK in procs {
      LiveIsUsed(reserved, h, Block(start * BLOCK));
      assert false;
    }
  }

  /** Freeing other memory leaves the processes theirs. */
  lemma FreeBacks(reserved: seq<bool>, procs: set<u32>, h: R.Heap, k: nat)
    requires Backed(reserved, procs, h) && k < |h.live| && h.live[k].addr !in procs
    ensures Backed(reserved, procs, R.Step(h, R.Free(k)))
  {
    R.FreeKeeps(reserved, h, k);
    var rest := R.Step(h, R.Free(k)).live;
    forall p <- procs ensures Block(p) in rest {
      var j :| 0 <= j < |h.live| && h.live[j] == Block(p);
      assert rest[if j < k then j else j - 1] == Block(p);
    }
  }

  lemma DispatchIdle(s: S.Sched<u32>)
    requires S.WellFormed(s)
    ensures S.Dispatch(s).idle == s.idle
  {
  }

  lemma ScheduleIdle(s: S.Sched<u32>)
    requires S.WellFormed(s)
    ensures S.Schedule(s).idle == s.idle
  {
    DispatchIdle(S.Wake(s));
  }

  lemma IdleStays(s: S.Sched<u32>, op: S.Op<u32>)
    requires S.Enabled(s, op)
    ensures S.Step(s, op).idle == s.idle
  {
    if !op.Register? && !op.Yield? {
      ScheduleIdle(S.Enter(s, op));
    }
  }

  /** What a scheduler operation does to the processes. */
  lemma SchedStep(w: World, op: S.Op<u32>)
    requires S.Inv(w.sched) && S.Legal(w.sched, op)
    ensures S.Inv(S.Step(w.sched, op))
    ensures Procs(w.(sched := S.Step(w.sched, op))) ==
      match op
      case Register(p, _) => Procs(w) + {p}
      case Exit => Procs(w) - {w.sched.current.value}
      case _ => Procs(w)
  {
    C.StepKeeps(w.sched, op);
    IdleStays(w.sched, op);
  }

  lemma ProcsOfSched(w: World, h: R.Heap)
    ensures Procs(w) == Procs(w.(heap := h))
  {
  }

  lemma FreshIsNew(reserved: seq<bool>, procs: set<u32>, h: R.Heap)
    requires Backed(reserved, procs, h) && HasRoom(h)
    ensures Fresh(h) != 0 && Fresh(h) !in procs
    ensures Backed(reserved, procs + {Fresh(h)}, R.Step(h, R.Alloc(PROC_SIZE)))
  {
    AllocBacks(reserved, procs, h, PROC_SIZE);
    R.NullMeansFailure(h.used, ToBlocks(PROC_SIZE));
  }

  /** With memory: the process is new to the scheduler, and not null. */
  lemma CreateKeeps(reserved: seq<bool>, w: World, garbage: u32)
    requires Inv(reserved, w) && HasRoom(w.heap)
    ensures Fresh(w.heap) != 0 && Fresh(w.heap) !in Procs(w) && S.Legal(w.sched, S.Register(Fresh(w.heap), garbage))
    ensures Inv(reserved, Step(w, Create(garbage)))
    ensures Procs(Step(w, Create(garbage))) == Procs(w) + {Fresh(w.heap)}
  {
    var p := Fresh(w.heap);
    FreshIsNew(reserved, Procs(w), w.heap);
    SchedStep(w, S.Register(p, garbage));
    ProcsOfSched(w.(sched := S.Step(w.sched, S.Register(p, garbage))), Step(w, Create(garbage)).heap);
  }

  /** Without: everybody who was ready is gone, but whoever is left is unharmed. */
  lemma CreateWithoutRoom(reserved: seq<bool>, w: World, garbage: u32)
    requires Inv(reserved, w) && !HasRoom(w.heap)
    ensures Inv(reserved, Step(w, Create(garbage)))
    ensures Procs(Step(w, Create(garbage))) == Procs(w) - (set p <- w.sched.ready)
  {
  }

  lemma ExitBacks(reserved: seq<bool>, procs: set<u32>, h: R.Heap, p: u32)
    requires Backed(reserved, procs, h) && Block(p) in h.live
    ensures Backed(reserved, procs - {p}, R.Step(h, R.Free(IndexOf(h.live, Block(p)))))
  {
    FreeBacks(reserved, procs - {p}, h, IndexOf(h.live, Block(p)));
  }

  lemma ExitKeeps(reserved: seq<bool>, w: World)
    requires Inv(reserved, w) && Legal(w, Exit)
    ensures Inv(reserved, Step(w, Exit)) && Procs(Step(w, Exit)) == Procs(w) - {w.sched.current.value}
  {
    ExitBacks(reserved, Procs(w), w.heap, w.sched.current.value);
    SchedStep(w, S.Exit);
    ProcsOfSched(w.(sched := S.Step(w.sched, S.Exit)), Step(w, Exit).heap);
  }

  lemma MemoryKeeps(reserved: seq<bool>, w: World, m: R.Op)
    requires Inv(reserved, w) && Legal(w, Memory(m))
    ensures Inv(reserved, Step(w, Memory(m))) && Procs(Step(w, Memory(m))) == Procs(w)
  {
    ProcsOfSched(w, Step(w, Memory(m)).heap);
    match m
    case Alloc(size) =>
      if Fit(w.heap.used, ToBlocks(size)).Some? {
        AllocBacks(reserved, Procs(w), w.heap, size);
      }
    case Free(k) => FreeBacks(reserved, Procs(w), w.heap, k);
  }

  lemma OtherKeeps(reserved: seq<bool>, w: World, o: S.Op<u32>)
    requires Inv(reserved, w) && Legal(w, Other(o))
    ensures Inv(reserved, Step(w, Other(o))) && Procs(Step(w, Other(o))) == Procs(w)
  {
    SchedStep(w, o);
  }

  /** The processes after one more operation. */
  ghost function ProcsStep(w: World, op: Op): set<u32>
    requires Legal(w, op)
  {
    match op
    case Create(_) => if HasRoom(w.heap) then Procs(w) + {Fresh(w.heap)} else Procs(w) - (set p <- w.sched.ready)
    case Exit => Procs(w) - {w.sched.current.value}
    case _ => Procs(w)
  }

  lemma StepKeeps(reserved: seq<bool>, w: World, op: Op)
    requires Inv(reserved, w) && Legal(w, op)
    ensures Inv(reserved, Step(w, op)) && Procs(Step(w, op)) == ProcsStep(w, op)
  {
    match op
    case Create(garbage) =>
      if HasRoom(w.heap) { CreateKeeps(reserved, w, garbage); } else { CreateWithoutRoom(reserved, w, garbage); }
    case Exit => ExitKeeps(reserved, w);
    case Other(o) => OtherKeeps(reserved, w, o);
    case Memory(m) => MemoryKeeps(reserved, w, m);
  }

  // -------------------------------------------------------------------- runs

  ghost predicate LegalRun(w: World, ops: seq<Op>)
    decreases |ops|
  {
    ops == [] || (S.WellFormed(w.sched) && Legal(w, ops[0]) && LegalRun(Step(w, ops[0]), ops[1..]))
  }

  ghost function Run(w: World, ops: seq<Op>): World
    requires LegalRun(w, ops)
    decreases |ops|
  {
    if ops == [] then w else Run(Step(w, ops[0]), ops[1..])
  }

  /** Byte `b` is part of the record or the stack of process `p`. */
  ghost predicate InProcess(p: u32, b: nat) { p <= b < p + 4096 }

  /** Every process has memory of its own: no byte of it belongs to another process, to any other live
      allocation, or to what was reserved at boot. */
  ghost predicate OwnMemory(reserved: seq<bool>, w: World, p: u32) {
    forall b: nat | InProcess(p, b) ::
      && b / BLOCK < |reserved| && !reserved[b / BLOCK]
      && (forall q <- Procs(w) :: q != p ==> !InProcess(q, b))
      && (forall l <- w.heap.live :: l != Block(p) ==> !R.Owns(l, b))
  }

  lemma BlocksApart(reserved: seq<bool>, w: World, l: R.Live, m: R.Live, b: nat)
    requires Inv(reserved, w) && l in w.heap.live && m in w.heap.live && R.Owns(l, b) && R.Owns(m, b)
    ensures l == m && b / BLOCK < BITS && !reserved[b / BLOCK]
  {
    var live := w.heap.live;
    var j, k :| 0 <= j < |live| && 0 <= k < |live| && live[j] == l && live[k] == m;
    R.ByteInBlock(l, b);
    R.ByteInBlock(m, b);
    assert R.Held(live, b / BLOCK);
    assert j == k;
  }

  lemma InvGivesOwnMemory(reserved: seq<bool>, w: World, p: u32)
    requires Inv(reserved, w) && p in Procs(w)
    ensures OwnMemory(reserved, w, p)
  {
    forall b: nat | InProcess(p, b)
      ensures b / BLOCK < |reserved| && !reserved[b / BLOCK]
      ensures forall q <- Procs(w) :: q != p ==> !InProcess(q, b)
      ensures forall l <- w.heap.live :: l != Block(p) ==> !R.Owns(l, b)
    {
      BlocksApart(reserved, w, Block(p), Block(p), b);
      forall l <- w.heap.live | R.Owns(l, b) ensures l == Block(p) {
        BlocksApart(reserved, w, l, Block(p), b);
      }
      forall q <- Procs(w) | InProcess(q, b) ensures q == p {
        assert R.Owns(Block(q), b);
      }
    }
  }

  lemma NoNullProcess(reserved: seq<bool>, w: World)
    requires Inv(reserved, w)
    ensures 0 !in Procs(w)
  {
    if 0 in Procs(w) {
      BlocksApart(reserved, w, Block(0), Block(0), 0);
      assert false;
    }
  }

  /** After every run, whatever mixes with creating and ending processes, and whether or not there is memory. */
  lemma {:induction false} ProcessesOwnTheirMemory(reserved: seq<bool>, w: World, ops: seq<Op>)
    requires Inv(reserved, w) && LegalRun(w, ops)
    ensures Inv(reserved, Run(w, ops))
    ensures 0 !in Procs(Run(w, ops)) && forall p <- Procs(Run(w, ops)) :: OwnMemory(reserved, Run(w, ops), p)
    decreases |ops|
  {
    if ops != [] {
      StepKeeps(reserved, w, ops[0]);
      ProcessesOwnTheirMemory(reserved, Step(w, ops[0]), ops[1..]);
    } else {
      NoNullProcess(reserved, w);
      forall p <- Procs(w) ensures OwnMemory(reserved, w, p) {
        InvGivesOwnMemory(reserved, w, p);
      }
    }
  }

  /** Exiting gives back the block of the process and nothing else. */
  lemma ExitReturnsMemory(reserved: seq<bool>, w: World)
    requires Inv(reserved, w) && Legal(w, Exit)
    ensures forall i :: 0 <= i < BITS ==>
      Step(w, Exit).heap.used[i] == (w.heap.used[i] && i != ToBlock(w.sched.current.value))
  {
    assert ToBlocks(PROC_SIZE) == 1;
  }

  // ------------------------------------------------------------ conservation

  /** By how many processes an operation should change their number. */
  function Change(op: Op): int {
    if op.Create? then 1 else if op.Exit? then -1 else 0
  }

  function Balance(ops: seq<Op>): int {
    if ops == [] then 0 else Change(ops[0]) + Balance(ops[1..])
  }

  lemma CountCreate(reserved: seq<bool>, procs: set<u32>, h: R.Heap)
    requires Backed(reserved, procs, h) && HasRoom(h)
    ensures |procs + {Fresh(h)}| == |procs| + 1
  {
    AllocBacks(reserved, procs, h, PROC_SIZE);
    assert Fresh(h) !in procs;
  }

  lemma CountOf(reserved: seq<bool>, w: World, op: Op)
    requires Inv(reserved, w) && Legal(w, op)
    ensures |ProcsStep(w, op)| <= |Procs(w)| + Change(op)
    ensures |ProcsStep(w, op)| == |Procs(w)| + Change(op) <==> (op.Create? ==> HasRoom(w.heap))
  {
    match op
    case Create(_) =>
      if HasRoom(w.heap) {
        CountCreate(reserved, Procs(w), w.heap);
      } else {
        Fewer(Procs(w) - (set p <- w.sched.ready), Procs(w));
      }
    case Exit => assert w.sched.current.value in Procs(w);
    case _ =>
  }

  lemma CountStep(reserved: seq<bool>, w: World, op: Op, w': World)
    requires Inv(reserved, w) && Legal(w, op) && w' == Step(w, op)
    ensures |Procs(w')| <= |Procs(w)| + Change(op)
    ensures |Procs(w')| == |Procs(w)| + Change(op) <==> (op.Create? ==> HasRoom(w.heap))
  {
    assert Procs(w') == ProcsStep(w, op) by {
      StepKeeps(reserved, w, op);
    }
    CountOf(reserved, w, op);
  }

  lemma {:induction false} Fewer(a: set<u32>, b: set<u32>)
    requires a <= b
    ensures |a| <= |b|
  {
    if a != {} {
      var x :| x in a;
      Fewer(a - {x}, b - {x});
    }
  }

  /** Whenever a process is created, there is memory for it. */
  ghost predicate AlwaysRoom(w: World, ops: seq<Op>)
    requires LegalRun(w, ops)
    decreases |ops|
  {
    ops == [] || ((ops[0].Create? ==> HasRoom(w.heap)) && AlwaysRoom(Step(w, ops[0]), ops[1..]))
  }

  /** There are as many processes as were created and did not exit, exactly if there was always memory. */
  lemma {:induction false} CountsExactly(reserved: seq<bool>, w: World, ops: seq<Op>)
    requires Inv(reserved, w) && LegalRun(w, ops)
    ensures |Procs(Run(w, ops))| <= |Procs(w)| + Balance(ops)
    ensures |Procs(Run(w, ops))| == |Procs(w)| + Balance(ops) <==> AlwaysRoom(w, ops)
    decreases |ops|
  {
    if ops != [] {
      StepKeeps(reserved, w, ops[0]);
      CountStep(reserved, w, ops[0], Step(w, ops[0]));
      CountsExactly(reserved, Step(w, ops[0]), ops[1..]);
    }
  }

  // -------------------------------------------------------------------- boot

  /** What `proc_init_scheduler` leaves: the idle process, if there is memory for it. */
  ghost function BootWorld(reserved: seq<bool>, now: u32, garbage: u32): World
    requires |reserved| == BITS
  {
    var h := R.Heap(reserved, []);
    if HasRoom(h) then
      var idle := Fresh(h);
      World(S.Sched(now, None, Some(idle), [], [], map[idle := S.Idle], map[idle := garbage]),
            R.Step(h, R.Alloc(PROC_SIZE)))
    else World(S.Sched(now, None, None, [], [], map[], map[]), h)
  }

  /** It starts everything off exactly if block 0 is reserved and another one is free. */
  lemma BootInv(reserved: seq<bool>, now: u32, garbage: u32)
    requires |reserved| == BITS
    ensures Inv(reserved, BootWorld(reserved, now, garbage)) <==> reserved[0] && HasRoom(R.Heap(reserved, []))
  {
    var h := R.Heap(reserved, []);
    if reserved[0] && HasRoom(h) {
      assert R.Inv(reserved, h);
      AllocBacks(reserved, {}, h, PROC_SIZE);
    }
  }

  lemma FitNext(u: seq<bool>, k: nat)
    requires |u| == BITS && k < BITS && !u[k] && forall i :: 0 <= i < k ==> u[i]
    ensures Fit(u, ToBlocks(PROC_SIZE)) == Some(k)
  {
    assert ToBlocks(PROC_SIZE) == 1 && FreeRun(u, k, 1);
    FitIs(u, 1);
    assert !u[Fit(u, 1).value];
  }

  lemma LosesReady(reserved: seq<bool>, w: World, p: u32, garbage: u32)
    requires Inv(reserved, w) && !HasRoom(w.heap) && p in w.sched.ready
    ensures p in Procs(w) && p !in Procs(Step(w, Create(garbage)))
  {
    CreateWithoutRoom(reserved, w, garbage);
  }

  lemma FillOne(h: R.Heap, k: nat)
    requires |h.used| == BITS && k < BITS && !h.used[k] && forall i :: 0 <= i < k ==> h.used[i]
    ensures HasRoom(h) && Fresh(h) == k * BLOCK && R.Step(h, R.Alloc(PROC_SIZE)).used == h.used[k := true]
  {
    FitNext(h.used, k);
    assert ToBlocks(PROC_SIZE) == 1;
  }

  lemma NoRoom(h: R.Heap)
    requires forall i :: 0 <= i < |h.used| ==> h.used[i]
    ensures !HasRoom(h)
  {
    assert ToBlocks(PROC_SIZE) == 1;
    forall q: nat ensures !FreeRun(h.used, q, 1) {
      assert q < |h.used| ==> h.used[q];
    }
    FitIs(h.used, 1);
  }

  lemma CreateOne(reserved: seq<bool>, w: World, garbage: u32)
    requires Inv(reserved, w) && HasRoom(w.heap)
    ensures var r := Step(w, Create(garbage));
      Inv(reserved, r) && r.heap == R.Step(w.heap, R.Alloc(PROC_SIZE)) && Fresh(w.heap) in r.sched.ready
  {
    CreateKeeps(reserved, w, garbage);
  }

  lemma RoomForOneMore(now: u32) returns (reserved: seq<bool>, b: World)
    ensures Inv(reserved, b) && |b.heap.used| == BITS && forall i :: 0 <= i < BITS ==> b.heap.used[i] == (i != 2)
  {
    reserved := seq(BITS, i => i != 1 && i != 2);
    FillOne(R.Heap(reserved, []), 1);
    BootInv(reserved, now, 0);
    b := BootWorld(reserved, now, 0);
  }

  /** Memory for two: the first process created is lost when the second finds none. */
  lemma FullMemoryLosesProcess(now: u32) returns (reserved: seq<bool>, w: World, p: u32)
    ensures Inv(reserved, w) && p in Procs(w) && p !in Procs(Step(w, Create(0)))
  {
    var b;
    reserved, b := RoomForOneMore(now);
    FillOne(b.heap, 2);
    CreateOne(reserved, b, 0);
    w, p := Step(b, Create(0)), Fresh(b.heap);
    NoRoom(w.heap);
    LosesReady(reserved, w, p, 0);
  }
}
