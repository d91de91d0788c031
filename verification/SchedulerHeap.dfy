/**
 kernel/proc.c on its own data: process records linked through `next`, the two
 queue heads, and the pointer-to-pointer loops over them.  Every operation is
 proved to compute the transition of `Scheduler.Step`.
 */
module SchedulerHeap {
  import opened Words
  import opened Scheduler
  import opened SchedulerConservation

  class Proc {
    var next: Proc?
    var timeEnd: u32
    var state: ProcState

    constructor (timeEnd: u32, state: ProcState)
      ensures this.next == null && this.timeEnd == timeEnd && this.state == state
    {
      this.next := null;
      this.timeEnd := timeEnd;
      this.state := state;
    }
  }

  ghost function At(q: seq<Proc>, i: nat): Proc? {
    if i < |q| then q[i] else null
  }

  /** `head` starts a null-terminated list of exactly the records `q`. */
  ghost predicate List(head: Proc?, q: seq<Proc>)
    reads q`next
  {
    head == At(q, 0) && forall i :: 0 <= i < |q| ==> q[i].next == At(q, i + 1)
  }

  ghost predicate Disjoint<P>(a: seq<P>, b: seq<P>) {
    forall p <- a :: p !in b
  }

  /** `NoDup` by recursion, so that loops can carry it without unfolding it. */
  ghost predicate Unique<P>(q: seq<P>) {
    q == [] || (Unique(q[..|q| - 1]) && q[|q| - 1] !in q[..|q| - 1])
  }

  lemma {:induction false} UniqueIsNoDup<P>(q: seq<P>)
    ensures Unique(q) <==> NoDup(q)
  {
    if q != [] {
      var init, last := q[..|q| - 1], q[|q| - 1];
      UniqueIsNoDup(init);
      if last in init {
        var i :| 0 <= i < |init| && init[i] == last;
        assert q[i] == q[|q| - 1];
      } else if NoDup(init) {
        NoDupAppend(init, [last]);
        assert q == init + [last];
      }
    }
  }

  lemma UniqueCons<P>(p: P, q: seq<P>)
    requires Unique(q) && p !in q
    ensures Unique([p] + q)
  {
    UniqueIsNoDup(q);
    NoDupAppend([p], q);
    UniqueIsNoDup([p] + q);
  }

  lemma UniqueSnoc<P>(q: seq<P>, p: P)
    requires Unique(q) && p !in q
    ensures Unique(q + [p])
  {
    assert (q + [p])[..|q|] == q;
  }

  lemma UniqueTail<P>(q: seq<P>)
    requires Unique(q) && q != []
    ensures Unique(q[1..]) && q[0] !in q[1..]
  {
    UniqueIsNoDup(q);
    UniqueIsNoDup(q[1..]);
  }

  lemma RemovedAt<P>(q: seq<P>, k: nat)
    requires NoDup(q) && k < |q|
    ensures var r := q[..k] + q[k + 1..];
      NoDup(r) && q[k] !in r && forall p <- r :: p in q
  {
  }

  /** What `*it` points to leaves the list; `prev` is the record whose `next` is `*it`, or null
      when `*it` is the head itself.  A list without `prev` is not affected. */
  method Unlink(head: Proc?, prev: Proc?, ghost q: seq<Proc>, ghost k: nat, ghost head2: Proc?, ghost q2: seq<Proc>)
    returns (head': Proc?, p: Proc, it': Proc?)
    requires List(head, q) && NoDup(q) && k < |q| && prev == (if k == 0 then null else q[k - 1])
    requires List(head2, q2) && prev !in q2
    modifies (if prev == null then {} else {prev})`next
    ensures p == q[k] && List(head', q[..k] + q[k + 1..]) && it' == At(q[..k] + q[k + 1..], k)
    ensures List(head2, q2)
  {
    p := if prev == null then head else prev.next;
    if prev == null {
      head' := p.next;
    } else {
      head' := head;
      prev.next := p.next;
    }
    it' := if prev == null then head' else prev.next;
  }

  /** Marks `p` ready and puts it in front; a list without `p` is not affected. */
  method MakeReady(head: Proc?, p: Proc, ghost q: seq<Proc>, ghost head2: Proc?, ghost q2: seq<Proc>)
    returns (head': Proc?)
    requires List(head, q) && p !in q
    requires List(head2, q2) && p !in q2
    modifies p`next, p`state
    ensures List(head', [p] + q) && List(head2, q2) && p.state == Ready
  {
    p.state := Ready;
    p.next := head;
    head' := p;
  }

  /** kernel/proc.c:71-75: a deadline, the front of the list, and the mark. */
  method MakeAsleep(head: Proc?, p: Proc, t: u32, ghost q: seq<Proc>, ghost head2: Proc?, ghost q2: seq<Proc>)
    returns (head': Proc?)
    requires List(head, q) && p !in q
    requires List(head2, q2) && p !in q2
    modifies p`next, p`state, p`timeEnd
    ensures List(head', [p] + q) && List(head2, q2) && p.state == Sleep && p.timeEnd == t
  {
    p.timeEnd := t;
    p.next := head;
    head' := p;
    p.state := Sleep;
  }

  /** The lists as the wake loop sees them: `*it` is at index `at` of the waiting list. */
  datatype View = View(waiting: seq<Proc>, ready: seq<Proc>, at: nat)

  /** One round: a due process moves to the front of the ready list, otherwise `it` advances. */
  ghost function Advance(v: View, due: bool): View {
    if v.at < |v.waiting| && due
    then View(v.waiting[..v.at] + v.waiting[v.at + 1..], [v.waiting[v.at]] + v.ready, v.at)
    else v.(at := v.at + 1)
  }

  /** `prev` is the record whose `next` field is `*it`, or null when `*it` is the list head. */
  ghost predicate Shows(v: View, waitingQ: Proc?, readyQ: Proc?, prev: Proc?, it: Proc?)
    reads v.waiting`next, v.ready`next
  {
    && List(waitingQ, v.waiting) && List(readyQ, v.ready)
    && v.at <= |v.waiting| && it == At(v.waiting, v.at)
    && prev == (if v.at == 0 then null else v.waiting[v.at - 1])
  }

  method WakeOne(waitingQ: Proc?, readyQ: Proc?, prev: Proc?, ghost it: Proc, ghost v: View)
    returns (waitingQ': Proc?, readyQ': Proc?, it': Proc?)
    requires NoDup(v.waiting) && Disjoint(v.waiting, v.ready) && v.at < |v.waiting|
    requires Shows(v, waitingQ, readyQ, prev, it)
    modifies it`next, it`state, (if prev == null then {} else {prev})`next
    ensures Shows(Advance(v, true), waitingQ', readyQ', prev, it')
    ensures it.state == Ready
  {
    assert v.waiting[v.at] in v.waiting && (v.at > 0 ==> v.waiting[v.at - 1] in v.waiting);
    RemovedAt(v.waiting, v.at);
    var proc;
    waitingQ', proc, it' := Unlink(waitingQ, prev, v.waiting, v.at, readyQ, v.ready);
    readyQ' := MakeReady(readyQ, proc, v.ready, waitingQ', Advance(v, true).waiting);
    assert v.at > 0 ==> prev == Advance(v, true).waiting[v.at - 1];
  }

  method WakeRound(now: u32, waitingQ: Proc?, readyQ: Proc?, prev: Proc?, it: Proc, ghost v: View)
    returns (waitingQ': Proc?, readyQ': Proc?, prev': Proc?, it': Proc?)
    requires Shows(v, waitingQ, readyQ, prev, it) && NoDup(v.waiting) && Disjoint(v.waiting, v.ready)
    requires v.at < |v.waiting|
    modifies it`next, it`state, (if prev == null then {} else {prev})`next
    ensures Shows(Advance(v, now >= it.timeEnd), waitingQ', readyQ', prev', it')
    ensures it.state == if now >= it.timeEnd then Ready else old(it.state)
  {
    if now >= it.timeEnd {
      prev' := prev;
      waitingQ', readyQ', it' := WakeOne(waitingQ, readyQ, prev, it, v);
    } else {
      waitingQ', readyQ', prev', it' := waitingQ, readyQ, it, it.next;
    }
  }

  /** The lists after `d` rounds over the sleepers `w`. */
  ghost function After(w: seq<Proc>, d: nat, t: map<Proc, u32>, now: u32, r: seq<Proc>): View
    requires d <= |w| && forall p <- w :: p in t
  {
    if d == 0 then View(w, r, 0) else Advance(After(w, d - 1, t, now, r), now >= t[w[d - 1]])
  }

  lemma WakePrefix<P>(w: seq<P>, d: nat, t: map<P, u32>, now: u32)
    requires d < |w| && forall p <- w :: p in t
    ensures now >= t[w[d]] ==>
      && AsleepOf(w[..d + 1], t, now) == AsleepOf(w[..d], t, now)
      && DueOf(w[..d + 1], t, now) == DueOf(w[..d], t, now) + [w[d]]
    ensures now < t[w[d]] ==>
      && AsleepOf(w[..d + 1], t, now) == AsleepOf(w[..d], t, now) + [w[d]]
      && DueOf(w[..d + 1], t, now) == DueOf(w[..d], t, now)
  {
    assert w[..d + 1][..d] == w[..d];
  }

  /** The view when `a` sleep on, `due` were due, and `rest` are still to come. */
  ghost function Closed(a: seq<Proc>, due: seq<Proc>, rest: seq<Proc>, r: seq<Proc>): View {
    View(a + rest, Reverse(due) + r, |a|)
  }

  lemma ClosedDue(a: seq<Proc>, due: seq<Proc>, p: Proc, rest: seq<Proc>, r: seq<Proc>)
    ensures Advance(Closed(a, due, [p] + rest, r), true) == Closed(a, due + [p], rest, r)
  {
    var u := a + ([p] + rest);
    assert u[..|a|] == a && u[|a| + 1..] == rest && u[|a|] == p;
    assert (due + [p])[..|due|] == due;
    assert [p] + (Reverse(due) + r) == [p] + Reverse(due) + r;
  }

  lemma ClosedAsleep(a: seq<Proc>, due: seq<Proc>, p: Proc, rest: seq<Proc>, r: seq<Proc>)
    ensures Advance(Closed(a, due, [p] + rest, r), false) == Closed(a + [p], due, rest, r)
  {
    assert a + ([p] + rest) == a + [p] + rest;
  }

  lemma ClosedStep(w: seq<Proc>, d: nat, t: map<Proc, u32>, now: u32, r: seq<Proc>)
    requires d < |w| && forall p <- w :: p in t
    ensures Advance(Closed(AsleepOf(w[..d], t, now), DueOf(w[..d], t, now), w[d..], r), now >= t[w[d]])
      == Closed(AsleepOf(w[..d + 1], t, now), DueOf(w[..d + 1], t, now), w[d + 1..], r)
  {
    var p, a, due := w[d], AsleepOf(w[..d], t, now), DueOf(w[..d], t, now);
    assert w[d..] == [p] + w[d + 1..];
    if now >= t[p] {
      ClosedDue(a, due, p, w[d + 1..], r);
    } else {
      ClosedAsleep(a, due, p, w[d + 1..], r);
    }
    WakePrefix(w, d, t, now);
  }

  lemma ClosedStart(w: seq<Proc>, t: map<Proc, u32>, now: u32, r: seq<Proc>)
    requires forall p <- w :: p in t
    ensures Closed(AsleepOf(w[..0], t, now), DueOf(w[..0], t, now), w[0..], r) == View(w, r, 0)
  {
    assert w[..0] == [] && w[0..] == w;
    assert [] + w == w && Reverse<Proc>([]) + r == r;
  }

  /** In closed form: who slept on is kept in order, who was due is pushed in front. */
  lemma {:induction false} AfterClosed(w: seq<Proc>, d: nat, t: map<Proc, u32>, now: u32, r: seq<Proc>)
    requires d <= |w| && forall p <- w :: p in t
    ensures After(w, d, t, now, r) == Closed(AsleepOf(w[..d], t, now), DueOf(w[..d], t, now), w[d..], r)
  {
    if d == 0 {
      ClosedStart(w, t, now, r);
    } else {
      AfterClosed(w, d - 1, t, now, r);
      ClosedStep(w, d - 1, t, now, r);
    }
  }

  lemma AfterAt(w: seq<Proc>, d: nat, t: map<Proc, u32>, now: u32, r: seq<Proc>)
    requires d <= |w| && forall p <- w :: p in t
    ensures var v := After(w, d, t, now, r);
      |v.waiting| - v.at == |w| - d && (d < |w| ==> v.waiting[v.at] == w[d])
  {
    AfterClosed(w, d, t, now, r);
  }

  lemma AfterApart(w: seq<Proc>, d: nat, t: map<Proc, u32>, now: u32, r: seq<Proc>)
    requires d <= |w| && (forall p <- w :: p in t) && Unique(w) && Disjoint(w, r)
    ensures var v := After(w, d, t, now, r);
      NoDup(v.waiting) && Disjoint(v.waiting, v.ready) && forall p <- v.waiting :: p in w
  {
    AfterClosed(w, d, t, now, r);
    UniqueIsNoDup(w);
    assert NoDup(w[..d]) && NoDup(w[d..]) && Disjoint(w[..d], w[d..]);
    WakeMembers(w[..d], t, now);
    ReverseMembers(DueOf(w[..d], t, now));
    DueNoDup(w[..d], t, now);
    NoDupAppend(AsleepOf(w[..d], t, now), w[d..]);
  }

  /** Among the sleepers `w`, those that have left the waiting list are marked ready. */
  ghost predicate Marked(w: seq<Proc>, v: View, was: map<Proc, ProcState>)
    reads w`state
  {
    forall p <- w :: p in was && p.state == if p in v.waiting then was[p] else Ready
  }

  lemma AdvanceMembers(v: View, due: bool)
    requires NoDup(v.waiting) && v.at < |v.waiting|
    ensures forall p <- v.waiting :: p in Advance(v, due).waiting <==> !(due && p == v.waiting[v.at])
    ensures forall p <- Advance(v, due).waiting :: p in v.waiting
  {
    var r := Advance(v, due).waiting;
    if due {
      RemovedAt(v.waiting, v.at);
      forall p | p in v.waiting && p != v.waiting[v.at] ensures p in r {
        var i :| 0 <= i < |v.waiting| && v.waiting[i] == p;
        assert p == if i < v.at then r[i] else r[i - 1];
      }
    }
  }

  method WakeMove(now: u32, waitingQ: Proc?, readyQ: Proc?, prev: Proc?, it: Proc, ghost w: seq<Proc>,
                  ghost d: nat, ghost t: map<Proc, u32>, ghost r: seq<Proc>)
    returns (waitingQ': Proc?, readyQ': Proc?, prev': Proc?, it': Proc?)
    requires Unique(w) && Disjoint(w, r) && d < |w| && it == w[d]
    requires forall p <- w :: p in t
    requires t[it] == it.timeEnd
    requires Shows(After(w, d, t, now, r), waitingQ, readyQ, prev, it)
    modifies w`next, it`state
    ensures Shows(After(w, d + 1, t, now, r), waitingQ', readyQ', prev', it')
    ensures it.state == if now >= t[it] then Ready else old(it.state)
  {
    ghost var v := After(w, d, t, now, r);
    AfterApart(w, d, t, now, r);
    AfterAt(w, d, t, now, r);
    assert prev != null ==> v.waiting[v.at - 1] in v.waiting;
    waitingQ', readyQ', prev', it' := WakeRound(now, waitingQ, readyQ, prev, it, v);
  }

  lemma AfterMembers(w: seq<Proc>, d: nat, t: map<Proc, u32>, now: u32, r: seq<Proc>)
    requires Unique(w) && Disjoint(w, r) && d < |w| && forall p <- w :: p in t
    ensures w[d] in After(w, d, t, now, r).waiting
    ensures forall p <- w ::
      (p in After(w, d + 1, t, now, r).waiting) == (p in After(w, d, t, now, r).waiting && !(now >= t[p] && p == w[d]))
  {
    var v := After(w, d, t, now, r);
    AfterApart(w, d, t, now, r);
    AfterAt(w, d, t, now, r);
    AdvanceMembers(v, now >= t[w[d]]);
    assert v.waiting[v.at] in v.waiting;
  }

  /** The round that deals with sleeper `d`. */
  method WakeNext(now: u32, waitingQ: Proc?, readyQ: Proc?, prev: Proc?, it: Proc, ghost w: seq<Proc>,
                  ghost d: nat, ghost t: map<Proc, u32>, ghost r: seq<Proc>, ghost was: map<Proc, ProcState>)
    returns (waitingQ': Proc?, readyQ': Proc?, prev': Proc?, it': Proc?)
    requires Unique(w) && Disjoint(w, r) && d < |w| && it == w[d]
    requires forall p <- w :: p in t
    requires t[it] == it.timeEnd
    requires Shows(After(w, d, t, now, r), waitingQ, readyQ, prev, it) && Marked(w, After(w, d, t, now, r), was)
    modifies w`next, it`state
    ensures Shows(After(w, d + 1, t, now, r), waitingQ', readyQ', prev', it')
    ensures Marked(w, After(w, d + 1, t, now, r), was)
  {
    waitingQ', readyQ', prev', it' := WakeMove(now, waitingQ, readyQ, prev, it, w, d, t, r);
    AfterMembers(w, d, t, now, r);
  }

  /** The wake loop, kernel/proc.c:92-110. */
  method WakeLoop(now: u32, waitingQ: Proc?, readyQ: Proc?, ghost w: seq<Proc>, ghost r: seq<Proc>,
                  ghost t: map<Proc, u32>, ghost was: map<Proc, ProcState>)
    returns (waitingQ': Proc?, readyQ': Proc?)
    requires Unique(w) && Disjoint(w, r)
    requires forall p <- w :: p in t && t[p] == p.timeEnd
    requires Shows(After(w, 0, t, now, r), waitingQ, readyQ, null, waitingQ) && Marked(w, After(w, 0, t, now, r), was)
    modifies w`next, w`state
    ensures var v := After(w, |w|, t, now, r);
      List(waitingQ', v.waiting) && List(readyQ', v.ready) && Marked(w, v, was)
  {
    ghost var d := 0;
    waitingQ', readyQ' := waitingQ, readyQ;
    var prev: Proc? := null;
    var it := waitingQ;
    AfterAt(w, 0, t, now, r);
    while it != null
      invariant 0 <= d <= |w|
      invariant Shows(After(w, d, t, now, r), waitingQ', readyQ', prev, it)
      invariant Marked(w, After(w, d, t, now, r), was)
      invariant it == At(w, d)
      decreases |w| - d
    {
      waitingQ', readyQ', prev, it := WakeNext(now, waitingQ', readyQ', prev, it, w, d, t, r, was);
      d := d + 1;
      AfterAt(w, d, t, now, r);
    }
  }

  /** What the loop leaves behind. */
  lemma AfterAll(w: seq<Proc>, t: map<Proc, u32>, now: u32, r: seq<Proc>)
    requires (forall p <- w :: p in t) && Unique(w) && Unique(r) && Disjoint(w, r)
    ensures var v := After(w, |w|, t, now, r);
      && v.waiting == AsleepOf(w, t, now) && v.ready == Reverse(DueOf(w, t, now)) + r
      && Unique(v.waiting) && Unique(v.ready) && Disjoint(v.waiting, v.ready)
      && (forall p <- v.waiting :: p in w) && (forall p <- v.ready :: p in w || p in r)
  {
    var v, due := After(w, |w|, t, now, r), DueOf(w, t, now);
    AfterApart(w, |w|, t, now, r);
    AfterClosed(w, |w|, t, now, r);
    assert w[..|w|] == w;
    UniqueIsNoDup(w);
    UniqueIsNoDup(r);
    DueNoDup(w, t, now);
    ReverseNoDup(due);
    WakeMembers(w, t, now);
    ReverseMembers(due);
    NoDupAppend(Reverse(due), r);
    UniqueIsNoDup(v.waiting);
    UniqueIsNoDup(v.ready);
  }

  /** The record whose `next` is the null that ends the list, or null for an empty list. */
  method FindTail(head: Proc?, ghost q: seq<Proc>) returns (prev: Proc?)
    requires List(head, q)
    ensures prev == if q == [] then null else q[|q| - 1]
  {
    prev := null;
    var it := head;
    ghost var i := 0;
    while it != null
      invariant 0 <= i <= |q| && it == At(q, i) && prev == (if i == 0 then null else q[i - 1])
      decreases |q| - i
    {
      prev, it, i := it, it.next, i + 1;
    }
  }

  /** kernel/proc.c:126-130: `p` goes to the end of the list. */
  method Append(head: Proc?, p: Proc, ghost q: seq<Proc>, ghost head2: Proc?, ghost q2: seq<Proc>)
    returns (head': Proc?)
    requires List(head, q) && p !in q && Unique(q)
    requires List(head2, q2) && p !in q2 && Disjoint(q, q2)
    modifies q`next, p`next
    ensures List(head', q + [p]) && List(head2, q2)
  {
    var prev := FindTail(head, q);
    UniqueIsNoDup(q);
    assert q != [] ==> q[|q| - 1] in q;
    if prev == null { head' := p; } else { head' := head; prev.next := p; }
    p.next := null;
  }

  /** kernel/proc.c:133-135: the head of a non-empty list leaves it. */
  method Pop(head: Proc, ghost q: seq<Proc>, ghost head2: Proc?, ghost q2: seq<Proc>)
    returns (head': Proc?)
    requires List(head, q) && q != [] && q[0] !in q[1..]
    requires List(head2, q2) && q[0] !in q2
    modifies head`next
    ensures List(head', q[1..]) && List(head2, q2)
  {
    head' := head.next;
    head.next := null;
  }

  ghost function Opt(p: Proc?): Option<Proc> {
    if p == null then None else Some(p)
  }

  class Kernel {
    var now: u32
    var current: Proc?
    var idle: Proc?
    var readyQ: Proc?
    var waitingQ: Proc?

    ghost var ready: seq<Proc>
    ghost var waiting: seq<Proc>
    ghost var procs: set<Proc>

    /** The scheduler as `proc_init_scheduler` leaves it. */
    constructor (idle: Proc, now: u32)
      requires idle.state == Idle
      ensures Valid() && Inv(Abs()) && this.idle == idle && current == null && ready == [] && waiting == []
    {
      this.now, this.idle, this.current := now, idle, null;
      this.readyQ, this.waitingQ := null, null;
      this.ready, this.waiting, this.procs := [], [], {idle};
    }

    ghost function States(): map<Proc, ProcState>
      reads `procs, procs`state
    {
      map p | p in procs :: p.state
    }

    ghost function Ends(): map<Proc, u32>
      reads `procs, procs`timeEnd
    {
      map p | p in procs :: p.timeEnd
    }

    /** The value that `Scheduler` reasons about. */
    ghost function Abs(): Sched<Proc>
      reads this, procs
    {
      Sched(now, Opt(current), Opt(idle), ready, waiting, States(), Ends())
    }

    /** Both lists are proper and acyclic, and no process is on both. */
    ghost predicate Queues()
      reads `readyQ, `ready, `waitingQ, `waiting, `procs, procs`next
    {
      && (forall p <- ready :: p in procs)
      && (forall p <- waiting :: p in procs)
      && List(readyQ, ready) && List(waitingQ, waiting)
      && Unique(ready) && Unique(waiting) && Disjoint(waiting, ready)
    }

    /** Idle is marked as such and on no list, and an active current process is on none either. */
    ghost predicate Valid()
      reads this, procs
    {
      && Queues()
      && (idle != null ==> idle in procs && idle.state == Idle && idle !in ready && idle !in waiting)
      && (current != null ==> current in procs)
      && (current != null && current.state == Active ==> current !in ready && current !in waiting)
    }

    lemma AbsWellFormed()
      requires Valid()
      ensures WellFormed(Abs())
    {
    }

    lemma MarkedStates(w: seq<Proc>, t: map<Proc, u32>, v: View, was: map<Proc, ProcState>)
      requires forall p <- w :: p in t && p in procs
      requires v.waiting == AsleepOf(w, t, now) && Marked(w, v, was) && was.Keys == procs
      requires forall p <- procs :: p !in w ==> p.state == was[p]
      ensures States() == MarkReady(was, DueOf(w, t, now))
    {
      WakeMembers(w, t, now);
    }

    lemma WokenIsWake(s: Sched<Proc>)
      requires WellFormed(s) && s == Abs().(ready := s.ready, waiting := s.waiting, state := s.state)
      requires waiting == AsleepOf(s.waiting, s.timeEnd, s.now)
      requires ready == Reverse(DueOf(s.waiting, s.timeEnd, s.now)) + s.ready
      requires States() == MarkReady(s.state, DueOf(s.waiting, s.timeEnd, s.now))
      ensures Abs() == Wake(s)
    {
    }

    method RunWakeLoop(ghost w: seq<Proc>, ghost r: seq<Proc>, ghost v: View, ghost was: map<Proc, ProcState>)
      returns (waitingQ': Proc?, readyQ': Proc?)
      requires Queues() && w == waiting && r == ready && was == States() && v == After(w, |w|, Ends(), now, r)
      modifies procs`next, procs`state
      ensures List(waitingQ', v.waiting) && List(readyQ', v.ready)
      ensures Marked(w, v, was) && forall p <- procs :: p !in w ==> p.state == was[p]
    {
      waitingQ', readyQ' := WakeLoop(now, waitingQ, readyQ, w, r, Ends(), was);
    }

    method SetLists(waitingQ': Proc?, readyQ': Proc?, ghost w: seq<Proc>, ghost r: seq<Proc>)
      requires List(waitingQ', w) && List(readyQ', r) && Unique(w) && Unique(r) && Disjoint(w, r)
      requires (forall p <- w :: p in procs) && (forall p <- r :: p in procs)
      modifies this`readyQ, this`waitingQ, this`ready, this`waiting
      ensures Queues() && waiting == w && ready == r
      ensures States() == old(States())
    {
      waitingQ, readyQ, waiting, ready := waitingQ', readyQ', w, r;
    }

    method WakeSleepers()
      requires Valid()
      modifies this`readyQ, this`waitingQ, this`ready, this`waiting, procs`next, procs`state
      ensures Queues()
      ensures forall p <- old(waiting) :: p in old(Ends())
      ensures waiting == AsleepOf(old(waiting), old(Ends()), now)
      ensures ready == Reverse(DueOf(old(waiting), old(Ends()), now)) + old(ready)
      ensures States() == MarkReady(old(States()), DueOf(old(waiting), old(Ends()), now))
    {
      ghost var w, r, t, st := waiting, ready, Ends(), States();
      ghost var v := After(w, |w|, t, now, r);
      AfterAll(w, t, now, r);
      var wq, rq := RunWakeLoop(w, r, v, st);
      MarkedStates(w, t, v, st);
      SetLists(wq, rq, v.waiting, v.ready);
    }

    /** `proc_switch`: the new current process starts a slice (kernel/x86/proc.asm:35-44). */
    method SwitchTo(p: Proc)
      requires p in procs
      modifies this`current, p`timeEnd
      ensures current == p && Ends() == old(Ends())[p := Add32(now, SLICE)]
    {
      p.timeEnd := Add32(now, SLICE);
      current := p;
    }

    method AppendCurrent()
      requires Queues() && current != null && current in procs && current !in ready && current !in waiting
      modifies this`readyQ, this`ready, procs`next
      ensures Queues() && ready == old(ready) + [current]
    {
      UniqueSnoc<Proc>(ready, current);
      var rq := Append(readyQ, current, ready, waitingQ, waiting);
      readyQ, ready := rq, ready + [current];
      assert List(readyQ, ready) && List(waitingQ, waiting);
    }

    method PopReady() returns (p: Proc)
      requires Queues() && ready != []
      modifies this`readyQ, this`ready, procs`next
      ensures Queues() && p == old(ready)[0] && ready == old(ready)[1..]
      ensures p in procs && p !in ready && p !in waiting
    {
      p := readyQ;
      UniqueTail(ready);
      assert p in ready;
      var rq := Pop(p, ready, waitingQ, waiting);
      readyQ, ready := rq, ready[1..];
      assert List(readyQ, ready) && List(waitingQ, waiting);
    }

    method Activate(p: Proc)
      requires p in procs
      modifies this`current, p`state, p`timeEnd
      ensures current == p
      ensures States() == old(States())[p := Active] && Ends() == old(Ends())[p := Add32(now, SLICE)]
    {
      p.state := Active;
      assert States() == old(States())[p := Active];
      SwitchTo(p);
    }

    /** The head of the ready list becomes current, unless it already is. */
    method TakeNext()
      requires Queues() && ready != []
      modifies this`readyQ, this`ready, this`current, procs`next, procs`state, procs`timeEnd
      ensures Queues() && ready == old(ready)[1..] && current == old(ready)[0]
      ensures current in procs && current !in ready && current !in waiting
      ensures old(current) == current ==> States() == old(States()) && Ends() == old(Ends())
      ensures old(current) != current ==>
        && States() == old(States())[current := Active]
        && Ends() == old(Ends())[current := Add32(now, SLICE)]
    {
      var next := PopReady();
      if current != next {
        Activate(next);
      }
    }

    lemma DispatchStays(s: Sched<Proc>)
      requires WellFormed(s) && s.ready != [] && s.current.Some? && s.state[s.current.value] == Active
      requires s.now < s.timeEnd[s.current.value]
      ensures Dispatch(s) == s
    {
    }

    lemma DispatchTakes(s: Sched<Proc>, queue: seq<Proc>)
      requires WellFormed(s) && s.ready != []
      requires queue ==
        if s.current.Some? && s.state[s.current.value] == Active then s.ready + [s.current.value] else s.ready
      requires s.current.Some? && s.state[s.current.value] == Active ==> s.now >= s.timeEnd[s.current.value]
      requires s.now == now && s.idle == Opt(idle) && s.waiting == waiting
      requires ready == queue[1..] && current == queue[0]
      requires s.current == Some(queue[0]) ==> States() == s.state && Ends() == s.timeEnd
      requires s.current != Some(queue[0]) ==>
        && States() == s.state[queue[0] := Active]
        && Ends() == s.timeEnd[queue[0] := Add32(s.now, SLICE)]
      ensures Abs() == Dispatch(s)
    {
    }

    /** The current process, if active, queues up behind everybody else. */
    method QueueCurrent(ghost queue: seq<Proc>)
      requires Valid()
      requires queue == if current != null && current.state == Active then ready + [current] else ready
      modifies this`readyQ, this`ready, procs`next
      ensures Queues() && ready == queue
    {
      if current != null && current.state == Active {
        AppendCurrent();
      }
    }

    /** Then the head of the queue takes over. */
    method QueueAndTake(ghost queue: seq<Proc>, ghost states: map<Proc, ProcState>, ghost ends: map<Proc, u32>)
      requires Valid() && ready != [] && states == States() && ends == Ends()
      requires queue == if current != null && current.state == Active then ready + [current] else ready
      modifies this`readyQ, this`ready, this`current, procs`next, procs`state, procs`timeEnd
      ensures Queues() && queue != [] && ready == queue[1..] && current == queue[0]
      ensures current in procs && current !in ready && current !in waiting
      ensures old(current) == current ==> States() == states && Ends() == ends
      ensures old(current) != current ==>
        States() == states[current := Active] && Ends() == ends[current := Add32(now, SLICE)]
    {
      QueueCurrent(queue);
      assert States() == states && Ends() == ends;
      TakeNext();
    }

    method Rotate()
      requires Valid() && WellFormed(Abs()) && ready != []
      requires current != null && current.state == Active ==> now >= current.timeEnd
      modifies this`readyQ, this`ready, this`current, procs`next, procs`state, procs`timeEnd
      ensures Valid() && Abs() == Dispatch(old(Abs()))
    {
      ghost var s := Abs();
      ghost var queue := if current != null && current.state == Active then ready + [current] else ready;
      assert idle != null ==> idle !in queue && idle != queue[0] && States()[idle] == Idle;
      QueueAndTake(queue, s.state, s.timeEnd);
      assert s.now == now && s.idle == Opt(idle) && s.waiting == waiting;
      DispatchTakes(s, queue);
      assert idle != null ==> idle !in ready && States()[idle] == Idle;
    }

    /** kernel/proc.c:112-143. */
    method DispatchNext()
      requires Valid() && WellFormed(Abs())
      modifies this`readyQ, this`ready, this`current, procs`next, procs`state, procs`timeEnd
      ensures Valid() && Abs() == Dispatch(old(Abs()))
    {
      if readyQ == null {
        if (current == null || (current.state != Active && current.state != Idle)) && idle != null {
          SwitchTo(idle);
        }
        return;
      }
      if current != null && current.state == Active && now < current.timeEnd {
        DispatchStays(Abs());
        return;
      }
      Rotate();
    }

    lemma WokenValid(s: Sched<Proc>)
      requires WellFormed(s) && s == Abs().(ready := s.ready, waiting := s.waiting, state := s.state)
      requires Queues() && Abs() == Wake(s)
      requires idle != null ==> s.state[idle] == Idle && idle !in s.ready && idle !in s.waiting
      requires current != null && s.state[current] == Active ==> current !in s.ready && current !in s.waiting
      ensures Valid()
    {
      if idle != null {
        WakeLeavesOthers(s, idle);
        assert States()[idle] == idle.state;
      }
      if current != null {
        assert States()[current] == current.state;
        if s.state[current] == Active {
          WakeLeavesOthers(s, current);
        }
      }
    }

    /** `proc_schedule`. */
    method Schedule()
      requires Valid()
      modifies this`readyQ, this`ready, this`waitingQ, this`waiting, this`current
      modifies procs`next, procs`state, procs`timeEnd
      ensures Valid() && WellFormed(old(Abs())) && Abs() == Scheduler.Schedule(old(Abs()))
    {
      ghost var s := Abs();
      AbsWellFormed();
      WakeSleepers();
      WokenIsWake(s);
      WokenValid(s);
      DispatchNext();
    }

    method PushReady(p: Proc)
      requires Queues() && p in procs && p !in ready && p !in waiting
      modifies this`readyQ, this`ready, this`waitingQ, this`waiting, p`next, p`state
      ensures Queues() && ready == [p] + old(ready) && waiting == old(waiting)
      ensures States() == old(States())[p := Ready]
    {
      UniqueCons(p, ready);
      var rq := MakeReady(readyQ, p, ready, waitingQ, waiting);
      assert States() == old(States())[p := Ready];
      SetLists(waitingQ, rq, waiting, [p] + ready);
    }

    ghost method Join(p: Proc)
      requires Queues()
      modifies this`procs
      ensures Queues() && procs == old(procs) + {p}
      ensures States() == old(States())[p := p.state] && Ends() == old(Ends())[p := p.timeEnd]
    {
      procs := procs + {p};
    }

    method Enlist(p: Proc)
      requires Queues() && p !in ready && p !in waiting
      modifies this`readyQ, this`ready, this`waitingQ, this`waiting, this`procs, p`next, p`state
      ensures Queues() && ready == [p] + old(ready) && waiting == old(waiting) && procs == old(procs) + {p}
      ensures States() == old(States())[p := Ready] && Ends() == old(Ends())[p := p.timeEnd]
    {
      Join(p);
      PushReady(p);
    }

    /** `proc_register`; a process that was never scheduled before joins `procs`. */
    method Register(p: Proc)
      requires Valid() && p !in ready && p !in waiting && p != idle && p != current
      modifies this`readyQ, this`ready, this`waitingQ, this`waiting, this`procs, p`next, p`state
      ensures Valid() && Enabled(old(Abs()), Op.Register(p, p.timeEnd))
      ensures Abs() == Step(old(Abs()), Op.Register(p, p.timeEnd))
    {
      AbsWellFormed();
      Enlist(p);
    }

    /** The timer interrupt, kernel/x86/interrupts.c:57-68. */
    method Tick()
      requires Valid()
      modifies this`now, this`readyQ, this`ready, this`waitingQ, this`waiting, this`current
      modifies procs`next, procs`state, procs`timeEnd
      ensures Valid() && Enabled(old(Abs()), Op.Tick) && Abs() == Step(old(Abs()), Op.Tick)
    {
      AbsWellFormed();
      now := Add32(now, 1);
      assert Queues();
      assert Abs() == Enter(old(Abs()), Op.Tick);
      Schedule();
    }

    method PushWaiting(p: Proc, t: u32)
      requires Queues() && p in procs && p !in ready && p !in waiting
      modifies this`waitingQ, this`waiting, p`next, p`state, p`timeEnd
      ensures Queues() && waiting == [p] + old(waiting)
      ensures States() == old(States())[p := Sleep] && Ends() == old(Ends())[p := t]
    {
      UniqueCons(p, waiting);
      var wq := MakeAsleep(waitingQ, p, t, waiting, readyQ, ready);
      waitingQ, waiting := wq, [p] + waiting;
    }

    /** `proc_sleep_msec`. */
    method SleepMsec(msec: u32)
      requires Valid() && current != null && current != idle && current !in ready && current !in waiting
      modifies this`readyQ, this`ready, this`waitingQ, this`waiting, this`current
      modifies procs`next, procs`state, procs`timeEnd
      ensures Valid() && Enabled(old(Abs()), SleepFor(msec)) && Abs() == Step(old(Abs()), SleepFor(msec))
    {
      AbsWellFormed();
      PushWaiting(current, Add32(now, msec));
      assert Abs() == Enter(old(Abs()), SleepFor(msec));
      Schedule();
    }

    /** `proc_yield`. */
    method Yield()
      requires Valid() && current != null
      modifies current`timeEnd
      ensures Valid() && Enabled(old(Abs()), Op.Yield) && Abs() == Step(old(Abs()), Op.Yield)
    {
      AbsWellFormed();
      current.timeEnd := now;
      assert Ends() == old(Ends())[current := now];
    }

    /** `proc_exit`; giving the memory back is not part of this class. */
    method Exit()
      requires Valid() && current != null
      modifies this`readyQ, this`ready, this`waitingQ, this`waiting, this`current
      modifies procs`next, procs`state, procs`timeEnd
      ensures Valid() && Enabled(old(Abs()), Op.Exit) && Abs() == Step(old(Abs()), Op.Exit)
    {
      AbsWellFormed();
      current := null;
      assert Queues();
      assert Abs() == Enter(old(Abs()), Op.Exit);
      Schedule();
    }

    /** Any operation its callers may ask for: the code takes the step of `Scheduler.Step` and keeps
        the invariant that `SchedulerConservation` and `SchedulerTiming` build on. */
    method Perform(op: Op<Proc>)
      requires Valid() && Inv(Abs()) && Legal(Abs(), op)
      requires op.Register? ==> op.proc.timeEnd == op.garbage
      modifies this, procs, if op.Register? then {op.proc} else {}
      ensures Valid() && Abs() == Step(old(Abs()), op) && Inv(Abs())
    {
      StepKeeps(Abs(), op);
      match op
      case Register(p, _) => Register(p);
      case Tick => Tick();
      case SleepFor(msec) => SleepMsec(msec);
      case Yield => Yield();
      case Exit => Exit();
      case Reschedule => Schedule();
    }
  }
}
