/**
 Whole runs of allocations and frees: live allocations never overlap, and the bitmap
 is at every moment exactly what is reserved plus what is live.
 */
module PmmanRuns {
  import opened Words
  import opened Pmman

  /** What a caller of `pmman_alloc` remembers. */
  datatype Live = Live(addr: u32, size: u32)

  function First(l: Live): nat { ToBlock(l.addr) }

  function End(l: Live): nat { ToBlock(l.addr) + ToBlocks(l.size) }

  ghost predicate Holds(l: Live, block: nat) { First(l) <= block < End(l) }

  datatype Heap = Heap(used: seq<bool>, live: seq<Live>)

  /** `Free(k)` gives back live allocation `k` with the size it was allocated with. */
  datatype Op = Alloc(size: u32) | Free(k: nat)

  ghost predicate Enabled(h: Heap, op: Op) {
    |h.used| == BITS && (op.Free? ==> op.k < |h.live|)
  }

  /** The bitmap changes as `Map.Alloc` and `Map.Free` change it. */
  ghost function Step(h: Heap, op: Op): Heap
    requires Enabled(h, op)
  {
    match op
    case Alloc(size) =>
      (match Fit(h.used, ToBlocks(size))
       case None => h
       case Some(s) =>
         FitIs(h.used, ToBlocks(size));
         Heap(Fill(h.used, s, s + ToBlocks(size), true), h.live + [Live(s * BLOCK, size)]))
    case Free(k) =>
      var l := h.live[k];
      Heap(Fill(h.used, First(l), End(l), false), h.live[..k] + h.live[k + 1..])
  }

  ghost predicate Held(live: seq<Live>, block: nat) {
    exists k :: 0 <= k < |live| && Holds(live[k], block)
  }

  ghost predicate Apart(live: seq<Live>) {
    forall j, k, block: nat :: 0 <= j < k < |live| ==> !(Holds(live[j], block) && Holds(live[k], block))
  }

  ghost predicate Inv(reserved: seq<bool>, h: Heap) {
    && |reserved| == |h.used| == BITS
    && Apart(h.live)
    && (forall k :: 0 <= k < |h.live| ==> End(h.live[k]) <= BITS && ToBlocks(h.live[k].size) > 0)
    && (forall i :: 0 <= i < BITS ==> h.used[i] == (reserved[i] || Held(h.live, i)))
    && (forall i :: 0 <= i < BITS ==> !(reserved[i] && Held(h.live, i)))
  }

  lemma AllocKeeps(reserved: seq<bool>, h: Heap, size: u32)
    requires Inv(reserved, h)
    ensures Inv(reserved, Step(h, Alloc(size)))
  {
    var n := ToBlocks(size);
    FitIs(h.used, n);
    if Fit(h.used, n).Some? {
      var s := Fit(h.used, n).value;
      var l, r := Live(s * BLOCK, size), Step(h, Alloc(size));
      assert First(l) == s && End(l) == s + n;
      forall k, i: nat | 0 <= k < |h.live| && Holds(h.live[k], i) ensures !Holds(l, i) {
        assert Held(h.live, i) && h.used[i];
      }
      forall i | 0 <= i < BITS ensures Held(r.live, i) == (Held(h.live, i) || Holds(l, i)) {
        if Held(h.live, i) {
          var k :| 0 <= k < |h.live| && Holds(h.live[k], i);
          assert Holds(r.live[k], i);
        }
        if Holds(l, i) {
          assert Holds(r.live[|h.live|], i);
        }
      }
    }
  }

  lemma WithoutHeld(live: seq<Live>, k: nat, i: nat)
    requires Apart(live) && k < |live|
    ensures Held(live[..k] + live[k + 1..], i) == (Held(live, i) && !Holds(live[k], i))
  {
    var rest := live[..k] + live[k + 1..];
    if Held(rest, i) {
      var j :| 0 <= j < |rest| && Holds(rest[j], i);
      assert Holds(live[if j < k then j else j + 1], i);
    }
    if Held(live, i) && !Holds(live[k], i) {
      var j :| 0 <= j < |live| && Holds(live[j], i);
      assert Holds(rest[if j < k then j else j - 1], i);
    }
  }

  lemma WithoutApart(live: seq<Live>, k: nat)
    requires Apart(live) && k < |live|
    ensures Apart(live[..k] + live[k + 1..])
  {
    var rest := live[..k] + live[k + 1..];
    forall i, j, block: nat | 0 <= i < j < |rest| ensures !(Holds(rest[i], block) && Holds(rest[j], block)) {
      var i', j' := if i < k then i else i + 1, if j < k then j else j + 1;
      assert rest[i] == live[i'] && rest[j] == live[j'];
    }
  }

  lemma FreeKeeps(reserved: seq<bool>, h: Heap, k: nat)
    requires Inv(reserved, h) && k < |h.live|
    ensures Inv(reserved, Step(h, Free(k)))
  {
    var l, r := h.live[k], Step(h, Free(k));
    WithoutApart(h.live, k);
    forall i | 0 <= i < BITS
      ensures r.used[i] == (reserved[i] || Held(r.live, i)) && !(reserved[i] && Held(r.live, i))
    {
      WithoutHeld(h.live, k, i);
      assert Holds(l, i) ==> Held(h.live, i);
    }
  }

  // -------------------------------------------------------------------- runs

  ghost predicate EnabledRun(h: Heap, ops: seq<Op>)
    decreases |ops|
  {
    ops == [] || (Enabled(h, ops[0]) && EnabledRun(Step(h, ops[0]), ops[1..]))
  }

  ghost function Run(h: Heap, ops: seq<Op>): Heap
    requires EnabledRun(h, ops)
    decreases |ops|
  {
    if ops == [] then h else Run(Step(h, ops[0]), ops[1..])
  }

  /** Safety of every run of allocations and frees. */
  lemma {:induction false} RunKeeps(reserved: seq<bool>, h: Heap, ops: seq<Op>)
    requires Inv(reserved, h) && EnabledRun(h, ops)
    ensures Inv(reserved, Run(h, ops))
    decreases |ops|
  {
    if ops != [] {
      match ops[0] {
        case Alloc(size) => AllocKeeps(reserved, h, size);
        case Free(k) => FreeKeeps(reserved, h, k);
      }
      RunKeeps(reserved, Step(h, ops[0]), ops[1..]);
    }
  }

  // ------------------------------------------------------------ on the bitmap

  /** An allocation as its caller sees it, who takes address 0 for failure. */
  method TryAlloc(bitmap: Map, live: seq<Live>, size: u32) returns (live': seq<Live>)
    requires bitmap.Valid() && bitmap.Used()[0]
    modifies bitmap.bits
    ensures Heap(bitmap.Used(), live') == Step(Heap(old(bitmap.Used()), live), Alloc(size))
  {
    NullMeansFailure(bitmap.Used(), ToBlocks(size));
    var addr := bitmap.Alloc(size);
    live' := if addr == 0 then live else live + [Live(addr, size)];
  }

  /** The program takes exactly the steps: `live` is what its callers remember. */
  method Perform(bitmap: Map, live: seq<Live>, op: Op, ghost reserved: seq<bool>) returns (live': seq<Live>)
    requires bitmap.Valid() && Inv(reserved, Heap(bitmap.Used(), live)) && reserved[0]
    requires Enabled(Heap(bitmap.Used(), live), op)
    modifies bitmap.bits
    ensures Heap(bitmap.Used(), live') == Step(Heap(old(bitmap.Used()), live), op)
    ensures Inv(reserved, Heap(bitmap.Used(), live'))
  {
    ghost var h := Heap(bitmap.Used(), live);
    match op
    case Alloc(size) =>
      live' := TryAlloc(bitmap, live, size);
      AllocKeeps(reserved, h, size);
    case Free(k) =>
      FreeKeeps(reserved, h, k);
      bitmap.Free(live[k].addr, live[k].size);
      live' := live[..k] + live[k + 1..];
  }

  /** So do whole runs of it, from any bitmap whose block 0 is in use. */
  method PerformAll(bitmap: Map, ops: seq<Op>) returns (live: seq<Live>)
    requires bitmap.Valid() && bitmap.Used()[0] && EnabledRun(Heap(bitmap.Used(), []), ops)
    modifies bitmap.bits
    ensures Heap(bitmap.Used(), live) == Run(Heap(old(bitmap.Used()), []), ops)
  {
    ghost var reserved := bitmap.Used();
    ghost var start := Heap(reserved, []);
    live := [];
    assert Inv(reserved, start);
    assert ops[0..] == ops;
    for i := 0 to |ops|
      invariant var h := Heap(bitmap.Used(), live);
        Inv(reserved, h) && EnabledRun(h, ops[i..]) && Run(h, ops[i..]) == Run(start, ops)
    {
      assert ops[i..][1..] == ops[i + 1..];
      live := Perform(bitmap, live, ops[i], reserved);
    }
  }

  /** Byte `b` belongs to what the caller asked for. */
  ghost predicate Owns(l: Live, b: nat) { l.addr <= b < l.addr + l.size }

  lemma LiveByteFree(reserved: seq<bool>, ops: seq<Op>, k: nat, b: nat)
    requires |reserved| == BITS && EnabledRun(Heap(reserved, []), ops)
    requires var live := Run(Heap(reserved, []), ops).live;
      k < |live| && Owns(live[k], b)
    ensures Holds(Run(Heap(reserved, []), ops).live[k], b / BLOCK)
    ensures b / BLOCK < BITS && !reserved[b / BLOCK]
  {
    var h := Run(Heap(reserved, []), ops);
    assert Inv(reserved, Heap(reserved, []));
    RunKeeps(reserved, Heap(reserved, []), ops);
    LiveAligned(Heap(reserved, []), ops);
    ByteInBlock(h.live[k], b);
    assert Held(h.live, b / BLOCK);
  }

  ghost predicate ShareNoByte(l: Live, m: Live) { forall b: nat :: !(Owns(l, b) && Owns(m, b)) }

  ghost predicate OffLimits(l: Live, reserved: seq<bool>) {
    exists b: nat :: Owns(l, b) && !(b / BLOCK < |reserved| && !reserved[b / BLOCK])
  }

  /** In bytes: from any bitmap, two allocations live after any run share no byte, and none touches a
      block that was in use before. */
  lemma LiveBytesApart(reserved: seq<bool>, ops: seq<Op>)
    requires |reserved| == BITS && EnabledRun(Heap(reserved, []), ops)
    ensures var live := Run(Heap(reserved, []), ops).live;
      && (forall j, k :: 0 <= j < k < |live| ==> ShareNoByte(live[j], live[k]))
      && (forall k :: 0 <= k < |live| ==> !OffLimits(live[k], reserved))
  {
    var h := Run(Heap(reserved, []), ops);
    assert Inv(reserved, Heap(reserved, []));
    RunKeeps(reserved, Heap(reserved, []), ops);
    forall k | 0 <= k < |h.live| ensures !OffLimits(h.live[k], reserved) {
      forall b: nat | Owns(h.live[k], b) ensures b / BLOCK < |reserved| && !reserved[b / BLOCK] {
        LiveByteFree(reserved, ops, k, b);
      }
    }
    forall j, k | 0 <= j < k < |h.live| ensures ShareNoByte(h.live[j], h.live[k]) {
      forall b: nat | Owns(h.live[j], b) ensures !Owns(h.live[k], b) {
        LiveByteFree(reserved, ops, j, b);
        if Owns(h.live[k], b) {
          LiveByteFree(reserved, ops, k, b);
          assert false;
        }
      }
    }
  }

  lemma ByteInBlock(l: Live, b: nat)
    requires l.addr % BLOCK == 0 && ToBlocks(l.size) > 0 && Owns(l, b)
    ensures Holds(l, b / BLOCK)
  {
    ToBlocksExact(l.size);
  }

  lemma {:induction false} LiveAligned(h: Heap, ops: seq<Op>)
    requires EnabledRun(h, ops) && forall k :: 0 <= k < |h.live| ==> h.live[k].addr % BLOCK == 0
    ensures forall k :: 0 <= k < |Run(h, ops).live| ==> Run(h, ops).live[k].addr % BLOCK == 0
    decreases |ops|
  {
    if ops != [] {
      LiveAligned(Step(h, ops[0]), ops[1..]);
    }
  }

  // --------------------------------------------------------------- restoring

  /** Freeing what was just allocated restores the bitmap bit for bit. */
  lemma FreeRestores(reserved: seq<bool>, h: Heap, size: u32)
    requires Inv(reserved, h) && Fit(h.used, ToBlocks(size)).Some?
    ensures Step(Step(h, Alloc(size)), Free(|h.live|)) == h
  {
    FitIs(h.used, ToBlocks(size));
    var s := Fit(h.used, ToBlocks(size)).value;
    var a := Step(h, Alloc(size));
    assert First(a.live[|h.live|]) == s;
    assert Step(a, Free(|h.live|)).used == h.used;
  }

  /** More: after any runs at all, the same live allocations mean the same bitmap. */
  lemma LiveDeterminesBits(reserved: seq<bool>, h: Heap, h': Heap)
    requires Inv(reserved, h) && Inv(reserved, h')
    requires forall l :: l in h.live <==> l in h'.live
    ensures h.used == h'.used
  {
    forall i | 0 <= i < BITS ensures h.used[i] == h'.used[i] {
      if Held(h.live, i) {
        var k :| 0 <= k < |h.live| && Holds(h.live[k], i);
        assert h.live[k] in h'.live;
      }
      if Held(h'.live, i) {
        var k :| 0 <= k < |h'.live| && Holds(h'.live[k], i);
        assert h'.live[k] in h.live;
      }
    }
  }

  /** While block 0 is in use, address 0 is never handed out, so a null result is a failure. */
  lemma NullMeansFailure(u: seq<bool>, n: nat)
    requires |u| == BITS && u[0]
    ensures Fit(u, n) != Some(0)
  {
    FitIs(u, n);
  }

  /** And it stays in use through every run that finds it in use. */
  lemma NullStaysFailure(reserved: seq<bool>, ops: seq<Op>, n: nat)
    requires |reserved| == BITS && reserved[0] && EnabledRun(Heap(reserved, []), ops)
    ensures Fit(Run(Heap(reserved, []), ops).used, n) != Some(0)
  {
    assert Inv(reserved, Heap(reserved, []));
    RunKeeps(reserved, Heap(reserved, []), ops);
    NullMeansFailure(Run(Heap(reserved, []), ops).used, n);
  }

  /** Whatever is handed out starts at a multiple of 16 KiB and lies within 16 MiB. */
  lemma AllocatedRange(reserved: seq<bool>, ops: seq<Op>, k: nat)
    requires |reserved| == BITS && EnabledRun(Heap(reserved, []), ops) && k < |Run(Heap(reserved, []), ops).live|
    ensures var l := Run(Heap(reserved, []), ops).live[k];
      l.addr % 0x4000 == 0 && 0 < l.size && l.addr + l.size <= 0x100_0000
  {
    assert Inv(reserved, Heap(reserved, []));
    RunKeeps(reserved, Heap(reserved, []), ops);
    LiveAligned(Heap(reserved, []), ops);
    ToBlocksExact(Run(Heap(reserved, []), ops).live[k].size);
  }
}
