/**
 What protects the kernel image: stage 2 computes the image's extent, the kernel frees what
 the memory map calls usable and marks the image, the low BIOS area and the memory map itself,
 and no allocation that follows touches them.
 */
module Boot {
  import opened Words
  import opened Bytes
  import opened Pmman
  import opened PmmanRuns
  import opened ElfLoad
  import opened MemoryMap

  const LOW_BIOS: u32 := 0x7C00
  const ENTRY_SIZE: u32 := 24

  /** What stage 2 hands to the kernel: the extent of the image, and the memory map. */
  datatype Info = Info(klow: u32, khigh: u32, memmap: u32, count: u16)

  function KernelLen(x: Info): u32 { Sub32(x.khigh, x.klow) }

  function MapLen(x: Info): u32 { ENTRY_SIZE * x.count }

  // ------------------------------------------------------------------- marks

  /** The blocks that are marked for `len` bytes at `addr`: from the one that contains `addr`, as many as
      the length alone rounds up to. */
  predicate Spans(addr: u32, len: u32, block: nat) {
    ToBlock(addr) <= block < ToBlock(addr) + ToBlocks(len)
  }

  /** The three marks of kernel/kernel.c:105-110. */
  predicate Marked(x: Info, block: nat) {
    || Spans(x.klow, KernelLen(x), block)
    || Spans(0, LOW_BIOS, block)
    || Spans(x.memmap, MapLen(x), block)
  }

  ghost function Marks(u: seq<bool>, x: Info): (r: seq<bool>)
    ensures |r| == |u| && forall i :: 0 <= i < |u| ==> r[i] == (u[i] || Marked(x, i))
  {
    seq(|u|, i requires 0 <= i < |u| => u[i] || Marked(x, i))
  }

  /** Marking these blocks stays within the bitmap. */
  predicate Markable(addr: u32, len: u32) {
    ToBlocks(len) > 0 ==> ToBlock(addr) + ToBlocks(len) <= BITS
  }

  /** That is so for everything that ends within 16 MiB. */
  lemma SpanFits(addr: u32, len: u32)
    requires addr + len <= SIZE
    ensures Markable(addr, len)
  {
    ToBlocksExact(len);
  }

  method MarkSpan(bitmap: Map, addr: u32, len: u32)
    requires bitmap.Valid() && Markable(addr, len)
    modifies bitmap.bits
    ensures forall i :: 0 <= i < BITS ==> bitmap.Used()[i] == (old(bitmap.Used())[i] || Spans(addr, len, i))
  {
    bitmap.MarkRange(ToBlock(addr), ToBlocks(len));
  }

  method MarkBoot(bitmap: Map, x: Info)
    requires bitmap.Valid() && Markable(x.klow, KernelLen(x)) && Markable(x.memmap, MapLen(x))
    modifies bitmap.bits
    ensures bitmap.Used() == Marks(old(bitmap.Used()), x)
  {
    MarkSpan(bitmap, x.klow, KernelLen(x));
    SpanFits(0, LOW_BIOS);
    MarkSpan(bitmap, 0, LOW_BIOS);
    MarkSpan(bitmap, x.memmap, MapLen(x));
  }

  // -------------------------------------------------------------- protection

  ghost predicate Taken(h: Heap, b: nat) { exists k :: 0 <= k < |h.live| && Owns(h.live[k], b) }

  /** Whatever was free before the marks, no allocation of any run after them contains byte `b`. */
  ghost predicate Untouchable(x: Info, b: nat) {
    forall u: seq<bool>, ops: seq<Op> :: |u| == BITS && EnabledRun(Heap(Marks(u, x), []), ops) ==>
      !Taken(Run(Heap(Marks(u, x), []), ops), b)
  }

  lemma MarkedIsSafe(u: seq<bool>, x: Info, ops: seq<Op>, b: nat)
    requires |u| == BITS && EnabledRun(Heap(Marks(u, x), []), ops)
    requires b / BLOCK >= BITS || Marked(x, b / BLOCK)
    ensures !Taken(Run(Heap(Marks(u, x), []), ops), b)
  {
    var live := Run(Heap(Marks(u, x), []), ops).live;
    forall k | 0 <= k < |live| ensures !Owns(live[k], b) {
      if Owns(live[k], b) {
        LiveByteFree(Marks(u, x), ops, k, b);
        assert false;
      }
    }
  }

  /** If nothing but its block is free, the first allocation takes it. */
  lemma UnmarkedIsTaken(x: Info, b: nat) returns (u: seq<bool>)
    requires b / BLOCK < BITS && !Marked(x, b / BLOCK)
    ensures |u| == BITS && EnabledRun(Heap(Marks(u, x), []), [Alloc(BLOCK)])
    ensures Taken(Run(Heap(Marks(u, x), []), [Alloc(BLOCK)]), b)
  {
    var block := b / BLOCK;
    u := seq(BITS, i => i != block);
    var m := Marks(u, x);
    assert ToBlocks(BLOCK) == 1 && FreeRun(m, block, 1);
    FitIs(m, 1);
    assert !m[Fit(m, 1).value];
    var h := Step(Heap(m, []), Alloc(BLOCK));
    assert Run(Heap(m, []), [Alloc(BLOCK)]) == h;
    assert Owns(h.live[0], b);
  }

  /** Exactly what the marks protect: everything in a marked block, or above what is managed. */
  lemma UntouchableExactly(x: Info, b: nat)
    ensures Untouchable(x, b) <==> b / BLOCK >= BITS || Marked(x, b / BLOCK)
  {
    if b / BLOCK >= BITS || Marked(x, b / BLOCK) {
      forall u: seq<bool>, ops: seq<Op> | |u| == BITS && EnabledRun(Heap(Marks(u, x), []), ops)
        ensures !Taken(Run(Heap(Marks(u, x), []), ops), b)
      {
        MarkedIsSafe(u, x, ops, b);
      }
    } else {
      var u := UnmarkedIsTaken(x, b);
    }
  }

  /** The block of the last byte is out of reach. */
  predicate LastIsSafe(x: Info, addr: u32, len: u32) {
    len == 0 || var last := (addr + len - 1) / BLOCK; last >= BITS || Marked(x, last)
  }

  lemma LastDecides(x: Info, addr: u32, len: u32)
    requires (addr == x.klow && len == KernelLen(x)) || (addr == x.memmap && len == MapLen(x))
    requires len + BLOCK <= WORD
    ensures (forall b: nat :: addr <= b < addr + len ==> Untouchable(x, b)) <==> LastIsSafe(x, addr, len)
  {
    ToBlocksExact(len);
    if LastIsSafe(x, addr, len) {
      forall b: nat | addr <= b < addr + len ensures Untouchable(x, b) {
        UntouchableExactly(x, b);
        assert Spans(addr, len, b / BLOCK) || b / BLOCK == (addr + len - 1) / BLOCK;
      }
    } else {
      UntouchableExactly(x, addr + len - 1);
    }
  }

  /** An image whose length does not round up within 32 bits is not marked at all. */
  lemma HugeImageIsExposed(x: Info) returns (b: nat)
    requires KernelLen(x) + BLOCK > WORD && x.klow + KernelLen(x) <= WORD
    ensures x.klow <= b < x.klow + KernelLen(x) && !Untouchable(x, b)
  {
    ToBlocksExact(KernelLen(x));
    ToBlocksExact(MapLen(x));
    assert ToBlocks(LOW_BIOS) == 2;
    var block := if Spans(x.memmap, MapLen(x), 500) then 900 else 500;
    b := block * BLOCK;
    UntouchableExactly(x, b);
  }

  /** The mark of a range can miss only the last block it reaches, so the image, and likewise the memory
      map, is protected exactly if some mark covers the block of its last byte; and if it has a mark at all,
      as only an image of nearly 4 GiB does not. */
  lemma OwnMarkProtects(x: Info, addr: u32, len: u32)
    requires (addr == x.klow && len == KernelLen(x)) || (addr == x.memmap && len == MapLen(x))
    requires len + BLOCK <= WORD || addr + len <= WORD
    ensures (forall b: nat :: addr <= b < addr + len ==> Untouchable(x, b)) <==>
      len + BLOCK <= WORD && LastIsSafe(x, addr, len)
  {
    if len + BLOCK <= WORD {
      LastDecides(x, addr, len);
    } else {
      var b := HugeImageIsExposed(x);
    }
  }

  /** The range's own mark covers that block exactly if rounding up the length makes up for where in its
      first block the range starts; so always for a block-aligned range. */
  lemma OwnMarkReaches(addr: u32, len: u32)
    requires 0 < len && len + BLOCK <= WORD
    ensures Spans(addr, len, (addr + len - 1) / BLOCK) <==> addr % BLOCK + len <= ToBlocks(len) * BLOCK
    ensures addr % BLOCK == 0 ==> Spans(addr, len, (addr + len - 1) / BLOCK)
  {
    ToBlocksExact(len);
  }

  /** The low BIOS area is always protected, and address 0 never handed out. */
  lemma LowBiosProtected(x: Info, b: nat)
    requires b < 0x7C00
    ensures Marked(x, b / BLOCK) && Untouchable(x, b)
  {
    assert ToBlocks(LOW_BIOS) == 2;
    UntouchableExactly(x, b);
  }

  /** All sections whose end does not wrap are protected if the extent is. */
  lemma SectionsProtected(x: Info, sections: seq<Section>, s: Section, b: nat)
    requires Extent(sections, x.klow, x.khigh) && KernelLen(x) + BLOCK <= WORD && LastIsSafe(x, x.klow, KernelLen(x))
    requires s in sections && Loaded(s) && s.addr + s.size < WORD && s.addr <= b < s.addr + s.size
    ensures Untouchable(x, b)
  {
    OwnMarkProtects(x, x.klow, KernelLen(x));
  }

  /** One block of code that starts in the middle of a block. */
  lemma SomeImageIsExposed(x: Info)
    requires x == Info(0x101000, 0x105000, 0, 0)
    ensures !Untouchable(x, 0x104FFF)
  {
    assert ToBlocks(0x4000) == 1 && ToBlocks(LOW_BIOS) == 2 && ToBlocks(0) == 0;
    UntouchableExactly(x, 0x104FFF);
  }

  /** A section that wraps around the end of the address space is loaded partly where no mark is. */
  lemma WrappingSectionIsExposed(x: Info, sections: seq<Section>)
    requires x == Info(0x100000, 0x104000, 0, 0)
    requires sections == [Section(PROGBITS, 0x100000, 0x4000, 0), Section(PROGBITS, 0xFFFF_F000, 0x10000, 0)]
    ensures Extent(sections, x.klow, x.khigh) && Covers(sections[1], 0x8000) && !Untouchable(x, 0x8000)
  {
    assert sections[0] in sections;
    assert ToBlocks(0x4000) == 1 && ToBlocks(LOW_BIOS) == 2 && ToBlocks(0) == 0;
    UntouchableExactly(x, 0x8000);
  }

  // -------------------------------------------------------------- end to end

  /** What an allocated byte is not, and what it is: it is neither in the low BIOS area, nor, if the
      marks reach that far, in a loaded section or the memory map; it lies in a block the map frees. */
  ghost predicate Proper(x: Info, sections: seq<Section>, map0: seq<Entry>, b: nat) {
    && b >= 0x7C00
    && (LastIsSafe(x, x.klow, KernelLen(x)) ==> forall s <- sections :: Loaded(s) ==> !(s.addr <= b < s.addr + s.size))
    && (LastIsSafe(x, x.memmap, MapLen(x)) ==> !(x.memmap <= b < x.memmap + 24 * x.count))
    && FreedBy(map0, b / BLOCK)
  }

  ghost predicate AllProper(x: Info, sections: seq<Section>, map0: seq<Entry>, h: Heap) {
    forall b: nat :: Taken(h, b) ==> Proper(x, sections, map0, b)
  }

  /** The bitmap of `pmman_initialize` for memory map `map0`. */
  ghost predicate FreeAsMapped(u: seq<bool>, map0: seq<Entry>) {
    |u| == BITS && forall b :: 0 <= b < BITS ==> u[b] == !FreedBy(map0, b)
  }

  /** The sections end within 16 MiB, and there is one. */
  ghost predicate Bootable(sections: seq<Section>) {
    && (forall s <- sections :: Loaded(s) ==> s.addr + s.size <= SIZE)
    && (exists s <- sections :: Loaded(s))
  }

  lemma ExtentBounds(sections: seq<Section>, klow: u32, khigh: u32)
    requires Extent(sections, klow, khigh) && Bootable(sections)
    ensures klow <= khigh <= SIZE
  {
    var s :| s in sections && Loaded(s);
  }

  lemma TakenIsFreed(u: seq<bool>, x: Info, map0: seq<Entry>, ops: seq<Op>, b: nat)
    requires FreeAsMapped(u, map0) && EnabledRun(Heap(Marks(u, x), []), ops)
    requires Taken(Run(Heap(Marks(u, x), []), ops), b)
    ensures FreedBy(map0, b / BLOCK)
  {
    var live := Run(Heap(Marks(u, x), []), ops).live;
    var k :| 0 <= k < |live| && Owns(live[k], b);
    LiveByteFree(Marks(u, x), ops, k, b);
  }

  lemma TakenIsProper(u: seq<bool>, x: Info, sections: seq<Section>, map0: seq<Entry>, ops: seq<Op>, b: nat)
    requires Extent(sections, x.klow, x.khigh) && Bootable(sections) && FreeAsMapped(u, map0)
    requires EnabledRun(Heap(Marks(u, x), []), ops) && Taken(Run(Heap(Marks(u, x), []), ops), b)
    ensures Proper(x, sections, map0, b)
  {
    TakenIsFreed(u, x, map0, ops, b);
    ExtentBounds(sections, x.klow, x.khigh);
    assert !Untouchable(x, b);
    if b < LOW_BIOS {
      LowBiosProtected(x, b);
    }
    OwnMarkProtects(x, x.memmap, MapLen(x));
    forall s <- sections | Loaded(s) && s.addr <= b < s.addr + s.size ensures !LastIsSafe(x, x.klow, KernelLen(x)) {
      if LastIsSafe(x, x.klow, KernelLen(x)) {
        SectionsProtected(x, sections, s, b);
      }
    }
  }

  lemma AfterBoot(u: seq<bool>, x: Info, sections: seq<Section>, map0: seq<Entry>)
    requires Extent(sections, x.klow, x.khigh) && Bootable(sections) && FreeAsMapped(u, map0)
    ensures forall ops: seq<Op> :: EnabledRun(Heap(Marks(u, x), []), ops) ==>
      AllProper(x, sections, map0, Run(Heap(Marks(u, x), []), ops))
    ensures forall ops: seq<Op>, size: u32 :: EnabledRun(Heap(Marks(u, x), []), ops) ==>
      Fit(Run(Heap(Marks(u, x), []), ops).used, ToBlocks(size)) != Some(0)
  {
    forall ops: seq<Op>, b: nat | EnabledRun(Heap(Marks(u, x), []), ops) && Taken(Run(Heap(Marks(u, x), []), ops), b)
      ensures Proper(x, sections, map0, b)
    {
      TakenIsProper(u, x, sections, map0, ops, b);
    }
    LowBiosProtected(x, 0);
    forall ops: seq<Op>, size: u32 | EnabledRun(Heap(Marks(u, x), []), ops)
      ensures Fit(Run(Heap(Marks(u, x), []), ops).used, ToBlocks(size)) != Some(0)
    {
      NullStaysFailure(Marks(u, x), ops, ToBlocks(size));
    }
  }

  /** From loading the kernel to the last allocation: after stage 2 has loaded the sections and the kernel has
      set up its bitmap, every byte allocated in any run is proper, and a result of 0 always means failure. */
  method BootMemory(mem: array<Byte>, elf: u32, sections: seq<Section>, entries: array<Entry>, memmap: u32)
    returns (bitmap: Map, x: Info)
    requires mem.Length == WORD && Bootable(sections)
    requires 1 <= entries.Length < 0x10000 && Markable(memmap, ENTRY_SIZE * entries.Length)
    requires forall e <- entries[..] :: Wide(e) && InBitmap(e)
    modifies mem, entries
    ensures mem[..] == LoadAll(old(mem[..]), elf, sections)
    ensures Extent(sections, x.klow, x.khigh) && x.memmap == memmap && x.count == entries.Length
    ensures fresh(bitmap) && fresh(bitmap.bits) && bitmap.Valid() && bitmap.Used()[0]
    ensures forall ops: seq<Op> :: EnabledRun(Heap(bitmap.Used(), []), ops) ==>
      AllProper(x, sections, old(entries[..]), Run(Heap(bitmap.Used(), []), ops))
    ensures forall ops: seq<Op>, size: u32 :: EnabledRun(Heap(bitmap.Used(), []), ops) ==>
      Fit(Run(Heap(bitmap.Used(), []), ops).used, ToBlocks(size)) != Some(0)
  {
    ghost var map0 := entries[..];
    var klow, khigh := LoadSections(mem, elf, sections);
    x := Info(klow, khigh, memmap, entries.Length);
    bitmap := Initialize(entries);
    ghost var u := bitmap.Used();
    ExtentBounds(sections, klow, khigh);
    SpanFits(klow, KernelLen(x));
    MarkBoot(bitmap, x);
    LowBiosProtected(x, 0);
    AfterBoot(u, x, sections, map0);
  }

  /** If the usable entries of the map are block-aligned, every proper byte is usable memory. */
  lemma ProperIsUsable(x: Info, sections: seq<Section>, map0: seq<Entry>, b: nat)
    requires Proper(x, sections, map0, b)
    requires forall e <- map0 :: e.kind == USABLE && e.base < SIZE ==> e.base + e.len < U64 && Blockwise(e)
    ensures UsableIn(map0, b)
  {
    FreedIsUsable(map0, b);
  }
}
