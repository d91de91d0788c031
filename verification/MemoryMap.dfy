/**
 `pmman_initialize`: the BIOS memory map is sorted in place, and the blocks that its usable
 entries span below 16 MiB become free.
 */
module MemoryMap {
  import opened Words
  import opened Pmman

  const USABLE: nat := 1

  datatype Entry = Entry(base: nat, len: nat, kind: nat)

  /** Both fields have 64 bits. */
  predicate Wide(e: Entry) { e.base < U64 && e.len < U64 }

  // -------------------------------------------------------------------- sort

  ghost predicate Sorted(s: seq<Entry>) {
    forall i, j :: 0 <= i < j < |s| ==> s[i].base <= s[j].base
  }

  ghost predicate Permutes(a: seq<Entry>, b: seq<Entry>) { multiset(a) == multiset(b) }

  /** The first `n` entries are in order and not above anything after them. */
  ghost predicate SortedUpTo(s: seq<Entry>, n: nat) {
    forall i, j :: 0 <= i < n && i < j < |s| ==> s[i].base <= s[j].base
  }

  /** An entry at the very top of the address space, where the search for the smallest starts. */
  predicate IsTop(e: Entry) { e.base == U64 - 1 }

  ghost predicate AllTop(s: seq<Entry>, from: nat) {
    forall i :: from <= i < |s| ==> IsTop(s[i])
  }

  ghost predicate TwoTops(s: seq<Entry>, from: nat) {
    exists i, j :: from <= i < j < |s| && IsTop(s[i]) && IsTop(s[j])
  }

  /** What kernel/pmman.c:87-96 finds: the smallest base from `pass` on, or index 0 if all are at the top. */
  ghost predicate MinAt(s: seq<Entry>, pass: nat, min: nat) {
    if AllTop(s, pass) then min == 0
    else pass <= min < |s| && !IsTop(s[min]) && forall i :: pass <= i < |s| ==> s[min].base <= s[i].base
  }

  method FindMin(entries: array<Entry>, pass: nat) returns (minIndex: nat)
    requires pass < entries.Length && Bounded(entries[..])
    ensures minIndex < entries.Length && MinAt(entries[..], pass, minIndex)
  {
    minIndex := 0;
    var minVal := U64 - 1;
    for i := pass to entries.Length
      invariant if minVal == U64 - 1 then minIndex == 0
        else pass <= minIndex < i && minVal == entries[minIndex].base < U64 - 1
      invariant forall j :: pass <= j < i ==> minVal <= entries[j].base
    {
      if entries[i].base < minVal {
        minIndex := i;
        minVal := entries[i].base;
      }
    }
  }

  ghost function Swapped(s: seq<Entry>, i: nat, j: nat): seq<Entry>
    requires i < |s| && j < |s|
  {
    s[i := s[j]][j := s[i]]
  }

  method Swap(entries: array<Entry>, i: nat, j: nat)
    requires i < entries.Length && j < entries.Length
    modifies entries
    ensures entries[..] == Swapped(old(entries[..]), i, j)
    ensures Permutes(entries[..], old(entries[..]))
  {
    var tmp := entries[i];
    entries[i] := entries[j];
    entries[j] := tmp;
  }

  lemma SwappedTops(s: seq<Entry>, a: nat, b: nat)
    requires a < |s| && b < |s| && TwoTops(Swapped(s, a, b), 0)
    ensures TwoTops(s, 0)
  {
    var t := Swapped(s, a, b);
    var i, j :| 0 <= i < j < |t| && IsTop(t[i]) && IsTop(t[j]);
    var i', j' := if i == a then b else if i == b then a else i, if j == a then b else if j == b then a else j;
    assert IsTop(s[i']) && IsTop(s[j']);
    assert i' < j' || j' < i';
  }

  lemma TopPair(s: seq<Entry>, pass: nat)
    requires pass + 1 < |s| && AllTop(s, pass)
    ensures TwoTops(s, 0)
  {
    assert IsTop(s[pass]) && IsTop(s[pass + 1]);
  }

  /** With at most one entry at the top, a pass extends the sorted part. */
  lemma PassSorts(s: seq<Entry>, pass: nat, min: nat)
    requires pass + 1 < |s| && min < |s| && SortedUpTo(s, pass) && !TwoTops(s, 0) && MinAt(s, pass, min)
    ensures SortedUpTo(Swapped(s, pass, min), pass + 1) && !TwoTops(Swapped(s, pass, min), 0)
  {
    if AllTop(s, pass) {
      TopPair(s, pass);
    }
    if TwoTops(Swapped(s, pass, min), 0) {
      SwappedTops(s, pass, min);
    }
  }

  /** With two entries at the top and one below, the sort goes wrong as soon as only the top ones are
      left: from then on entry 0 is at the top and some later entry is not. */
  ghost predicate Astray(s: seq<Entry>, pass: nat) {
    || (TwoTops(s, pass) && !AllTop(s, 0) && forall i :: 0 <= i < pass && i < |s| ==> !IsTop(s[i]))
    || (0 < |s| && IsTop(s[0]) && AllTop(s, pass) && exists q :: 0 < q < |s| && !IsTop(s[q]))
  }

  lemma PassGoesAstray(s: seq<Entry>, pass: nat, min: nat)
    requires pass + 1 < |s| && min < |s| && Astray(s, pass) && MinAt(s, pass, min)
    ensures Astray(Swapped(s, pass, min), pass + 1)
  {
    var t := Swapped(s, pass, min);
    if IsTop(s[0]) && AllTop(s, pass) {
      var q :| 0 < q < |s| && !IsTop(s[q]);
      assert t[q] == s[q];
    } else if AllTop(s, pass) {
      assert pass > 0;
      assert t[0] == s[pass] && t[pass] == s[0];
    } else {
      var i, j :| pass <= i < j < |s| && IsTop(s[i]) && IsTop(s[j]);
      var i', j' := if i == pass then min else i, if j == pass then min else j;
      assert t[i'] == s[i] && t[j'] == s[j] && pass < i' && pass < j' && i' != j';
      assert TwoTops(t, pass + 1);
      assert t[pass] == s[min];
    }
  }

  ghost predicate Bounded(s: seq<Entry>) { forall i :: 0 <= i < |s| ==> s[i].base < U64 }

  /** The map when sorting `s0` has done `pass` passes. */
  ghost predicate Track(s0: seq<Entry>, s: seq<Entry>, pass: nat) {
    && |s| == |s0| && Bounded(s)
    && (AllTop(s0, 0) ==> AllTop(s, 0))
    && (!TwoTops(s0, 0) ==> SortedUpTo(s, pass) && !TwoTops(s, 0))
    && (TwoTops(s0, 0) && !AllTop(s0, 0) ==> Astray(s, pass))
  }

  lemma PassTracks(s0: seq<Entry>, s: seq<Entry>, pass: nat, min: nat)
    requires pass + 1 < |s| && min < |s| && Track(s0, s, pass) && MinAt(s, pass, min)
    ensures Track(s0, Swapped(s, pass, min), pass + 1)
  {
    if !TwoTops(s0, 0) {
      PassSorts(s, pass, min);
    } else if !AllTop(s0, 0) {
      PassGoesAstray(s, pass, min);
    }
  }

  lemma TrackEnds(s0: seq<Entry>, s: seq<Entry>)
    requires |s| >= 1 && Track(s0, s, |s| - 1)
    ensures Sorted(s) <==> !TwoTops(s0, 0) || AllTop(s0, 0)
  {
    if !TwoTops(s0, 0) {
      assert Sorted(s);
    } else if !AllTop(s0, 0) {
      var q :| 0 < q < |s| && !IsTop(s[q]);
      assert s[0].base > s[q].base;
    }
  }

  method SortPass(entries: array<Entry>, pass: nat, ghost s0: seq<Entry>)
    requires pass + 1 < entries.Length && Permutes(entries[..], s0) && Track(s0, entries[..], pass)
    modifies entries
    ensures Permutes(entries[..], s0) && Track(s0, entries[..], pass + 1)
  {
    ghost var s := entries[..];
    var min := FindMin(entries, pass);
    PassTracks(s0, s, pass, min);
    if min != pass {
      Swap(entries, pass, min);
    }
    assert entries[..] == Swapped(s, pass, min);
  }

  /** kernel/pmman.c:85-104: always a permutation, and sorted exactly unless two entries, but not all,
      are at the very top of the 64-bit address space. */
  method SortMap(entries: array<Entry>)
    requires entries.Length >= 1 && Bounded(entries[..])
    modifies entries
    ensures Permutes(entries[..], old(entries[..]))
    ensures Sorted(entries[..]) <==> !TwoTops(old(entries[..]), 0) || AllTop(old(entries[..]), 0)
  {
    ghost var s0 := entries[..];
    var pass := 0;
    while pass < entries.Length - 1
      invariant 0 <= pass <= entries.Length - 1
      invariant Permutes(entries[..], s0) && Track(s0, entries[..], pass)
    {
      SortPass(entries, pass, s0);
      pass := pass + 1;
    }
    TrackEnds(s0, entries[..]);
  }

  /** It does go wrong: two entries at the top and one below them. */
  method SortGoesWrong() returns (s: seq<Entry>)
    ensures Permutes(s, [Entry(U64 - 1, 0, 2), Entry(U64 - 1, 0, 2), Entry(0, BLOCK, USABLE)]) && !Sorted(s)
  {
    var entries := new Entry[3](_ => Entry(U64 - 1, 0, 2));
    entries[2] := Entry(0, BLOCK, USABLE);
    assert entries[..] == [Entry(U64 - 1, 0, 2), Entry(U64 - 1, 0, 2), Entry(0, BLOCK, USABLE)];
    assert IsTop(entries[..][0]) && IsTop(entries[..][1]) && !IsTop(entries[..][2]);
    SortMap(entries);
    s := entries[..];
  }

  // -------------------------------------------------------------- free blocks

  function Add64(a: nat, b: nat): nat { if a + b < U64 then a + b else a + b - U64 }

  /** What is left of an entry that starts below 16 MiB when it is cut off there; the cut compares the
      64-bit end, and the result is passed on as a 32-bit number. */
  function ClippedLen(e: Entry): u32
    requires e.base < SIZE
  {
    (if Add64(e.base, e.len) >= SIZE then SIZE - e.base else e.len) % WORD
  }

  /** The blocks that entry `e` makes free. */
  predicate Frees(e: Entry, block: nat) {
    && e.kind == USABLE && e.base < SIZE
    && ToBlock(e.base) <= block < ToBlock(e.base) + ToBlocks(ClippedLen(e))
  }

  /** Freeing the entry's blocks stays within the bitmap. */
  predicate InBitmap(e: Entry) {
    e.kind == USABLE && e.base < SIZE ==> ToBlock(e.base) + ToBlocks(ClippedLen(e)) <= BITS
  }

  lemma WrappedLen(e: Entry)
    requires e.base < SIZE && e.len < U64 <= e.base + e.len
    ensures ClippedLen(e) == WORD - (U64 - e.len)
  {
    assert e.len == WORD - (U64 - e.len) + (WORD - 1) * WORD;
  }

  /** That is so exactly unless the end of a usable entry wraps 64 bits by a block or more; if it wraps by
      less, nothing is freed. */
  lemma InBitmapExactly(e: Entry)
    requires Wide(e) && e.kind == USABLE && e.base < SIZE
    ensures InBitmap(e) <==> e.base + e.len < U64 || U64 - e.len < BLOCK
    ensures InBitmap(e) && e.base + e.len >= U64 ==> forall block :: !Frees(e, block)
  {
    ToBlocksExact(ClippedLen(e));
    if e.base + e.len >= U64 {
      WrappedLen(e);
    }
  }

  /** An entry from the second block on, as long as all that is below its end, wraps by a block. */
  lemma WrappingEntryLeavesBitmap()
    ensures !InBitmap(Entry(BLOCK, U64 - BLOCK, USABLE))
  {
    InBitmapExactly(Entry(BLOCK, U64 - BLOCK, USABLE));
  }

  ghost predicate SomeUsable(e: Entry, block: nat) {
    exists a :: e.base <= a < e.base + e.len && a / BLOCK == block
  }

  lemma FreedHasUsable(e: Entry, block: nat)
    requires e.base + e.len < U64 && Frees(e, block)
    ensures block < BITS && SomeUsable(e, block)
  {
    var len := ClippedLen(e);
    ToBlocksExact(len);
    var a := if block * BLOCK < e.base then e.base else block * BLOCK;
    assert e.base <= a < e.base + len && a / BLOCK == block;
  }

  lemma AlignedFreesAll(e: Entry, a: nat)
    requires e.kind == USABLE && e.base % BLOCK == 0 && e.base <= a < e.base + e.len < U64 && a < SIZE
    ensures Frees(e, a / BLOCK)
  {
    ToBlocksExact(ClippedLen(e));
  }

  /** Every block freed contains usable memory; and every block that does is freed, if the entry is
      block-aligned. */
  lemma FreesUsable(e: Entry, block: nat)
    requires e.kind == USABLE && e.base < SIZE && e.base + e.len < U64
    ensures Frees(e, block) ==> block < BITS && SomeUsable(e, block)
    ensures e.base % BLOCK == 0 && block < BITS ==> (Frees(e, block) <==> SomeUsable(e, block))
  {
    if Frees(e, block) {
      FreedHasUsable(e, block);
    } else if e.base % BLOCK == 0 && block < BITS && SomeUsable(e, block) {
      var a :| e.base <= a < e.base + e.len && a / BLOCK == block;
      AlignedFreesAll(e, a);
    }
  }

  /** Byte `b` lies in a block that `e` makes free. */
  predicate FreesByte(e: Entry, b: nat) { Frees(e, b / BLOCK) }

  predicate UsableByte(e: Entry, b: nat) { e.kind == USABLE && e.base <= b < e.base + e.len }

  /** The entry starts and ends at block boundaries, or reaches over the end of what is managed. */
  predicate Blockwise(e: Entry) {
    e.len == 0 || (e.base % BLOCK == 0 && (e.base + e.len >= SIZE || e.len % BLOCK == 0))
  }

  lemma BlockwiseCovers(e: Entry, b: nat)
    requires e.base + e.len < U64 && Blockwise(e) && FreesByte(e, b)
    ensures UsableByte(e, b)
  {
    ToBlocksExact(ClippedLen(e));
  }

  lemma OtherwiseSpills(e: Entry) returns (b: nat)
    requires e.kind == USABLE && e.base < SIZE && e.base + e.len < U64 && !Blockwise(e)
    ensures FreesByte(e, b) && !UsableByte(e, b)
  {
    var blocks := ToBlocks(ClippedLen(e));
    ToBlocksExact(ClippedLen(e));
    b := if e.base % BLOCK != 0 then ToBlock(e.base) * BLOCK else (ToBlock(e.base) + blocks) * BLOCK - 1;
  }

  /** The freed blocks hold nothing but usable memory exactly for such entries. */
  lemma FreesOnlyUsable(e: Entry)
    requires e.kind == USABLE && e.base < SIZE && e.base + e.len < U64
    ensures (forall b: nat :: FreesByte(e, b) ==> UsableByte(e, b)) <==> Blockwise(e)
  {
    if Blockwise(e) {
      forall b: nat | FreesByte(e, b) ensures UsableByte(e, b) {
        BlockwiseCovers(e, b);
      }
    } else {
      var b := OtherwiseSpills(e);
    }
  }

  /** Conventional memory as PC firmware reports it, up to 639 KiB, frees a kilobyte that is not usable. */
  lemma ConventionalMemorySpills()
    ensures var e := Entry(0, 0x9_FC00, 1); FreesByte(e, 0x9_FC00) && !UsableByte(e, 0x9_FC00)
  {
    assert ToBlocks(0x9_FC00) == 40;
  }

  ghost predicate FreedBy(s: seq<Entry>, block: nat) {
    exists e <- s :: Frees(e, block)
  }

  /** kernel/pmman.c:114-115, and the conversion to 32 bits of the call below it. */
  method Clip(e: Entry) returns (len: u32)
    requires e.base < SIZE
    ensures len == ClippedLen(e)
  {
    var l := e.len;
    if Add64(e.base, l) >= SIZE {
      l := l - (Add64(e.base, l) - SIZE);
    }
    len := l % WORD;
  }

  method FreeEntry(e: Entry, bitmap: Map)
    requires bitmap.Valid() && InBitmap(e)
    modifies bitmap.bits
    ensures forall b :: 0 <= b < BITS ==> bitmap.Used()[b] == (old(bitmap.Used())[b] && !Frees(e, b))
  {
    if e.kind == USABLE && e.base < SIZE {
      var len := Clip(e);
      bitmap.ClearRange(ToBlock(e.base), ToBlocks(len));
    }
  }

  /** kernel/pmman.c:106-118: everything is in use except what usable entries free. */
  method FreeUsable(s: seq<Entry>, bitmap: Map)
    requires bitmap.Valid() && bitmap.Used() == seq(BITS, i => true)
    requires forall e <- s :: Wide(e) && InBitmap(e)
    modifies bitmap.bits
    ensures forall b :: 0 <= b < BITS ==> bitmap.Used()[b] == !FreedBy(s, b)
  {
    for i := 0 to |s|
      invariant forall b :: 0 <= b < BITS ==> bitmap.Used()[b] == !FreedBy(s[..i], b)
    {
      assert s[..i + 1] == s[..i] + [s[i]];
      FreeEntry(s[i], bitmap);
    }
    assert s[..|s|] == s;
  }

  /** `pmman_initialize`: whatever the order of the map, a block is free afterwards exactly if some
      usable entry frees it. */
  method Initialize(entries: array<Entry>) returns (bitmap: Map)
    requires entries.Length >= 1 && forall e <- entries[..] :: Wide(e) && InBitmap(e)
    modifies entries
    ensures Permutes(entries[..], old(entries[..]))
    ensures Sorted(entries[..]) <==> !TwoTops(old(entries[..]), 0) || AllTop(old(entries[..]), 0)
    ensures fresh(bitmap) && fresh(bitmap.bits) && bitmap.Valid()
    ensures forall b :: 0 <= b < BITS ==> bitmap.Used()[b] == !FreedBy(old(entries[..]), b)
  {
    bitmap := new Map();
    assert forall i :: 0 <= i < entries.Length ==> entries[..][i] in entries[..];
    SortMap(entries);
    SameMembers(entries[..], old(entries[..]));
    FreeUsable(entries[..], bitmap);
  }

  /** Some usable entry contains byte `b`. */
  ghost predicate UsableIn(s: seq<Entry>, b: nat) {
    exists e <- s :: UsableByte(e, b)
  }

  /** With block-aligned usable entries, a byte of a free block is usable memory. */
  lemma FreedIsUsable(s: seq<Entry>, b: nat)
    requires forall e <- s :: e.kind == USABLE && e.base < SIZE ==> e.base + e.len < U64 && Blockwise(e)
    requires FreedBy(s, b / BLOCK)
    ensures UsableIn(s, b)
  {
    var e :| e in s && Frees(e, b / BLOCK);
    FreesOnlyUsable(e);
    assert FreesByte(e, b);
  }

  lemma SameMembers(a: seq<Entry>, b: seq<Entry>)
    requires Permutes(a, b)
    ensures forall e :: e in a <==> e in b
    ensures forall block :: FreedBy(a, block) <==> FreedBy(b, block)
  {
    assert forall e :: e in a <==> e in multiset(a);
    assert forall e :: e in b <==> e in multiset(b);
  }
}
