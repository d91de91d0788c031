/**
 The physical memory manager (kernel/pmman.c): a first-fit allocator over a bitmap of
 1024 blocks of 16 KiB, held in 32 words.
 */
module Pmman {
  import opened Words

  const BLOCK: nat := 16384
  const BITS: nat := 1024
  const SIZE: nat := 16777216

  // -------------------------------------------------------------- arithmetic

  /** `pmman_to_block` with the base of 0 that the only map has. */
  function ToBlock(addr: u32): u32 { addr / BLOCK }

  /** `pmman_to_blocks`: round up to whole blocks in 32-bit arithmetic.  `MaskThenShift` shows that
      the mask in `align_fwd` does not matter under the shift. */
  function ToBlocks(len: u32): u32 { Add32(len, BLOCK - 1) / BLOCK }

  lemma MaskThenShift(v: bv32)
    ensures ((v + 0x3FFF) & !0x3FFF) >> 14 == (v + 0x3FFF) >> 14
  {
  }

  /** The blocks suffice for `len` bytes and are not one too many, unless the rounding wraps:
      then there are none at all. */
  lemma ToBlocksExact(len: u32)
    ensures len + BLOCK - 1 < WORD ==> len <= ToBlocks(len) * 0x4000 < len + 0x4000
    ensures len + BLOCK - 1 >= WORD ==> ToBlocks(len) == 0
    ensures ToBlocks(len) == 0 <==> len == 0 || len + BLOCK - 1 >= WORD
  {
  }

  // -------------------------------------------------------------------- bits

  function Shift(k: nat): (s: bv6)
    requires k < 32
    ensures s < 32
  {
    var s := k as bv6;
    assert s as nat == k;
    s
  }

  predicate BitAt(w: bv32, k: bv6)
    requires k < 32
  {
    (w >> k) & 1 == 1
  }

  function SetBit(w: bv32, k: bv6): bv32
    requires k < 32
  {
    w | (1 << k)
  }

  function ClearBit(w: bv32, k: bv6): bv32
    requires k < 32
  {
    w & !(1 << k)
  }

  lemma ShiftValue(k: nat)
    requires k < 32
    ensures Shift(k) as nat == k
  {
  }

  lemma ShiftInjective(k: nat, j: nat)
    requires k < 32 && j < 32 && k != j
    ensures Shift(k) != Shift(j)
  {
    ShiftValue(k);
    ShiftValue(j);
  }

  lemma SameBit(w: bv32, k: bv6)
    requires k < 32
    ensures BitAt(SetBit(w, k), k) && !BitAt(ClearBit(w, k), k)
  {
  }

  lemma OtherBitSet(w: bv32, k: bv6, j: bv6)
    requires k < 32 && j < 32 && k != j
    ensures BitAt(SetBit(w, k), j) == BitAt(w, j)
  {
  }

  lemma OtherBitClear(w: bv32, k: bv6, j: bv6)
    requires k < 32 && j < 32 && k != j
    ensures BitAt(ClearBit(w, k), j) == BitAt(w, j)
  {
  }

  /** Bit `i` of a bitmap: bit `i % 32` of word `i / 32`. */
  predicate Bit(words: seq<bv32>, i: nat)
    requires |words| == 32 && i < BITS
  {
    BitAt(words[i / 32], Shift(i % 32))
  }

  ghost function Bits(words: seq<bv32>): (u: seq<bool>)
    requires |words| == 32
    ensures |u| == BITS
  {
    seq(BITS, i requires 0 <= i < BITS => Bit(words, i))
  }

  /** Where block `i` is: in word `i / 32`, the bit of value 2^(i % 32). */
  lemma BitIs(words: seq<bv32>, i: nat)
    requires |words| == 32 && i < 1024
    ensures Shift(i % 32) as nat == i % 32
    ensures Bits(words)[i] <==> (words[i / 32] >> Shift(i % 32)) & 1 == 1
  {
    ShiftValue(i % 32);
  }

  lemma BitUpdate(words: seq<bv32>, i: nat, j: nat, w: bv32, b: bool)
    requires |words| == 32 && i < BITS && j < BITS
    requires w == if b then SetBit(words[i / 32], Shift(i % 32)) else ClearBit(words[i / 32], Shift(i % 32))
    ensures Bit(words[i / 32 := w], j) == if i == j then b else Bit(words, j)
  {
    if i == j {
      SameBit(words[i / 32], Shift(i % 32));
    } else if i / 32 == j / 32 {
      ShiftInjective(i % 32, j % 32);
      OtherBitSet(words[i / 32], Shift(i % 32), Shift(j % 32));
      OtherBitClear(words[i / 32], Shift(i % 32), Shift(j % 32));
    }
  }

  lemma BitsUpdate(words: seq<bv32>, i: nat, w: bv32, b: bool)
    requires |words| == 32 && i < BITS
    requires w == if b then SetBit(words[i / 32], Shift(i % 32)) else ClearBit(words[i / 32], Shift(i % 32))
    ensures Bits(words[i / 32 := w]) == Bits(words)[i := b]
  {
    forall j | 0 <= j < BITS ensures Bit(words[i / 32 := w], j) == if i == j then b else Bit(words, j) {
      BitUpdate(words, i, j, w, b);
    }
  }

  // --------------------------------------------------------------- first fit

  predicate FreeRun(u: seq<bool>, start: nat, n: nat) {
    start + n <= |u| && forall i :: start <= i < start + n ==> !u[i]
  }

  function FitFrom(u: seq<bool>, n: nat, s: nat): Option<nat>
    decreases |u| - s
  {
    if s + n > |u| || n == 0 then None
    else if FreeRun(u, s, n) then Some(s)
    else FitFrom(u, n, s + 1)
  }

  /** The start of the leftmost run of `n` free blocks, by trying every start. */
  function Fit(u: seq<bool>, n: nat): Option<nat> { FitFrom(u, n, 0) }

  lemma {:induction false} FitFromIs(u: seq<bool>, n: nat, s: nat)
    ensures match FitFrom(u, n, s)
      case Some(r) => s <= r && n > 0 && FreeRun(u, r, n) && forall q :: s <= q < r ==> !FreeRun(u, q, n)
      case None => n == 0 || forall q :: s <= q ==> !FreeRun(u, q, n)
    decreases |u| - s
  {
    if s + n <= |u| && n > 0 && !FreeRun(u, s, n) {
      FitFromIs(u, n, s + 1);
    }
  }

  /** First fit: a free run exists exactly if one is found, and the one found is leftmost. */
  lemma FitIs(u: seq<bool>, n: nat)
    ensures Fit(u, n).Some? <==> n > 0 && exists q: nat :: FreeRun(u, q, n)
    ensures Fit(u, n).Some? ==>
      && FreeRun(u, Fit(u, n).value, n)
      && forall q: nat :: FreeRun(u, q, n) ==> Fit(u, n).value <= q
  {
    FitFromIs(u, n, 0);
  }

  /** The search has passed every start up to `s`. */
  lemma {:induction false} FitSkips(u: seq<bool>, n: nat, s: nat, t: nat)
    requires s <= t && forall q :: s <= q < t ==> !FreeRun(u, q, n)
    ensures FitFrom(u, n, s) == FitFrom(u, n, t)
    decreases t - s
  {
    if s < t {
      FitSkips(u, n, s + 1, t);
    }
  }

  /** No run can start from `start` on and reach over a used block at `i`, or the end. */
  lemma NoRunOver(u: seq<bool>, n: nat, start: nat, i: nat)
    requires start <= i < start + n && (i < |u| ==> u[i])
    ensures FitFrom(u, n, start) == FitFrom(u, n, i + 1)
  {
    forall q | start <= q < i + 1 ensures !FreeRun(u, q, n) {
      assert q <= i < q + n;
    }
    FitSkips(u, n, start, i + 1);
  }

  function Fill(u: seq<bool>, lo: nat, hi: nat, b: bool): (r: seq<bool>)
    ensures |r| == |u|
    ensures forall i :: 0 <= i < |u| ==> r[i] == if lo <= i < hi then b else u[i]
  {
    seq(|u|, i requires 0 <= i < |u| => if lo <= i < hi then b else u[i])
  }

  class Map {
    const bits: array<bv32>

    ghost predicate Valid() { bits.Length == 32 }

    ghost function Used(): seq<bool>
      requires Valid()
      reads bits
    {
      Bits(bits[..])
    }

    constructor ()
      ensures Valid() && fresh(bits) && Used() == seq(BITS, i => true)
    {
      bits := new bv32[32](i => 0xFFFF_FFFF);
      new;
      forall i | 0 <= i < BITS ensures Bit(bits[..], i) {
        AllOnes(Shift(i % 32));
      }
    }

    static lemma AllOnes(k: bv6)
      requires k < 32
      ensures BitAt(0xFFFF_FFFF, k)
    {
    }

    method GetBlock(block: nat) returns (b: bool)
      requires Valid() && block < BITS
      ensures b == Used()[block]
    {
      b := BitAt(bits[block / 32], Shift(block % 32));
    }

    method SetBlock(block: nat)
      requires Valid() && block < BITS
      modifies bits
      ensures Used() == old(Used())[block := true]
    {
      var w := SetBit(bits[block / 32], Shift(block % 32));
      BitsUpdate(bits[..], block, w, true);
      bits[block / 32] := w;
      assert bits[..] == old(bits[..])[block / 32 := w];
    }

    method ClearBlock(block: nat)
      requires Valid() && block < BITS
      modifies bits
      ensures Used() == old(Used())[block := false]
    {
      var w := ClearBit(bits[block / 32], Shift(block % 32));
      BitsUpdate(bits[..], block, w, false);
      bits[block / 32] := w;
      assert bits[..] == old(bits[..])[block / 32 := w];
    }

    /** `pmman_mark_range`; a range whose end wraps below its start is empty. */
    method MarkRange(start: u32, size: u32)
      requires Valid() && (start < Add32(start, size) ==> Add32(start, size) <= BITS)
      modifies bits
      ensures Used() == Fill(old(Used()), start, Add32(start, size), true)
    {
      var end := Add32(start, size);
      var i := start;
      while i < end
        invariant start <= i && if start <= end then i <= end else i == start
        invariant Used() == Fill(old(Used()), start, i, true)
      {
        SetBlock(i);
        i := i + 1;
      }
      assert Fill(old(Used()), start, i, true) == Fill(old(Used()), start, end, true);
    }

    method ClearRange(start: u32, size: u32)
      requires Valid() && (start < Add32(start, size) ==> Add32(start, size) <= BITS)
      modifies bits
      ensures Used() == Fill(old(Used()), start, Add32(start, size), false)
    {
      var end := Add32(start, size);
      var i := start;
      while i < end
        invariant start <= i && if start <= end then i <= end else i == start
        invariant Used() == Fill(old(Used()), start, i, false)
      {
        ClearBlock(i);
        i := i + 1;
      }
      assert Fill(old(Used()), start, i, false) == Fill(old(Used()), start, end, false);
    }

    method IsFree(block: nat) returns (free: bool)
      requires Valid()
      ensures free == (block < BITS && !Used()[block])
    {
      free := block < BITS;
      if free {
        var b := GetBlock(block);
        free := !b;
      }
    }

    /** The inner loop of `pmman_alloc`: over free blocks until there are enough of them, or to the block in
        use, or the end, where the run stops. */
    method Scan(start: nat, blocks: nat) returns (found: bool, i: nat)
      requires Valid() && start <= BITS
      ensures start <= i <= BITS
      ensures found ==> blocks > 0 && FreeRun(Used(), start, blocks)
      ensures !found ==> (i < BITS ==> Used()[i]) && (blocks > 0 ==> i < start + blocks)
    {
      i := start;
      var free := IsFree(i);
      while free
        invariant start <= i <= BITS && (blocks > 0 ==> i - start < blocks)
        invariant free == (i < BITS && !Used()[i])
        invariant forall j :: start <= j < i ==> !Used()[j]
        decreases BITS - i
      {
        i := i + 1;
        if i - start == blocks {
          return true, i;
        }
        free := IsFree(i);
      }
      found := false;
    }

    /** The search of `pmman_alloc`, whose inner loop advances the outer index. */
    method Search(blocks: nat) returns (found: bool, start: nat)
      requires Valid() && blocks <= BITS
      ensures Fit(Used(), blocks) == if found then Some(start) else None
    {
      ghost var u := Used();
      var i := 0;
      start := 0;
      while i <= BITS - blocks
        invariant i <= BITS + 1
        invariant blocks > 0 ==> FitFrom(u, blocks, 0) == FitFrom(u, blocks, i)
        decreases BITS + 1 - i
      {
        start := i;
        found, i := Scan(start, blocks);
        if found {
          return;
        }
        if blocks > 0 {
          NoRunOver(u, blocks, start, i);
        }
        i := i + 1;
      }
      found := false;
    }

    /** `pmman_alloc`: the address of the leftmost fitting run, which becomes used; otherwise 0. */
    method Alloc(size: u32) returns (addr: u32)
      requires Valid()
      modifies bits
      ensures match Fit(old(Used()), ToBlocks(size))
        case None => addr == 0 && Used() == old(Used())
        case Some(s) => addr == s * BLOCK && Used() == Fill(old(Used()), s, s + ToBlocks(size), true)
    {
      var blocks := ToBlocks(size);
      FitIs(Used(), blocks);
      if blocks > BITS {
        return 0;
      }
      var found, start := Search(blocks);
      if !found {
        return 0;
      }
      MarkRange(start, blocks);
      addr := start * BLOCK;
    }

    /** `pmman_free`. */
    method Free(addr: u32, size: u32)
      requires Valid() && (ToBlocks(size) > 0 ==> ToBlock(addr) + ToBlocks(size) <= BITS)
      modifies bits
      ensures Used() == Fill(old(Used()), ToBlock(addr), ToBlock(addr) + ToBlocks(size), false)
    {
      ClearRange(ToBlock(addr), ToBlocks(size));
    }
  }
}
