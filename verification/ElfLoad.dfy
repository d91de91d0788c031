/**
 Loading the kernel's sections (`load_elf_kernel` of stage 2): what memory holds afterwards,
 and the extent of what was loaded.  Addresses wrap at 32 bits, as the processor's do.  The
 file lies in the same memory, so loading a section can spoil one that is still to be loaded.
 */
module ElfLoad {
  import opened Words
  import opened Bytes

  const PROGBITS: nat := 1
  const NOBITS: nat := 8

  datatype Section = Section(kind: nat, addr: u32, size: u32, offset: u32)

  /** The sections that are copied or zeroed. */
  predicate Loaded(s: Section) {
    (s.kind == PROGBITS && s.addr != 0) || s.kind == NOBITS
  }

  /** Loading section `s` writes the byte at `a`. */
  predicate Covers(s: Section, a: u32) { Loaded(s) && Sub32(a, s.addr) < s.size }

  /** Where the byte for address `a` of section `s` is in the file, which lies at `elf`. */
  function Source(elf: u32, s: Section, a: u32): u32 { Add32(Add32(elf, s.offset), Sub32(a, s.addr)) }

  lemma SourceIs(elf: u32, s: Section, a: u32)
    ensures Source(elf, s, a) == (elf + s.offset + (a - s.addr)) % WORD
  {
    Add32Mod(elf, s.offset);
    Sub32Mod(a, s.addr);
  }

  // ------------------------------------------------------------ what is meant

  /** The byte meant to be at `a`: that of the last section there, or what was there before. */
  ghost function ByteAt(m: seq<Byte>, elf: u32, sections: seq<Section>, a: u32): Byte
    requires |m| == WORD
  {
    if sections == [] then m[a]
    else
      var s := sections[|sections| - 1];
      if !Covers(s, a) then ByteAt(m, elf, sections[..|sections| - 1], a)
      else if s.kind == PROGBITS then m[Source(elf, s, a)]
      else 0
  }

  /** Every byte of a section that no later one overlaps is meant to be the file's, or zero. */
  lemma {:induction false} SectionInPlace(m: seq<Byte>, elf: u32, sections: seq<Section>, k: nat, a: u32)
    requires |m| == WORD && k < |sections| && Covers(sections[k], a)
    requires forall j :: k < j < |sections| ==> !Covers(sections[j], a)
    ensures var s := sections[k];
      ByteAt(m, elf, sections, a) == if s.kind == 1 then m[(elf + s.offset + (a - s.addr)) % WORD] else 0
  {
    SourceIs(elf, sections[k], a);
    if k < |sections| - 1 {
      SectionInPlace(m, elf, sections[..|sections| - 1], k, a);
    }
  }

  // ---------------------------------------------------------- what is loaded

  /** `mcpy8`: byte by byte, upwards. */
  ghost function Copied(m: seq<Byte>, dst: u32, src: u32, n: nat): (r: seq<Byte>)
    requires |m| == WORD && n < WORD
    ensures |r| == WORD
  {
    if n == 0 then m
    else
      var r := Copied(m, dst, src, n - 1);
      r[Add32(dst, n - 1) := r[Add32(src, n - 1)]]
  }

  /** `mset8` with 0. */
  ghost function Zeroed(m: seq<Byte>, dst: u32, n: nat): (r: seq<Byte>)
    requires |m| == WORD && n < WORD
    ensures |r| == WORD && forall a: u32 :: r[a] == if Sub32(a, dst) < n then 0 else m[a]
  {
    seq(WORD, a requires 0 <= a < WORD => if Sub32(a, dst) < n then 0 else m[a])
  }

  ghost function LoadOne(m: seq<Byte>, elf: u32, s: Section): (r: seq<Byte>)
    requires |m| == WORD
    ensures |r| == WORD
  {
    if s.kind == PROGBITS && s.addr != 0 then Copied(m, s.addr, Add32(elf, s.offset), s.size)
    else if s.kind == NOBITS then Zeroed(m, s.addr, s.size)
    else m
  }

  ghost function LoadAll(m: seq<Byte>, elf: u32, sections: seq<Section>): (r: seq<Byte>)
    requires |m| == WORD
    ensures |r| == WORD
  {
    if sections == [] then m
    else LoadOne(LoadAll(m, elf, sections[..|sections| - 1]), elf, sections[|sections| - 1])
  }

  /** Which sections are loaded: code and data (1) unless they have address 0, and zeroed data (8) at any address. */
  lemma KindsLoaded(m: seq<Byte>, elf: u32, s: Section, a: u32)
    requires |m| == WORD
    ensures s.kind == 8 && (a - s.addr) % WORD < s.size ==> LoadOne(m, elf, s)[a] == 0
    ensures (s.kind == 1 && s.addr == 0) || (s.kind != 1 && s.kind != 8) ==> LoadOne(m, elf, s) == m
    ensures s.kind == 1 && s.addr != 0 && s.size == 1 && a == s.addr ==>
      LoadOne(m, elf, s)[a] == m[(elf + s.offset) % WORD]
  {
    Sub32Mod(a, s.addr);
    Add32Mod(elf, s.offset);
    if s.kind == 1 && s.addr != 0 && s.size == 1 {
      assert Copied(m, s.addr, Add32(elf, s.offset), 0) == m;
    }
  }

  /** What is loaded is what is meant. */
  ghost predicate LoadsRight(m: seq<Byte>, elf: u32, sections: seq<Section>)
    requires |m| == WORD
  {
    forall a: u32 :: LoadAll(m, elf, sections)[a] == ByteAt(m, elf, sections, a)
  }

  // -------------------------------------------------------- when it is right

  /** Loading `s` writes something else at `a`; a section whose bytes are in place already does not. */
  predicate Spoils(elf: u32, s: Section, a: u32) {
    Covers(s, a) && !(s.kind == PROGBITS && Add32(elf, s.offset) == s.addr)
  }

  /** Byte `k` of section `s` is still the file's when its turn comes: no section before has spoilt it, nor have
      the `k` bytes of `s` copied so far. */
  ghost predicate ReadsFile(elf: u32, before: seq<Section>, s: Section, k: u32) {
    var a := Add32(Add32(elf, s.offset), k);
    Sub32(a, s.addr) >= k && forall t <- before :: !Spoils(elf, t, a)
  }

  ghost predicate SectionIntact(elf: u32, before: seq<Section>, s: Section) {
    Loaded(s) && s.kind == PROGBITS ==> forall k: u32 :: k < s.size ==> ReadsFile(elf, before, s, k)
  }

  ghost predicate Intact(elf: u32, sections: seq<Section>) {
    forall j :: 0 <= j < |sections| ==> SectionIntact(elf, sections[..j], sections[j])
  }

  lemma IntactSplit(elf: u32, sections: seq<Section>)
    requires sections != []
    ensures var init, last := sections[..|sections| - 1], sections[|sections| - 1];
      Intact(elf, sections) <==> Intact(elf, init) && SectionIntact(elf, init, last)
  {
    var init, last := sections[..|sections| - 1], sections[|sections| - 1];
    assert forall j :: 0 <= j < |init| ==> init[..j] == sections[..j] && init[j] == sections[j];
    if Intact(elf, init) && SectionIntact(elf, init, last) {
      forall j | 0 <= j < |sections| ensures SectionIntact(elf, sections[..j], sections[j]) {
        assert j < |init| ==> SectionIntact(elf, init[..j], init[j]);
      }
    }
  }

  lemma {:induction false} Unspoilt(m: seq<Byte>, elf: u32, sections: seq<Section>, a: u32)
    requires |m| == WORD && forall s <- sections :: !Spoils(elf, s, a)
    ensures ByteAt(m, elf, sections, a) == m[a]
  {
    if sections != [] {
      assert !Spoils(elf, sections[|sections| - 1], a);
      Unspoilt(m, elf, sections[..|sections| - 1], a);
    }
  }

  /** An upward copy is right as long as it reads no byte that it has already written. */
  lemma {:induction false} CopiedAt(m: seq<Byte>, dst: u32, src: u32, n: nat, x: u32)
    requires |m| == WORD && n < WORD && forall k: u32 :: k < n ==> Sub32(Add32(src, k), dst) >= k
    ensures Copied(m, dst, src, n)[x] == if Sub32(x, dst) < n then m[Add32(src, Sub32(x, dst))] else m[x]
  {
    if n > 0 {
      CopiedAt(m, dst, src, n - 1, x);
      CopiedAt(m, dst, src, n - 1, Add32(src, n - 1));
    }
  }

  lemma {:induction false} CopiedOutside(m: seq<Byte>, dst: u32, src: u32, n: nat, x: u32)
    requires |m| == WORD && n < WORD && Sub32(x, dst) >= n
    ensures Copied(m, dst, src, n)[x] == m[x]
  {
    if n > 0 {
      CopiedOutside(m, dst, src, n - 1, x);
    }
  }

  /** A byte written once is not written again by the same copy. */
  lemma {:induction false} CopiedStays(m: seq<Byte>, dst: u32, src: u32, n: nat, k: nat)
    requires |m| == WORD && k < n < WORD
    ensures Copied(m, dst, src, n)[Add32(dst, k)] == Copied(m, dst, src, k + 1)[Add32(dst, k)]
  {
    if k + 1 < n {
      CopiedStays(m, dst, src, n - 1, k);
    }
  }

  lemma LoadOneOutside(m: seq<Byte>, elf: u32, s: Section, x: u32)
    requires |m| == WORD && !Covers(s, x)
    ensures LoadOne(m, elf, s)[x] == m[x]
  {
    if s.kind == PROGBITS && s.addr != 0 {
      CopiedOutside(m, s.addr, Add32(elf, s.offset), s.size, x);
    }
  }

  /** A section read intact, on top of what was loaded right before. */
  lemma LoadOneRight(m: seq<Byte>, elf: u32, before: seq<Section>, s: Section, x: u32)
    requires |m| == WORD && LoadsRight(m, elf, before) && SectionIntact(elf, before, s) && Covers(s, x)
    ensures LoadOne(LoadAll(m, elf, before), elf, s)[x] == if s.kind == PROGBITS then m[Source(elf, s, x)] else 0
  {
    if s.kind == PROGBITS {
      var src, k := Add32(elf, s.offset), Sub32(x, s.addr);
      assert forall i: u32 :: i < s.size ==> ReadsFile(elf, before, s, i) && Sub32(Add32(src, i), s.addr) >= i;
      CopiedAt(LoadAll(m, elf, before), s.addr, src, s.size, x);
      assert ReadsFile(elf, before, s, k);
      Unspoilt(m, elf, before, Add32(src, k));
    }
  }

  lemma {:induction false} IntactLoadsRight(m: seq<Byte>, elf: u32, sections: seq<Section>)
    requires |m| == WORD && Intact(elf, sections)
    ensures LoadsRight(m, elf, sections)
  {
    if sections != [] {
      var init, last := sections[..|sections| - 1], sections[|sections| - 1];
      IntactSplit(elf, sections);
      IntactLoadsRight(m, elf, init);
      forall a: u32 ensures LoadAll(m, elf, sections)[a] == ByteAt(m, elf, sections, a) {
        if Covers(last, a) {
          LoadOneRight(m, elf, init, last, a);
        } else {
          LoadOneOutside(LoadAll(m, elf, init), elf, last, a);
        }
      }
    }
  }

  // ------------------------------------------------------- when it is not right

  /** No two sections are loaded to the same place. */
  ghost predicate Apart(sections: seq<Section>) {
    forall i, j, a: u32 :: 0 <= i < j < |sections| ==> !(Covers(sections[i], a) && Covers(sections[j], a))
  }

  /** Memory that is zero but for one byte. */
  ghost function Probe(a: u32): (m: seq<Byte>)
    ensures |m| == WORD && forall x: u32 :: m[x] == if x == a then 1 else 0
  {
    seq(WORD, x => if x == a then 1 else 0)
  }

  lemma {:induction false} SpoiltIsZero(elf: u32, sections: seq<Section>, j: nat, a: u32)
    requires Apart(sections) && j < |sections| && Spoils(elf, sections[j], a)
    ensures ByteAt(Probe(a), elf, sections, a) == 0
  {
    var init := sections[..|sections| - 1];
    if j < |init| {
      assert init[j] == sections[j] && forall i :: 0 <= i < |init| ==> init[i] == sections[i];
      assert !Covers(sections[|sections| - 1], a);
      SpoiltIsZero(elf, init, j, a);
    }
  }

  lemma {:induction false} FirstSpoilt(elf: u32, before: seq<Section>, s: Section, n: nat) returns (k: u32)
    requires n <= s.size && exists i: u32 :: i < n && !ReadsFile(elf, before, s, i)
    ensures k < n && !ReadsFile(elf, before, s, k) && forall i: u32 :: i < k ==> ReadsFile(elf, before, s, i)
    decreases n
  {
    if i: u32 :| i < n - 1 && !ReadsFile(elf, before, s, i) {
      k := FirstSpoilt(elf, before, s, n - 1);
    } else {
      k := n - 1;
    }
  }

  /** What is read for byte `k` after `k` bytes of the section were copied, if that one is the first spoilt. */
  lemma ReadsZero(elf: u32, before: seq<Section>, s: Section, k: u32, a: u32)
    requires Apart(before) && Intact(elf, before) && Loaded(s) && s.kind == PROGBITS && k < s.size
    requires a == Add32(Add32(elf, s.offset), k) && !ReadsFile(elf, before, s, k)
    requires forall i: u32 :: i < k ==> ReadsFile(elf, before, s, i)
    ensures Copied(LoadAll(Probe(a), elf, before), s.addr, Add32(elf, s.offset), k)[a] == 0
  {
    var m, src := Probe(a), Add32(elf, s.offset);
    IntactLoadsRight(m, elf, before);
    assert forall i: u32 :: i < k ==> ReadsFile(elf, before, s, i) && Sub32(Add32(src, i), s.addr) >= i;
    CopiedAt(LoadAll(m, elf, before), s.addr, src, k, a);
    var i := Sub32(a, s.addr);
    if i < k {
      assert ReadsFile(elf, before, s, i);
      Unspoilt(m, elf, before, Add32(src, i));
    } else {
      var t :| t in before && Spoils(elf, t, a);
      var j :| 0 <= j < |before| && before[j] == t;
      SpoiltIsZero(elf, before, j, a);
    }
  }

  lemma SpoiltSection(elf: u32, before: seq<Section>, s: Section) returns (a: u32, x: u32)
    requires Apart(before) && Intact(elf, before) && !SectionIntact(elf, before, s)
    ensures Covers(s, x) && LoadOne(LoadAll(Probe(a), elf, before), elf, s)[x] == 0
    ensures s.kind == PROGBITS && Probe(a)[Source(elf, s, x)] == 1
  {
    var k := FirstSpoilt(elf, before, s, s.size);
    a, x := Add32(Add32(elf, s.offset), k), Add32(s.addr, k);
    ReadsZero(elf, before, s, k, a);
    CopiedStays(LoadAll(Probe(a), elf, before), s.addr, Add32(elf, s.offset), s.size, k);
  }

  ghost predicate CoveredBy(sections: seq<Section>, x: u32) { exists s <- sections :: Covers(s, x) }

  lemma {:induction false} SpoiltLoadsWrong(elf: u32, sections: seq<Section>) returns (a: u32, x: u32)
    requires Apart(sections) && !Intact(elf, sections)
    ensures CoveredBy(sections, x) && LoadAll(Probe(a), elf, sections)[x] != ByteAt(Probe(a), elf, sections, x)
  {
    var init, last := sections[..|sections| - 1], sections[|sections| - 1];
    IntactSplit(elf, sections);
    assert forall i :: 0 <= i < |init| ==> init[i] == sections[i];
    if Intact(elf, init) {
      a, x := SpoiltSection(elf, init, last);
      assert last in sections;
    } else {
      a, x := SpoiltLoadsWrong(elf, init);
      var j :| 0 <= j < |init| && Covers(init[j], x);
      assert Covers(sections[j], x) && !Covers(last, x);
      LoadOneOutside(LoadAll(Probe(a), elf, init), elf, last, x);
    }
  }

  /** Sections that do not overlap each other are loaded right, whatever the file contains, exactly if every
      byte is read before it is spoilt. */
  lemma LoadsExactly(elf: u32, sections: seq<Section>)
    requires Apart(sections)
    ensures (forall m: seq<Byte> | |m| == WORD :: LoadsRight(m, elf, sections)) <==> Intact(elf, sections)
  {
    if Intact(elf, sections) {
      forall m: seq<Byte> | |m| == WORD ensures LoadsRight(m, elf, sections) {
        IntactLoadsRight(m, elf, sections);
      }
    } else {
      var a, x := SpoiltLoadsWrong(elf, sections);
      assert !LoadsRight(Probe(a), elf, sections);
    }
  }

  /** In particular images of any length, also those that grow over the file, if their sections come in the
      order of the file and each is loaded below the file's bytes of itself and of those after it. */
  lemma InOrderIsIntact(elf: u32, sections: seq<Section>)
    requires forall j :: 0 <= j < |sections| ==>
      var s := sections[j];
      Loaded(s) && s.kind == PROGBITS ==> s.addr <= elf + s.offset && elf + s.offset + s.size <= WORD
    requires forall i, j :: 0 <= i < j < |sections| && Loaded(sections[i]) && sections[j].kind == PROGBITS ==>
      sections[i].addr + sections[i].size <= elf + sections[j].offset
    ensures Intact(elf, sections)
  {
    forall j, k: u32
      | 0 <= j < |sections| && Loaded(sections[j]) && sections[j].kind == PROGBITS && k < sections[j].size
      ensures ReadsFile(elf, sections[..j], sections[j], k)
    {
      var a := Add32(Add32(elf, sections[j].offset), k);
      forall t <- sections[..j] ensures !Spoils(elf, t, a) {
        var i :| 0 <= i < j && sections[i] == t;
      }
    }
  }

  /** But not if a section that is zeroed first reaches over the file. */
  lemma EarlyZeroingSpoils(elf: u32, sections: seq<Section>)
    requires elf == 0x200000
    requires sections == [Section(8, 0x180000, 0x100000, 0), Section(1, 0x100000, 0x1000, 0x1000)]
    ensures !Intact(elf, sections)
  {
    assert sections[0] in sections[..1] && Spoils(elf, sections[0], 0x201000);
    assert !ReadsFile(elf, sections[..1], sections[1], 0);
    assert !SectionIntact(elf, sections[..1], sections[1]);
  }

  // ------------------------------------------------------------------ program

  method CopyBytes(mem: array<Byte>, dst: u32, src: u32, count: u32)
    requires mem.Length == WORD
    modifies mem
    ensures mem[..] == Copied(old(mem[..]), dst, src, count)
  {
    for k := 0 to count
      invariant mem[..] == Copied(old(mem[..]), dst, src, k)
    {
      mem[Add32(dst, k)] := mem[Add32(src, k)];
    }
  }

  method ZeroBytes(mem: array<Byte>, dst: u32, count: u32)
    requires mem.Length == WORD
    modifies mem
    ensures mem[..] == Zeroed(old(mem[..]), dst, count)
  {
    for k := 0 to count
      invariant forall a: u32 :: mem[a] == if Sub32(a, dst) < k then 0 else old(mem[a])
    {
      mem[Add32(dst, k)] := 0;
    }
  }

  method LoadSection(mem: array<Byte>, elf: u32, s: Section)
    requires mem.Length == WORD
    modifies mem
    ensures mem[..] == LoadOne(old(mem[..]), elf, s)
  {
    if s.kind == PROGBITS && s.addr != 0 {
      CopyBytes(mem, s.addr, Add32(elf, s.offset), s.size);
    } else if s.kind == NOBITS {
      ZeroBytes(mem, s.addr, s.size);
    }
  }

  /** What the loop knows of the extent after some sections. */
  ghost predicate Extent(sections: seq<Section>, klow: u32, khigh: u32) {
    && (forall s <- sections :: Loaded(s) ==> klow <= s.addr && Add32(s.addr, s.size) <= khigh)
    && (klow == WORD - 1 || exists s <- sections :: Loaded(s) && klow == s.addr)
    && (khigh == 0 || exists s <- sections :: Loaded(s) && khigh == Add32(s.addr, s.size))
  }

  method Widen(s: Section, klow: u32, khigh: u32, ghost before: seq<Section>) returns (klow': u32, khigh': u32)
    requires Extent(before, klow, khigh)
    ensures Extent(before + [s], klow', khigh')
  {
    klow', khigh' := klow, khigh;
    if Loaded(s) {
      if s.addr < klow { klow' := s.addr; }
      if Add32(s.addr, s.size) > khigh { khigh' := Add32(s.addr, s.size); }
    }
    assert forall t <- before :: t in before + [s];
    assert s in before + [s];
  }

  /** The loop of `load_elf_kernel`: the sections are loaded one after the other, and the extent is the least
      and greatest address of what was loaded, or 0xFFFFFFFF and 0 if nothing was. */
  method LoadSections(mem: array<Byte>, elf: u32, sections: seq<Section>) returns (klow: u32, khigh: u32)
    requires mem.Length == WORD
    modifies mem
    ensures Extent(sections, klow, khigh)
    ensures mem[..] == LoadAll(old(mem[..]), elf, sections)
  {
    klow, khigh := WORD - 1, 0;
    for i := 0 to |sections|
      invariant Extent(sections[..i], klow, khigh)
      invariant mem[..] == LoadAll(old(mem[..]), elf, sections[..i])
    {
      assert sections[..i + 1] == sections[..i] + [sections[i]] && sections[..i + 1][..i] == sections[..i];
      klow, khigh := Widen(sections[i], klow, khigh, sections[..i]);
      LoadSection(mem, elf, sections[i]);
    }
    assert sections[..|sections|] == sections;
  }
}
