/**
 The two readers of a disk image, `dfs_fread` of the kernel and the kernel search of stage 2,
 and what they find on an image that the writer made.
 */
module DfsReader {
  import opened Words
  import opened Bytes
  import opened DfsImage

  predicate InDisk(disk: seq<Byte>, lba: nat, count: nat) { (lba + count) * SECTOR <= |disk| }

  /** `drive_read`: `count` sectors from `lba` on. */
  function Read(disk: seq<Byte>, lba: nat, count: nat): (r: seq<Byte>)
    requires InDisk(disk, lba, count)
    ensures |r| == count * SECTOR
  {
    disk[lba * SECTOR..(lba + count) * SECTOR]
  }

  function SectorsIn(header: seq<Byte>): nat
    requires |header| == SECTOR
  {
    Decode(header[0..LONG])
  }

  function NextIn(header: seq<Byte>): nat
    requires |header| == SECTOR
  {
    Decode(header[LONG..2 * LONG])
  }

  function NameIn(header: seq<Byte>): (n: seq<Byte>)
    requires |header| == SECTOR
    ensures |n| == NAME
  {
    header[16..48]
  }

  predicate Matches(path: seq<Byte>, header: seq<Byte>)
    requires |header| == SECTOR
  {
    Cut(path, NAME) == Cut(NameIn(header), NAME)
  }

  // --------------------------------------------------------------- the walks

  ghost predicate Links(disk: seq<Byte>, lbas: seq<nat>, i: nat)
    requires i + 1 < |lbas| && InDisk(disk, lbas[i], 1)
  {
    NextIn(Read(disk, lbas[i], 1)) == lbas[i + 1] != 0
  }

  /** The headers a search for `path` may visit: each is on the disk and names the next, down to
      one that ends the chain or matches. */
  ghost predicate IsWalk(disk: seq<Byte>, path: seq<Byte>, lbas: seq<nat>) {
    && lbas != [] && lbas[0] == 1
    && (forall i :: 0 <= i < |lbas| ==> InDisk(disk, lbas[i], 1))
    && (forall i :: 0 <= i < |lbas| - 1 ==> Links(disk, lbas, i))
    && var last := Read(disk, lbas[|lbas| - 1], 1);
       NextIn(last) == 0 || Matches(path, last)
  }

  ghost function FirstMatch(disk: seq<Byte>, path: seq<Byte>, lbas: seq<nat>): Option<nat>
    requires forall i :: 0 <= i < |lbas| ==> InDisk(disk, lbas[i], 1)
  {
    if lbas == [] then None
    else if Matches(path, Read(disk, lbas[0], 1)) then Some(lbas[0])
    else FirstMatch(disk, path, lbas[1..])
  }

  /** The data of the file whose header is at `lba` is on the disk. */
  ghost predicate DataInDisk(disk: seq<Byte>, found: Option<nat>) {
    found.Some? ==> InDisk(disk, found.value, 1) && InDisk(disk, found.value + 1, SectorsIn(Read(disk, found.value, 1)))
  }

  /** A search for `path` stays on the disk and ends, and so does loading what it finds. */
  ghost predicate Searchable(disk: seq<Byte>, path: seq<Byte>, lbas: seq<nat>) {
    IsWalk(disk, path, lbas) && DataInDisk(disk, FirstMatch(disk, path, lbas))
  }

  datatype Result = NotFound | Ok(size: u32, data: Option<seq<Byte>>)

  /** `dfs_fread`, for a path without its terminating zero; without an output buffer only the size,
      a 32-bit number, is reported. */
  method Fread(disk: seq<Byte>, path: seq<Byte>, wantData: bool, ghost lbas: seq<nat>) returns (r: Result)
    requires Searchable(disk, path, lbas)
    ensures match FirstMatch(disk, path, lbas)
      case None => r == NotFound
      case Some(lba) =>
        var sectors := SectorsIn(Read(disk, lba, 1));
        r == Ok(sectors * SECTOR % WORD, if wantData then Some(Read(disk, lba + 1, sectors)) else None)
  {
    var lba := 1;
    ghost var i := 0;
    while true
      invariant 0 <= i < |lbas| && lba == lbas[i]
      invariant FirstMatch(disk, path, lbas) == FirstMatch(disk, path, lbas[i..])
      decreases |lbas| - i
    {
      var buf := Read(disk, lba, 1);
      CutTerminator(path, NAME);
      var eq := Strneq(path + [0], NameIn(buf), NAME);
      if eq {
        var sectors := SectorsIn(buf);
        return Ok(sectors * SECTOR % WORD, if wantData then Some(Read(disk, lba + 1, sectors)) else None);
      }
      assert i + 1 < |lbas| ==> Links(disk, lbas, i);
      lba := NextIn(buf);
      assert lbas[i..][1..] == lbas[i + 1..];
      if lba == 0 {
        break;
      }
      i := i + 1;
    }
    r := NotFound;
  }

  /** What stage 2 loads from a disk: as many sectors as the low 16 bits of the header's count say. */
  ghost function KernelOn(disk: seq<Byte>, kernel: seq<Byte>, lbas: seq<nat>): Option<seq<Byte>>
    requires Searchable(disk, kernel, lbas)
  {
    match FirstMatch(disk, kernel, lbas)
    case None => None
    case Some(lba) => Some(Read(disk, lba + 1, SectorsIn(Read(disk, lba, 1)) % 0x10000))
  }

  /** The search in `stage2_c` on one drive, for the kernel's file name; its disk driver takes a
      16-bit sector count. */
  method FindKernel(disk: seq<Byte>, kernel: seq<Byte>, ghost lbas: seq<nat>) returns (data: Option<seq<Byte>>)
    requires Searchable(disk, kernel, lbas)
    ensures data == KernelOn(disk, kernel, lbas)
  {
    var lba := 1;
    ghost var i := 0;
    while lba != 0
      invariant 0 <= i <= |lbas| && (if i < |lbas| then lba == lbas[i] != 0 else lba == 0)
      invariant FirstMatch(disk, kernel, lbas) == FirstMatch(disk, kernel, lbas[i..])
      decreases |lbas| - i
    {
      var buf := Read(disk, lba, 1);
      CutTerminator(kernel, NAME);
      var eq := Strneq(NameIn(buf), kernel + [0], NAME);
      if eq {
        return Some(Read(disk, lba + 1, SectorsIn(buf) % 0x10000));
      }
      assert i + 1 < |lbas| ==> Links(disk, lbas, i);
      lba := NextIn(buf);
      assert lbas[i..][1..] == lbas[i + 1..];
      i := i + 1;
    }
    data := None;
  }

  /** A 16-bit count reads everything exactly below 65536 sectors, and otherwise a beginning. */
  lemma ShortRead(disk: seq<Byte>, lba: nat, sectors: nat)
    requires InDisk(disk, lba, sectors)
    ensures Read(disk, lba, sectors % 0x10000) == Read(disk, lba, sectors) <==> sectors < 0x10000
    ensures Read(disk, lba, sectors % 0x10000) == Read(disk, lba, sectors)[..sectors % 0x10000 * SECTOR]
  {
    assert |Read(disk, lba, sectors)| == sectors * SECTOR;
  }

  /** Whatever the disk, both readers find a file or neither does, and they load the same bytes exactly if
      it has fewer than 65536 sectors; otherwise stage 2 loads only a beginning. */
  method ReadersAgree(disk: seq<Byte>, path: seq<Byte>, ghost lbas: seq<nat>)
    returns (r: Result, data: Option<seq<Byte>>)
    requires Searchable(disk, path, lbas)
    ensures match FirstMatch(disk, path, lbas)
      case None => r == NotFound && data == None
      case Some(lba) =>
        && r.Ok? && r.data.Some? && data.Some? && data.value <= r.data.value
        && (data == r.data <==> SectorsIn(Read(disk, lba, 1)) < 0x10000)
  {
    r := Fread(disk, path, true, lbas);
    data := FindKernel(disk, path, lbas);
    ghost var found := FirstMatch(disk, path, lbas);
    if found.Some? {
      ShortRead(disk, found.value + 1, SectorsIn(Read(disk, found.value, 1)));
    }
  }

  /** The drive loop of `stage2_c`: the kernel comes from the first drive that has one. */
  method FindOnDrives(drives: seq<seq<Byte>>, kernel: seq<Byte>, ghost walks: seq<seq<nat>>)
    returns (drive: nat, data: Option<seq<Byte>>)
    requires |walks| == |drives| && forall d :: 0 <= d < |drives| ==> Searchable(drives[d], kernel, walks[d])
    ensures drive <= |drives| && forall d :: 0 <= d < drive ==> KernelOn(drives[d], kernel, walks[d]) == None
    ensures data == if drive < |drives| then KernelOn(drives[drive], kernel, walks[drive]) else None
    ensures data.Some? <==> drive < |drives|
  {
    drive, data := 0, None;
    while drive < |drives|
      invariant drive <= |drives| && data == None
      invariant forall d :: 0 <= d < drive ==> KernelOn(drives[d], kernel, walks[d]) == None
    {
      data := FindKernel(drives[drive], kernel, walks[drive]);
      if data.Some? {
        return;
      }
      drive := drive + 1;
    }
  }

  // ------------------------------------------------------- headers on images

  lemma Parts(a: seq<Byte>, b: seq<Byte>, c: seq<Byte>, d: seq<Byte>)
    requires |a| == LONG && |b| == LONG && |c| == NAME
    ensures var h := a + b + c + d;
      h[0..LONG] == a && h[LONG..2 * LONG] == b && h[16..48] == c
  {
  }

  lemma HeaderDecodes(sectors: nat, next: nat, name: seq<Byte>)
    requires sectors < U64 && next < U64
    ensures var h := Header(sectors, next, name);
      SectorsIn(h) == sectors && NextIn(h) == next && NameIn(h) == Field(name, NAME)
  {
    Parts(Encode(sectors, LONG), Encode(next, LONG), Field(name, NAME), Zeros(SECTOR - 48));
    DecodeU64(sectors);
    DecodeU64(next);
  }

  lemma ZeroHeader(h: seq<Byte>)
    requires h == Zeros(SECTOR)
    ensures SectorsIn(h) == 0 && NextIn(h) == 0 && Cut(NameIn(h), NAME) == []
  {
    assert h[0..LONG] == Zeros(LONG) && h[LONG..2 * LONG] == Zeros(LONG);
    DecodeZeros(LONG);
    assert NameIn(h)[0] == 0;
  }

  /** The sector of the header of file `i`. */
  ghost function Start(fs: seq<File>, i: nat): nat
    requires i <= |fs|
  {
    EndLba(fs[..i])
  }

  ghost function NextOf(fs: seq<File>, i: nat, closed: bool): nat
    requires i < |fs|
  {
    if closed && i == |fs| - 1 then 0 else Start(fs, i + 1)
  }

  lemma {:induction false} EndGrows(fs: seq<File>, i: nat)
    requires i < |fs|
    ensures Start(fs, i + 1) == Start(fs, i) + 1 + Sectors(fs[i])
    ensures Start(fs, i + 1) <= EndLba(fs)
    decreases |fs| - i
  {
    assert fs[..i + 1][..i] == fs[..i];
    if i + 1 < |fs| {
      EndGrows(fs, i + 1);
    } else {
      assert fs[..i + 1] == fs;
    }
  }

  /** `e` is found at sector `lba`, counting from the sector after the boot sector as 1. */
  ghost predicate At(b: seq<Byte>, lba: nat, e: seq<Byte>) {
    1 <= lba && (lba - 1) * SECTOR + |e| <= |b| && b[(lba - 1) * SECTOR..(lba - 1) * SECTOR + |e|] == e
  }

  lemma AtEnd(b: seq<Byte>, lba: nat, e: seq<Byte>)
    requires 1 <= lba && |b| == (lba - 1) * SECTOR
    ensures At(b + e, lba, e)
  {
  }

  lemma AtStays(b: seq<Byte>, c: seq<Byte>, lba: nat, e: seq<Byte>)
    requires At(b, lba, e)
    ensures At(b + c, lba, e)
  {
    var lo := (lba - 1) * SECTOR;
    assert (b + c)[lo..lo + |e|] == b[lo..lo + |e|];
  }

  /** Where file `i` lies in the body. */
  lemma {:induction false} BodyAt(fs: seq<File>, i: nat, closed: bool)
    requires i < |fs|
    ensures At(Body(fs, closed), Start(fs, i), Entry(fs[i], NextOf(fs, i, closed)))
    decreases |fs|
  {
    var init, last := fs[..|fs| - 1], fs[|fs| - 1];
    if i == |fs| - 1 {
      assert fs[..i + 1] == fs;
      AtEnd(Body(init, false), EndLba(init), Entry(last, NextOf(fs, i, closed)));
    } else {
      assert init[..i] == fs[..i] && init[..i + 1] == fs[..i + 1];
      BodyAt(init, i, false);
      AtStays(Body(init, false), Entry(last, if closed then 0 else EndLba(fs)),
              Start(fs, i), Entry(fs[i], NextOf(fs, i, closed)));
    }
  }

  lemma SplitEntry(disk: seq<Byte>, lba: nat, h: seq<Byte>, d: seq<Byte>, n: nat)
    requires |h| == SECTOR && |d| == n * SECTOR && InDisk(disk, lba, 1 + n)
    requires disk[lba * SECTOR..lba * SECTOR + |h + d|] == h + d
    ensures Read(disk, lba, 1) == h && Read(disk, lba + 1, n) == d
  {
    var e := disk[lba * SECTOR..lba * SECTOR + |h + d|];
    assert Read(disk, lba, 1) == e[..SECTOR] == h;
    assert Read(disk, lba + 1, n) == e[SECTOR..] == d;
  }

  lemma ShiftedAt(boot: seq<Byte>, b: seq<Byte>, z: seq<Byte>, lba: nat, e: seq<Byte>)
    requires |boot| == SECTOR && At(b, lba, e)
    ensures var disk := boot + b + z;
      lba * SECTOR + |e| <= |disk| && disk[lba * SECTOR..lba * SECTOR + |e|] == e
  {
    var disk := boot + b + z;
    assert disk[lba * SECTOR..lba * SECTOR + |e|] == b[(lba - 1) * SECTOR..(lba - 1) * SECTOR + |e|];
  }

  /** Layout: on every image the header of file `i` is at its start, its data follows, and its
      `next_lba` is where the next header is, or 0. */
  lemma ImageLayout(boot: seq<Byte>, fs: seq<File>, closed: bool, i: nat)
    requires |boot| == SECTOR && i < |fs|
    ensures var image := Image(boot, fs, closed);
      && InDisk(image, Start(fs, i), 1 + Sectors(fs[i]))
      && Read(image, Start(fs, i), 1) == Header(Sectors(fs[i]), NextOf(fs, i, closed), fs[i].name)
      && Read(image, Start(fs, i) + 1, Sectors(fs[i])) == Padded(fs[i])
    ensures Start(fs, i) + 1 + Sectors(fs[i]) == Start(fs, i + 1)
  {
    EndGrows(fs, i);
    var lba, next := Start(fs, i), NextOf(fs, i, closed);
    BodyAt(fs, i, closed);
    ShiftedAt(boot, Body(fs, closed), Zeros(SPARE * SECTOR), lba, Entry(fs[i], next));
    SplitEntry(Image(boot, fs, closed), lba, Header(Sectors(fs[i]), next, fs[i].name), Padded(fs[i]), Sectors(fs[i]));
  }

  /** The sector after the last file is a zero sector. */
  lemma ImageEnd(boot: seq<Byte>, fs: seq<File>, closed: bool)
    requires |boot| == SECTOR
    ensures InDisk(Image(boot, fs, closed), EndLba(fs), 1)
    ensures Read(Image(boot, fs, closed), EndLba(fs), 1) == Zeros(SECTOR)
  {
    ReadAfter(boot + Body(fs, closed), EndLba(fs));
  }

  lemma ReadAfter(front: seq<Byte>, lba: nat)
    requires |front| == lba * SECTOR
    ensures InDisk(front + Zeros(SPARE * SECTOR), lba, 1)
    ensures Read(front + Zeros(SPARE * SECTOR), lba, 1) == Zeros(SECTOR)
  {
    var disk := front + Zeros(SPARE * SECTOR);
    assert disk[|front|..|front| + SECTOR] == Zeros(SECTOR);
  }
}
