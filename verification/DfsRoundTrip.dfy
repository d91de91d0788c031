/**
 Writing an image and reading it back: every file is found under its name, with its
 contents, by both readers.
 */
module DfsRoundTrip {
  import opened Words
  import opened Bytes
  import opened DfsImage
  import opened DfsReader

  /** The first file, from index `i` on, whose name agrees with `path` within 32 bytes. */
  function Lookup(fs: seq<File>, path: seq<Byte>, i: nat): (r: Option<nat>)
    ensures r.Some? ==> r.value < |fs|
    decreases |fs| - i
  {
    if i >= |fs| then None
    else if Cut(path, NAME) == Cut(fs[i].name, NAME) then Some(i)
    else Lookup(fs, path, i + 1)
  }

  /** It is found exactly if there is one, and it is the first. */
  lemma {:induction false} LookupIs(fs: seq<File>, path: seq<Byte>, i: nat)
    ensures match Lookup(fs, path, i)
      case None => forall j :: i <= j < |fs| ==> Cut(path, NAME) != Cut(fs[j].name, NAME)
      case Some(k) =>
        && i <= k && Cut(path, NAME) == Cut(fs[k].name, NAME)
        && forall j :: i <= j < k ==> Cut(path, NAME) != Cut(fs[j].name, NAME)
    decreases |fs| - i
  {
    if i < |fs| {
      LookupIs(fs, path, i + 1);
    }
  }

  /** Names are C strings, and sector numbers fit the 64-bit header fields. */
  ghost predicate Writable(fs: seq<File>) {
    (forall f <- fs :: NoNul(f.name)) && EndLba(fs) < U64
  }

  /** The headers of an image, in order; an open chain ends at the zero sector behind the files. */
  ghost function Chain(fs: seq<File>, closed: bool): seq<nat> {
    seq(|fs|, i requires 0 <= i < |fs| => Start(fs, i)) + if closed && fs != [] then [] else [EndLba(fs)]
  }

  lemma HeaderAt(boot: seq<Byte>, fs: seq<File>, closed: bool, path: seq<Byte>, i: nat)
    requires |boot| == SECTOR && Writable(fs) && i < |fs|
    ensures var image := Image(boot, fs, closed);
      && InDisk(image, Start(fs, i), 1)
      && var h := Read(image, Start(fs, i), 1);
         SectorsIn(h) == Sectors(fs[i]) && NextIn(h) == NextOf(fs, i, closed)
         && Matches(path, h) == (Cut(path, NAME) == Cut(fs[i].name, NAME))
  {
    ImageLayout(boot, fs, closed, i);
    EndGrows(fs, i);
    HeaderDecodes(Sectors(fs[i]), NextOf(fs, i, closed), fs[i].name);
    CutField(fs[i].name, NAME);
  }

  lemma LastStart(fs: seq<File>)
    ensures Start(fs, |fs|) == EndLba(fs)
  {
    assert fs[..|fs|] == fs;
  }

  lemma {:induction false} EndPositive(fs: seq<File>)
    ensures EndLba(fs) >= 1
  {
    if fs != [] {
      EndPositive(fs[..|fs| - 1]);
    }
  }

  lemma ChainLinks(boot: seq<Byte>, fs: seq<File>, closed: bool, path: seq<Byte>, i: nat)
    requires |boot| == SECTOR && Writable(fs) && i < |Chain(fs, closed)|
    ensures InDisk(Image(boot, fs, closed), Chain(fs, closed)[i], 1)
    ensures i + 1 < |Chain(fs, closed)| ==> Links(Image(boot, fs, closed), Chain(fs, closed), i)
    ensures i + 1 == |Chain(fs, closed)| ==> NextIn(Read(Image(boot, fs, closed), Chain(fs, closed)[i], 1)) == 0
  {
    LastStart(fs);
    if i < |fs| {
      HeaderAt(boot, fs, closed, path, i);
      EndPositive(fs[..i + 1]);
    } else {
      ImageEnd(boot, fs, closed);
      ZeroHeader(Zeros(SECTOR));
    }
  }

  /** The chain of an image is a proper walk for every path: it stays on the disk and ends. */
  lemma ChainIsWalk(boot: seq<Byte>, fs: seq<File>, closed: bool, path: seq<Byte>)
    requires |boot| == SECTOR && Writable(fs)
    ensures IsWalk(Image(boot, fs, closed), path, Chain(fs, closed))
  {
    var disk, lbas := Image(boot, fs, closed), Chain(fs, closed);
    assert lbas[0] == 1 by {
      if fs != [] {
        assert fs[..0] == [];
      }
    }
    forall i | 0 <= i < |lbas| ensures InDisk(disk, lbas[i], 1) && (i + 1 < |lbas| ==> Links(disk, lbas, i)) {
      ChainLinks(boot, fs, closed, path, i);
    }
    ChainLinks(boot, fs, closed, path, |lbas| - 1);
  }

  /** From file `i` on, the walk finds what `Lookup` finds. */
  lemma {:induction false} WalkFinds(boot: seq<Byte>, fs: seq<File>, closed: bool, path: seq<Byte>, i: nat)
    requires |boot| == SECTOR && Writable(fs) && Cut(path, NAME) != [] && i <= |fs|
    requires IsWalk(Image(boot, fs, closed), path, Chain(fs, closed))
    ensures var k := Lookup(fs, path, i);
      FirstMatch(Image(boot, fs, closed), path, Chain(fs, closed)[i..])
      == if k.Some? then Some(Start(fs, k.value)) else None
    decreases |fs| - i
  {
    var disk, lbas := Image(boot, fs, closed), Chain(fs, closed);
    if i < |fs| {
      assert lbas[i..][0] == Start(fs, i) && lbas[i..][1..] == lbas[i + 1..];
      HeaderAt(boot, fs, closed, path, i);
      WalkFinds(boot, fs, closed, path, i + 1);
    } else if i < |lbas| {
      assert lbas[i..] == [EndLba(fs)];
      ImageEnd(boot, fs, closed);
      ZeroHeader(Zeros(SECTOR));
    }
  }

  /** File `k` of an image, through its header. */
  ghost predicate Holds(disk: seq<Byte>, lba: nat, f: File) {
    && InDisk(disk, lba, 1 + Sectors(f))
    && SectorsIn(Read(disk, lba, 1)) == Sectors(f)
    && Read(disk, lba + 1, Sectors(f)) == Padded(f)
  }

  /** The part of a file that a 16-bit sector count can ask for. */
  ghost function ShortPart(f: File): seq<Byte> {
    var n := Sectors(f) % 0x10000;
    assert n <= Sectors(f);
    Padded(f)[..n * SECTOR]
  }

  lemma ImageHolds(boot: seq<Byte>, fs: seq<File>, closed: bool, k: nat)
    requires |boot| == SECTOR && Writable(fs) && k < |fs|
    ensures Holds(Image(boot, fs, closed), Start(fs, k), fs[k])
  {
    ImageLayout(boot, fs, closed, k);
    HeaderAt(boot, fs, closed, [], k);
  }

  /** Both readers, on every image: the header found is that of the first file with that name, and
      its data is the file followed by zeros. */
  lemma ImageFinds(boot: seq<Byte>, fs: seq<File>, closed: bool, path: seq<Byte>, disk: seq<Byte>, lbas: seq<nat>)
    requires |boot| == SECTOR && Writable(fs) && Cut(path, NAME) != []
    requires disk == Image(boot, fs, closed) && lbas == Chain(fs, closed)
    ensures IsWalk(disk, path, lbas)
    ensures match Lookup(fs, path, 0)
      case None => FirstMatch(disk, path, lbas) == None
      case Some(k) => FirstMatch(disk, path, lbas) == Some(Start(fs, k)) && Holds(disk, Start(fs, k), fs[k])
  {
    ChainIsWalk(boot, fs, closed, path);
    assert lbas[0..] == lbas;
    WalkFinds(boot, fs, closed, path, 0);
    var r := Lookup(fs, path, 0);
    if r.Some? {
      ImageHolds(boot, fs, closed, r.value);
    }
  }

  /** `dfs_fread` of any name on an image. */
  method ReadBack(disk: seq<Byte>, path: seq<Byte>, ghost boot: seq<Byte>, ghost fs: seq<File>, ghost closed: bool)
    returns (r: Result)
    requires |boot| == SECTOR && Writable(fs) && Cut(path, NAME) != [] && disk == Image(boot, fs, closed)
    ensures match Lookup(fs, path, 0)
      case None => r == NotFound
      case Some(k) => r == Ok(Sectors(fs[k]) * SECTOR % WORD, Some(Padded(fs[k])))
  {
    ghost var lbas, k := Chain(fs, closed), Lookup(fs, path, 0);
    ImageFinds(boot, fs, closed, path, disk, lbas);
    assert k.Some? ==> Holds(disk, Start(fs, k.value), fs[k.value]);
    r := Fread(disk, path, true, lbas);
  }

  /** The search of stage 2 on an image. */
  method BootBack(disk: seq<Byte>, kernel: seq<Byte>, ghost boot: seq<Byte>, ghost fs: seq<File>, ghost closed: bool)
    returns (data: Option<seq<Byte>>)
    requires |boot| == SECTOR && Writable(fs) && Cut(kernel, NAME) != [] && disk == Image(boot, fs, closed)
    ensures match Lookup(fs, kernel, 0)
      case None => data == None
      case Some(k) =>
        && data == Some(ShortPart(fs[k]))
        && (data == Some(Padded(fs[k])) <==> Sectors(fs[k]) < 0x10000)
  {
    ghost var lbas, k := Chain(fs, closed), Lookup(fs, kernel, 0);
    ImageFinds(boot, fs, closed, kernel, disk, lbas);
    if k.Some? {
      ShortRead(disk, Start(fs, k.value) + 1, Sectors(fs[k.value]));
    }
    data := FindKernel(disk, kernel, lbas);
  }

  /** `bytes` are `data` followed by zeros, up to one sector more than `data` fills. */
  ghost predicate ZeroPadded(bytes: seq<Byte>, data: seq<Byte>) {
    && |bytes| == (|data| / 512 + 1) * 512
    && forall j :: 0 <= j < |bytes| ==> bytes[j] == if j < |data| then data[j] else 0
  }

  /** Round trip through the programs: any arguments, any name. */
  method WriteThenRead(boot: seq<Byte>, args: seq<Arg>, path: seq<Byte>) returns (r: Result)
    requires |boot| == SECTOR && Writable(FilesOf(args)) && path != [] && NoNul(path)
    ensures var fs := FilesOf(args);
      match Lookup(fs, path, 0)
      case None => r == NotFound
      case Some(k) =>
        && r.Ok? && r.size == (|fs[k].data| / 512 + 1) * 512 % WORD
        && r.data.Some? && ZeroPadded(r.data.value, fs[k].data)
  {
    var image := WriteImage(boot, args);
    r := ReadBack(image, path, boot, FilesOf(args), args != [] && args[|args| - 1].Input?);
  }

  /** The same with the number of sectors cut to 16 bits. */
  ghost predicate ShortPadded(bytes: seq<Byte>, data: seq<Byte>) {
    && |bytes| == (|data| / 512 + 1) % 0x10000 * 512
    && forall j :: 0 <= j < |bytes| ==> bytes[j] == if j < |data| then data[j] else 0
  }

  lemma ShortPartIs(f: File, part: seq<Byte>)
    requires part == ShortPart(f)
    ensures ShortPadded(part, f.data) && (ZeroPadded(part, f.data) <==> |f.data| / 512 + 1 < 0x10000)
  {
  }

  /** And what stage 2 loads: of the file found under the same name, the sectors that a 16-bit count can say; all
      of it exactly if that has fewer than 65536 sectors. */
  method WriteThenBoot(boot: seq<Byte>, args: seq<Arg>, kernel: seq<Byte>) returns (data: Option<seq<Byte>>)
    requires |boot| == SECTOR && Writable(FilesOf(args)) && kernel != [] && NoNul(kernel)
    ensures var fs := FilesOf(args);
      match Lookup(fs, kernel, 0)
      case None => data == None
      case Some(k) =>
        && data.Some? && ShortPadded(data.value, fs[k].data)
        && (ZeroPadded(data.value, fs[k].data) <==> |fs[k].data| / 512 + 1 < 0x10000)
  {
    var image := WriteImage(boot, args);
    ghost var fs, k := FilesOf(args), Lookup(FilesOf(args), kernel, 0);
    if k.Some? {
      ShortPartIs(fs[k.value], ShortPart(fs[k.value]));
    }
    data := BootBack(image, kernel, boot, FilesOf(args), args != [] && args[|args| - 1].Input?);
  }

  /** Names that differ within 32 bytes: every file is found under its own name. */
  lemma {:induction false} EveryFileIsFound(fs: seq<File>, k: nat, i: nat)
    requires i <= k < |fs|
    requires forall j :: 0 <= j < |fs| && j != k ==> Cut(fs[j].name, NAME) != Cut(fs[k].name, NAME)
    ensures Lookup(fs, fs[k].name, i) == Some(k)
    decreases k - i
  {
    if i < k {
      EveryFileIsFound(fs, k, i + 1);
    }
  }

  /** A kernel of 65536 sectors, which stage 2 takes for none: nothing of it is loaded. */
  method LongKernelIsCut(boot: seq<Byte>, f: File) returns (data: Option<seq<Byte>>)
    requires |boot| == SECTOR && f.name != [] && NoNul(f.name) && |f.data| == 0xFFFF * SECTOR
    ensures data == Some([])
  {
    var args := [Input(f)];
    assert args[..0] == [] && FilesOf(args[..0]) == [] && FilesOf(args) == [f];
    assert Sectors(f) == 0x10000;
    data := WriteThenBoot(boot, args, f.name);
  }
}
