/**
 The disk image writer (write_img/write_img.c): a boot sector, then for every file a
 header sector and its data sectors, chained by sector numbers, then zero sectors.
 */
module DfsImage {
  import opened Bytes

  const SECTOR: nat := 512
  const NAME: nat := 32
  const SPARE: nat := 2048
  const LONG: nat := 8

  datatype File = File(name: seq<Byte>, data: seq<Byte>)

  /** A command line argument: an option, which the file loop skips, or a file. */
  datatype Arg = Flag | Input(file: File)

  /** One sector more than whole sectors fit, even if nothing is left over. */
  function Sectors(f: File): nat { |f.data| / SECTOR + 1 }

  function Header(sectors: nat, next: nat, name: seq<Byte>): (h: seq<Byte>)
    ensures |h| == SECTOR
  {
    Encode(sectors, LONG) + Encode(next, LONG) + Field(name, NAME) + Zeros(SECTOR - 48)
  }

  function Padded(f: File): (d: seq<Byte>)
    ensures |d| == Sectors(f) * SECTOR
  {
    f.data + Zeros(Sectors(f) * SECTOR - |f.data|)
  }

  function Entry(f: File, next: nat): (e: seq<Byte>)
    ensures |e| == (1 + Sectors(f)) * SECTOR
  {
    Header(Sectors(f), next, f.name) + Padded(f)
  }

  /** The sector after the last file; sector 0 is the boot sector. */
  function EndLba(fs: seq<File>): nat {
    if fs == [] then 1 else EndLba(fs[..|fs| - 1]) + 1 + Sectors(fs[|fs| - 1])
  }

  /** The files as written; a `closed` chain has 0 in its last header, any other points to the
      sector after the last file. */
  function Body(fs: seq<File>, closed: bool): (b: seq<Byte>)
    ensures |b| == (EndLba(fs) - 1) * SECTOR
  {
    if fs == [] then []
    else Body(fs[..|fs| - 1], false) + Entry(fs[|fs| - 1], if closed then 0 else EndLba(fs))
  }

  function Image(boot: seq<Byte>, fs: seq<File>, closed: bool): (i: seq<Byte>)
    requires |boot| == SECTOR
    ensures |i| == (EndLba(fs) + SPARE) * SECTOR
  {
    boot + Body(fs, closed) + Zeros(SPARE * SECTOR)
  }

  function FilesOf(args: seq<Arg>): seq<File> {
    if args == [] then []
    else FilesOf(args[..|args| - 1]) + if args[|args| - 1].Input? then [args[|args| - 1].file] else []
  }

  lemma BodyUnfold(gs: seq<File>, fs: seq<File>, f: File, closed: bool, next: nat)
    requires gs != [] && fs == gs[..|gs| - 1] && f == gs[|gs| - 1]
    requires next == if closed then 0 else EndLba(gs)
    ensures EndLba(gs) == EndLba(fs) + 1 + Sectors(f)
    ensures Body(gs, closed) == Body(fs, false) + Entry(f, next)
  {
  }

  lemma BodySnoc(fs: seq<File>, f: File, closed: bool, next: nat)
    requires next == if closed then 0 else EndLba(fs) + 1 + Sectors(f)
    ensures EndLba(fs + [f]) == EndLba(fs) + 1 + Sectors(f)
    ensures Body(fs + [f], closed) == Body(fs, false) + Entry(f, next)
  {
    var gs := fs + [f];
    assert gs[..|gs| - 1] == fs && gs[|gs| - 1] == f;
    BodyUnfold(gs, fs, f, closed, next);
  }

  lemma FilesSnoc(args: seq<Arg>, i: nat)
    requires i < |args|
    ensures FilesOf(args[..i + 1]) == FilesOf(args[..i]) + if args[i].Input? then [args[i].file] else []
  {
    assert args[..i + 1][..i] == args[..i];
  }

  lemma Concat2(a: seq<Byte>, b: seq<Byte>, c: seq<Byte>)
    ensures a + b + c == a + (b + c)
  {
  }

  lemma BodyExtends(start: seq<Byte>, fs: seq<File>, f: File, closed: bool, next: nat)
    requires next == if closed then 0 else EndLba(fs) + 1 + Sectors(f)
    ensures start + Body(fs, false) + Entry(f, next) == start + Body(fs + [f], closed)
  {
    BodySnoc(fs, f, closed, next);
    Concat2(start, Body(fs, false), Entry(f, next));
  }

  lemma Concat3(out: seq<Byte>, h: seq<Byte>, d: seq<Byte>, z: seq<Byte>)
    ensures out + h + d + z == out + (h + (d + z))
  {
  }

  lemma EntryIs(out: seq<Byte>, f: File, next: nat, h: seq<Byte>, z: seq<Byte>)
    requires h == Header(Sectors(f), next, f.name) && z == Zeros(Sectors(f) * SECTOR - |f.data|)
    ensures out + h + f.data + z == out + Entry(f, next)
  {
    Concat3(out, h, f.data, z);
  }

  /** The writer's globals: the output so far, and `current_lba`. */
  class Writer {
    var out: seq<Byte>
    var currentLba: nat

    constructor (boot: seq<Byte>)
      ensures out == boot && currentLba == 1
    {
      out, currentLba := boot, 1;
    }

    method PutZeros(n: nat)
      modifies this`out
      ensures out == old(out) + Zeros(n)
    {
      for i := 0 to n
        invariant out == old(out) + Zeros(i)
      {
        out := out + [0];
      }
    }

    /** The output of `write_file`: header, data, and zeros up to whole sectors. */
    method PutEntry(f: File, next: nat)
      modifies this`out
      ensures out == old(out) + Entry(f, next)
    {
      var header, alignBytes := Header(Sectors(f), next, f.name), Sectors(f) * SECTOR - |f.data|;
      EntryIs(out, f, next, header, Zeros(alignBytes));
      out := out + header;
      out := out + f.data;
      PutZeros(alignBytes);
    }

    /** `write_file`, where `current_lba` 0 means that this file is the last. */
    method WriteFile(f: File)
      modifies this
      ensures currentLba == if old(currentLba) == 0 then 0 else old(currentLba) + 1 + Sectors(f)
      ensures out == old(out) + Entry(f, currentLba)
    {
      var sectorCount := Sectors(f);
      if currentLba != 0 {
        currentLba := currentLba + 1;
      }
      if currentLba != 0 {
        currentLba := currentLba + sectorCount;
      }
      PutEntry(f, currentLba);
    }

    /** One argument: files are written, and one that ends the command line closes the chain. */
    method WriteArg(arg: Arg, last: bool, ghost start: seq<Byte>, ghost fs: seq<File>)
      requires out == start + Body(fs, false) && currentLba == EndLba(fs)
      modifies this
      ensures arg.Flag? ==> out == old(out) && currentLba == old(currentLba)
      ensures arg.Input? ==> out == start + Body(fs + [arg.file], last)
      ensures arg.Input? && !last ==> currentLba == EndLba(fs + [arg.file])
    {
      match arg
      case Flag =>
      case Input(f) =>
        if last {
          currentLba := 0;
        }
        WriteFile(f);
        BodyExtends(start, fs, f, last, currentLba);
        BodySnoc(fs, f, last, currentLba);
    }

    /** The file loop of `main`: only a file that is the very last argument closes the chain. */
    method WriteFiles(args: seq<Arg>)
      requires currentLba == 1
      modifies this
      ensures out == old(out) + Body(FilesOf(args), args != [] && args[|args| - 1].Input?)
    {
      ghost var start := out;
      ghost var fs := [];
      var i := 0;
      while i < |args|
        invariant 0 <= i <= |args| && fs == FilesOf(args[..i])
        invariant out == start + Body(fs, i > 0 && i == |args| && args[i - 1].Input?)
        invariant (i == |args| && i > 0 && args[i - 1].Input?) || currentLba == EndLba(fs)
      {
        FilesSnoc(args, i);
        WriteArg(args[i], i + 1 == |args|, start, fs);
        if args[i].Input? {
          fs := fs + [args[i].file];
        }
        i := i + 1;
      }
      assert args[..|args|] == args;
    }
  }

  /** The whole image. */
  method WriteImage(boot: seq<Byte>, args: seq<Arg>) returns (image: seq<Byte>)
    requires |boot| == SECTOR
    ensures image == Image(boot, FilesOf(args), args != [] && args[|args| - 1].Input?)
  {
    var w := new Writer(boot);
    w.WriteFiles(args);
    var i := 0;
    ghost var files := w.out;
    while i < SPARE
      invariant 0 <= i <= SPARE && w.out == files + Zeros(i * SECTOR)
    {
      w.out := w.out + Zeros(SECTOR);
      assert Zeros(i * SECTOR) + Zeros(SECTOR) == Zeros((i + 1) * SECTOR);
      i := i + 1;
    }
    image := w.out;
  }
}
