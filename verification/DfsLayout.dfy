/** The bytes of a disk image, one by one: what any other reader of the format may rely on. */
module DfsLayout {
  import opened Bytes
  import opened Places
  import opened DfsImage
  import opened DfsReader
  import opened DfsRoundTrip

  /** A header sector, byte by byte: the number of data sectors and the sector of the next header, least
      significant byte first, the name in 32 bytes, and zeros. */
  ghost predicate IsHeader(h: seq<Byte>, sectors: nat, next: nat, name: seq<Byte>) {
    && |h| == 512
    && (forall j :: 0 <= j < 8 ==> h[j] == Place(sectors, 256, j))
    && (forall j :: 8 <= j < 16 ==> h[j] == Place(next, 256, j - 8))
    && (forall j :: 16 <= j < 48 ==> h[j] == if j - 16 < |name| then name[j - 16] else 0)
    && (forall j :: 48 <= j < 512 ==> h[j] == 0)
  }

  lemma HeaderBytes(sectors: nat, next: nat, name: seq<Byte>, h: seq<Byte>)
    requires h == Header(sectors, next, name)
    ensures IsHeader(h, sectors, next, name)
  {
    forall j | 0 <= j < 8 ensures h[j] == Place(sectors, 256, j) {
      EncodeAt(sectors, LONG, j);
    }
    forall j | 8 <= j < 16 ensures h[j] == Place(next, 256, j - 8) {
      EncodeAt(next, LONG, j - 8);
    }
  }

  /** The first file starts at sector 1, and each takes a header sector and one sector more than its data fills. */
  lemma StartIs(fs: seq<File>, i: nat)
    requires i < |fs|
    ensures Start(fs, 0) == 1 && Start(fs, i + 1) == Start(fs, i) + 1 + (|fs[i].data| / 512 + 1)
  {
    assert fs[..0] == [];
    EndGrows(fs, i);
  }

  /** The numbers in a header: the data takes one sector more than it fills, and the next header follows it; but
      behind the last file of a closed chain there is 0. */
  lemma NextIs(fs: seq<File>, i: nat, closed: bool)
    requires i < |fs|
    ensures Sectors(fs[i]) == |fs[i].data| / 512 + 1
    ensures NextOf(fs, i, closed) ==
      if closed && i == |fs| - 1 then 0 else Start(fs, i) + 1 + (|fs[i].data| / 512 + 1)
  {
    StartIs(fs, i);
  }

  /** File `i` of an image: its header sector, and in the sectors that follow, the data and zeros. */
  lemma ImageBytes(boot: seq<Byte>, fs: seq<File>, closed: bool, i: nat, image: seq<Byte>, lba: nat, n: nat, next: nat)
    returns (h: seq<Byte>, d: seq<Byte>)
    requires |boot| == 512 && i < |fs| && image == Image(boot, fs, closed) && lba == Start(fs, i)
    requires n == Sectors(fs[i]) && next == NextOf(fs, i, closed)
    ensures (lba + 1 + n) * 512 <= |image|
    ensures h == image[lba * 512..(lba + 1) * 512] && IsHeader(h, n, next, fs[i].name)
    ensures d == image[(lba + 1) * 512..(lba + 1 + n) * 512] && ZeroPadded(d, fs[i].data)
  {
    ImageLayout(boot, fs, closed, i);
    h, d := Read(image, lba, 1), Read(image, lba + 1, n);
    HeaderBytes(n, next, fs[i].name, h);
    PaddedBytes(fs[i], d);
  }

  lemma PaddedBytes(f: File, d: seq<Byte>)
    requires d == Padded(f)
    ensures ZeroPadded(d, f.data)
  {
  }

  /** Before the first file comes the boot sector, behind the last one 2048 sectors of zeros. */
  lemma ImageEnds(boot: seq<Byte>, fs: seq<File>, closed: bool, image: seq<Byte>, end: nat)
    requires |boot| == 512 && image == Image(boot, fs, closed) && end == Start(fs, |fs|) * 512
    ensures |image| == end + 2048 * 512 && image[..512] == boot
    ensures forall j :: end <= j < |image| ==> image[j] == 0
  {
    LastStart(fs);
  }
}
