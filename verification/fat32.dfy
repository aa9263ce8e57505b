/** The FAT32 volume (kernel/fs/fat32.c) over an arbitrary disk: geometry from the boot
    sector, the cluster chain, and reading a file along it (Microsoft FAT specification,
    sections 3, 4 and 6). */
module Fat32 {
  import Packed

  type Byte = Packed.Byte

  const SECTOR_SIZE: nat := 512
  const TWO32: nat := 0x1_0000_0000
  const EOC: nat := 0x0FFF_FFF8
  const FILE_GUARD: nat := 1024

  type Block = s: seq<Byte> | |s| == SECTOR_SIZE witness seq(SECTOR_SIZE, _ => 0)

  /** Reading one sector may fail. */
  datatype Sector = Unreadable | Data(bytes: Block)

  type Disk = nat -> Sector

  /** The geometry fat32_init computes. */
  datatype Fs = Fs(fatStart: nat, dataStart: nat, spc: nat, root: nat)

  function Le16(s: Block, o: nat): nat
    requires o + 2 <= SECTOR_SIZE
  {
    var a: nat, b: nat := s[o], s[o + 1];
    a + 256 * b
  }

  function Le32(s: Block, o: nat): nat
    requires o + 4 <= SECTOR_SIZE
  {
    var a: nat, b: nat, c: nat, d: nat := s[o], s[o + 1], s[o + 2], s[o + 3];
    a + 256 * b + 65536 * c + 16777216 * d
  }

  datatype InitResult = NotFat32 | Mounted(fs: Fs)

  /** A boot sector with the signature, FAT32's zero fields and 512-byte sectors. */
  predicate IsFat32(s: Block) {
    && s[510] == 0x55 && s[511] == 0xAA
    && Le16(s, 17) == 0 && Le16(s, 22) == 0
    && Le16(s, 11) == SECTOR_SIZE
  }

  /** The first sector past the reserved ones and the FATs. */
  function FatEnd(s: Block): nat {
    Le16(s, 14) + Times(s[16], Le32(s, 36))
  }

  function Times(a: nat, b: nat): nat { a * b }

  /** `fat32_init`: a cluster is at most 255 sectors because the field is one byte, and the
      data region starts past the FATs. */
  method Init(disk: Disk) returns (r: InitResult)
    ensures r.Mounted? <==> disk(0).Data? && IsFat32(disk(0).bytes)
    ensures r.Mounted? ==>
              && r.fs.spc <= 255 && r.fs.spc == disk(0).bytes[13]
              && r.fs.fatStart == Le16(disk(0).bytes, 14) < 65536
              && r.fs.dataStart == FatEnd(disk(0).bytes) % TWO32
              && r.fs.root == Le32(disk(0).bytes, 44)
  {
    var sector := disk(0);
    if sector.Unreadable? { return NotFat32; }
    var s := sector.bytes;
    if s[510] != 0x55 || s[511] != 0xAA { return NotFat32; }
    if Le16(s, 17) != 0 || Le16(s, 22) != 0 { return NotFat32; }
    if Le16(s, 11) != SECTOR_SIZE { return NotFat32; }
    return Mounted(Fs(Le16(s, 14), FatEnd(s) % TWO32, s[13], Le32(s, 44)));
  }

  // ---- the cluster chain ----

  /** A cluster number that names data, as opposed to free, reserved or end of chain. */
  predicate InChain(c: nat) { 2 <= c < EOC }

  /** The sector of the FAT that holds a cluster's entry, and the entry's offset there. */
  function FatSector(fs: Fs, c: nat): nat { (fs.fatStart + c * 4 % TWO32 / SECTOR_SIZE) % TWO32 }

  function FatOffset(c: nat): (o: nat)
    ensures o + 4 <= SECTOR_SIZE
  {
    c * 4 % TWO32 % SECTOR_SIZE
  }

  /** `fat32_next_cluster`: the low 28 bits of the entry, or 0 when it cannot be read. */
  function NextCluster(fs: Fs, disk: Disk, c: nat): (n: nat)
    ensures n < 0x1000_0000
  {
    match disk(FatSector(fs, c))
    case Unreadable => 0
    case Data(s) => Le32(s, FatOffset(c)) % 0x1000_0000
  }

  /** Entries of different clusters of the chain do not overlap on disk. */
  lemma EntriesApart(fs: Fs, c: nat, d: nat)
    requires InChain(c) && InChain(d) && c != d && fs.fatStart < 65536
    ensures FatSector(fs, c) != FatSector(fs, d) || FatOffset(c) + 4 <= FatOffset(d) || FatOffset(d) + 4 <= FatOffset(c)
  {
    EntryPlace(fs, c);
    EntryPlace(fs, d);
    assert c * 4 == c / 128 * SECTOR_SIZE + c % 128 * 4;
    assert d * 4 == d / 128 * SECTOR_SIZE + d % 128 * 4;
  }

  /** 128 entries to a sector. */
  lemma EntryPlace(fs: Fs, c: nat)
    requires InChain(c) && fs.fatStart < 65536
    ensures FatSector(fs, c) == fs.fatStart + c / 128 && FatOffset(c) == c % 128 * 4
  {
    assert c * 4 % TWO32 == c * 4;
    FourTimes(c, c / 128, c % 128);
  }

  lemma FourTimes(c: nat, q: nat, r: nat)
    requires c == q * 128 + r && r < 128
    ensures c * 4 / SECTOR_SIZE == q && c * 4 % SECTOR_SIZE == r * 4
  {}

  /** The `k`-th cluster of the chain from `c`. */
  function ClusterAt(fs: Fs, disk: Disk, c: nat, k: nat): nat {
    if k == 0 then c else NextCluster(fs, disk, ClusterAt(fs, disk, c, k - 1))
  }

  function Lba(fs: Fs, c: nat, s: nat): nat
    requires c >= 2
  {
    (fs.dataStart + (c - 2) * fs.spc + s) % TWO32
  }

  /** The data region: cluster 2 comes first, the sectors of a cluster follow one another, and
      so do the clusters. */
  lemma DataLayout(fs: Fs, c: nat, s: nat)
    requires c >= 2
    ensures Lba(fs, 2, 0) == fs.dataStart % TWO32
    ensures Lba(fs, c, s + 1) == (Lba(fs, c, s) + 1) % TWO32
    ensures Lba(fs, c + 1, 0) == Lba(fs, c, fs.spc)
  {
    var x := fs.dataStart + (c - 2) * fs.spc;
    assert (c + 1 - 2) * fs.spc == (c - 2) * fs.spc + fs.spc;
    NextSector(x + s);
  }

  lemma NextSector(x: nat)
    ensures (x + 1) % TWO32 == (x % TWO32 + 1) % TWO32
  {}

  /** Different sectors of the data region are different sectors of the disk, as long as their
      numbers stay below 2^32. */
  lemma SectorsApart(fs: Fs, c: nat, s: nat, d: nat, t: nat)
    requires c >= 2 && d >= 2 && s < fs.spc && t < fs.spc && (c != d || s != t)
    requires fs.dataStart + ((c - 2) * fs.spc + s) < TWO32 && fs.dataStart + ((d - 2) * fs.spc + t) < TWO32
    ensures Lba(fs, c, s) != Lba(fs, d, t)
  {
    var x, y := (c - 2) * fs.spc + s, (d - 2) * fs.spc + t;
    PlacesApart(fs.spc, c - 2, s, d - 2, t, x, y);
    NoWrap(fs, c, s, x);
    NoWrap(fs, d, t, y);
  }

  lemma PlacesApart(spc: nat, a: nat, s: nat, b: nat, t: nat, x: nat, y: nat)
    requires s < spc && t < spc && (a != b || s != t) && x == a * spc + s && y == b * spc + t
    ensures x != y
  {
    Divided(x, spc, a, s);
    Divided(y, spc, b, t);
  }

  lemma NoWrap(fs: Fs, c: nat, s: nat, x: nat)
    requires c >= 2 && x == (c - 2) * fs.spc + s && fs.dataStart + x < TWO32
    ensures Lba(fs, c, s) == fs.dataStart + x
  {
    SmallMod(fs.dataStart + x);
  }

  lemma SmallMod(x: nat)
    requires x < TWO32
    ensures x % TWO32 == x
  {}

  // ---- a file's sectors ----

  datatype File = File(start: nat, size: nat)

  /** The number of sectors a file of `size` bytes needs. */
  function SectorsOf(size: nat): nat { (size + SECTOR_SIZE - 1) / SECTOR_SIZE }

  /** Sector `s` of the `q`-th cluster can be read: the chain is valid that far, within the
      guard's limit, and the disk yields the sector. */
  predicate Readable(fs: Fs, disk: Disk, start: nat, q: nat, s: nat) {
    && q < FILE_GUARD
    && (forall k | 0 <= k <= q :: InChain(ClusterAt(fs, disk, start, k)))
    && disk(Lba(fs, ClusterAt(fs, disk, start, q), s)).Data?
  }

  /** File sector `j` can be read. */
  predicate SectorOk(fs: Fs, disk: Disk, start: nat, j: nat) {
    fs.spc > 0 && Readable(fs, disk, start, j / fs.spc, j % fs.spc)
  }

  /** File sector `j`: sector j % spc of the cluster j / spc places down the chain. */
  function FileSector(fs: Fs, disk: Disk, start: nat, j: nat): Block
    requires SectorOk(fs, disk, start, j)
  {
    disk(Lba(fs, ClusterAt(fs, disk, start, j / fs.spc), j % fs.spc)).bytes
  }

  /** Byte `i` of the file, read off the disk through the chain. */
  function FileByte(fs: Fs, disk: Disk, start: nat, i: nat): Byte
    requires SectorOk(fs, disk, start, i / SECTOR_SIZE)
  {
    FileSector(fs, disk, start, i / SECTOR_SIZE)[i % SECTOR_SIZE]
  }

  /** The first `n` sectors of the file can be read. */
  predicate SectorsOk(fs: Fs, disk: Disk, start: nat, n: nat) {
    forall j | 0 <= j < n :: SectorOk(fs, disk, start, j)
  }

  lemma MulLe(a: nat, b: nat, n: nat)
    requires a <= b
    ensures a * n <= b * n
  {}

  lemma Divided(j: nat, spc: nat, q: nat, s: nat)
    requires spc > 0 && j == q * spc + s && s < spc
    ensures j / spc == q && j % spc == s
  {
    var a, r := j / spc, j % spc;
    assert j == a * spc + r && r < spc;
    if a < q {
      MulLe(a + 1, q, spc);
    } else if q < a {
      MulLe(q + 1, a, spc);
    }
  }

  /** What a successful read means for the first `n` bytes of the buffer. */
  ghost predicate Holds(fs: Fs, disk: Disk, start: nat, bytes: seq<Byte>, n: nat) {
    && n <= |bytes|
    && forall i: nat {:trigger ByteHeld(fs, disk, start, bytes, i)} :: i < n ==> ByteHeld(fs, disk, start, bytes, i)
  }

  /** Byte `i` of the buffer is byte `i` of the file. */
  predicate ByteHeld(fs: Fs, disk: Disk, start: nat, bytes: seq<Byte>, i: nat)
    requires i < |bytes|
  {
    SectorOk(fs, disk, start, i / SECTOR_SIZE) && bytes[i] == FileByte(fs, disk, start, i)
  }

  // ---- reading ----

  function Min(a: nat, b: nat): nat { if a < b then a else b }

  /** Before sector `s` of the `q`-th cluster: all sectors before it are readable and their
      bytes, cut to the file's size, are in the buffer. */
  ghost predicate ReadUpTo(fs: Fs, disk: Disk, file: File, bytes: seq<Byte>, q: nat, s: nat, copied: nat) {
    && q <= FILE_GUARD && s <= fs.spc && file.size <= |bytes|
    && (forall k | 0 <= k < q :: InChain(ClusterAt(fs, disk, file.start, k)))
    && copied <= file.size && (copied == file.size || copied == (q * fs.spc + s) * SECTOR_SIZE)
    && SectorsOk(fs, disk, file.start, SectorsOf(copied))
    && Holds(fs, disk, file.start, bytes, copied)
  }

  /** The whole file can be read. */
  predicate Complete(fs: Fs, disk: Disk, file: File) {
    SectorsOk(fs, disk, file.start, SectorsOf(file.size))
  }

  /** A needed sector that cannot be read means the file cannot. */
  lemma NeededSectorFails(fs: Fs, disk: Disk, file: File, q: nat, s: nat, copied: nat)
    requires copied < file.size && copied == (q * fs.spc + s) * SECTOR_SIZE
    requires fs.spc == 0 || (s < fs.spc && !Readable(fs, disk, file.start, q, s))
    ensures !Complete(fs, disk, file)
  {
    var j := if fs.spc == 0 then 0 else q * fs.spc + s;
    if fs.spc > 0 {
      Divided(j, fs.spc, q, s);
    }
    assert j < SectorsOf(file.size) && !SectorOk(fs, disk, file.start, j);
  }

  /** The buffer after one sector's worth was stored at `copied`. */
  predicate SectorStored(before: seq<Byte>, after: seq<Byte>, copied: nat, take: nat, data: Block) {
    && take <= SECTOR_SIZE && copied + take <= |before| == |after|
    && (forall i | 0 <= i < |before| && !(copied <= i < copied + take) :: after[i] == before[i])
    && (forall i | copied <= i < copied + take :: after[i] == data[i - copied])
  }

  lemma OneSectorMore(fs: Fs, disk: Disk, file: File, before: seq<Byte>, after: seq<Byte>, q: nat, s: nat, copied: nat, take: nat)
    requires ReadUpTo(fs, disk, file, before, q, s, copied) && copied < file.size && s < fs.spc && q < FILE_GUARD
    requires InChain(ClusterAt(fs, disk, file.start, q))
    requires disk(Lba(fs, ClusterAt(fs, disk, file.start, q), s)).Data?
    requires take == Min(file.size - copied, SECTOR_SIZE)
    requires SectorStored(before, after, copied, take, disk(Lba(fs, ClusterAt(fs, disk, file.start, q), s)).bytes)
    ensures ReadUpTo(fs, disk, file, after, q, s + 1, copied + take)
  {
    var j := q * fs.spc + s;
    Divided(j, fs.spc, q, s);
    assert SectorOk(fs, disk, file.start, j);
    SectorsCounted(copied, take, j);
    OneMoreSector(fs, disk, file.start, j);
    HoldsMore(fs, disk, file.start, before, after, copied, take, j);
  }

  lemma OneMoreSector(fs: Fs, disk: Disk, start: nat, j: nat)
    requires SectorsOk(fs, disk, start, j) && SectorOk(fs, disk, start, j)
    ensures SectorsOk(fs, disk, start, j + 1)
  {
    forall i | 0 <= i < j + 1
      ensures SectorOk(fs, disk, start, i)
    {
      assert i == j || SectorOk(fs, disk, start, i);
    }
  }

  lemma SectorsCounted(copied: nat, take: nat, j: nat)
    requires copied == j * SECTOR_SIZE && 0 < take <= SECTOR_SIZE
    ensures SectorsOf(copied) == j && SectorsOf(copied + take) == j + 1
  {}

  lemma InSector(i: nat, j: nat, d: nat)
    requires i == j * SECTOR_SIZE + d && d < SECTOR_SIZE
    ensures i / SECTOR_SIZE == j && i % SECTOR_SIZE == d
  {}

  /** A byte of sector `j` of the file. */
  lemma ByteOfSector(fs: Fs, disk: Disk, start: nat, i: nat, j: nat, d: nat, data: Block)
    requires i == j * SECTOR_SIZE + d && d < SECTOR_SIZE && SectorOk(fs, disk, start, j)
    requires data == FileSector(fs, disk, start, j)
    ensures SectorOk(fs, disk, start, i / SECTOR_SIZE) && FileByte(fs, disk, start, i) == data[d]
  {
    InSector(i, j, d);
  }

  lemma HoldsMore(fs: Fs, disk: Disk, start: nat, before: seq<Byte>, after: seq<Byte>, copied: nat, take: nat, j: nat)
    requires Holds(fs, disk, start, before, copied) && copied == j * SECTOR_SIZE && SectorOk(fs, disk, start, j)
    requires SectorStored(before, after, copied, take, FileSector(fs, disk, start, j))
    ensures Holds(fs, disk, start, after, copied + take)
  {
    var data := FileSector(fs, disk, start, j);
    forall i: nat | i < copied + take
      ensures ByteHeld(fs, disk, start, after, i)
    {
      if i >= copied {
        ByteOfSector(fs, disk, start, i, j, i - copied, data);
      } else {
        assert ByteHeld(fs, disk, start, before, i) && after[i] == before[i];
      }
    }
  }

  /** The copy loop of one sector. */
  method CopySector(buf: array<Byte>, copied: nat, data: Block, take: nat)
    requires take <= SECTOR_SIZE && copied + take <= buf.Length
    modifies buf
    ensures SectorStored(old(buf[..]), buf[..], copied, take, data)
  {
    for b := 0 to take
      invariant forall i | 0 <= i < buf.Length && !(copied <= i < copied + b) :: buf[i] == old(buf[i])
      invariant forall i | copied <= i < copied + b :: buf[i] == data[i - copied]
    {
      buf[copied + b] := data[b];
    }
  }

  /** The sector loop of one cluster: false when a sector cannot be read. */
  method ReadCluster(fs: Fs, disk: Disk, file: File, buf: array<Byte>, cluster: nat, copied0: nat, ghost q: nat)
    returns (ok: bool, copied: nat)
    requires file.size <= buf.Length && copied0 < file.size && InChain(cluster) && cluster == ClusterAt(fs, disk, file.start, q)
    requires ReadUpTo(fs, disk, file, buf[..], q, 0, copied0)
    modifies buf
    ensures copied <= file.size
    ensures !ok || q == FILE_GUARD ==> !Complete(fs, disk, file)
    ensures ok && q < FILE_GUARD ==> ReadUpTo(fs, disk, file, buf[..], q, fs.spc, copied)
    ensures forall i | file.size <= i < buf.Length :: buf[i] == old(buf[i])
  {
    copied := copied0;
    if q == FILE_GUARD {
      NeededSectorFails(fs, disk, file, q, 0, copied);
    }
    var s := 0;
    while s < fs.spc && copied < file.size
      invariant s <= fs.spc && copied <= file.size
      invariant q < FILE_GUARD ==> ReadUpTo(fs, disk, file, buf[..], q, s, copied)
      invariant forall i | file.size <= i < buf.Length :: buf[i] == old(buf[i])
    {
      var sector := disk(Lba(fs, cluster, s));
      if sector.Unreadable? {
        if q < FILE_GUARD {
          NeededSectorFails(fs, disk, file, q, s, copied);
        }
        return false, copied;
      }
      var take := Min(file.size - copied, SECTOR_SIZE);
      ghost var before := buf[..];
      CopySector(buf, copied, sector.bytes, take);
      if q < FILE_GUARD {
        OneSectorMore(fs, disk, file, before, buf[..], q, s, copied, take);
      }
      copied := copied + take;
      s := s + 1;
    }
    ok := true;
    if q < FILE_GUARD {
      FinishCluster(fs, disk, file, buf[..], q, s, copied);
    }
  }

  lemma FinishCluster(fs: Fs, disk: Disk, file: File, bytes: seq<Byte>, q: nat, s: nat, copied: nat)
    requires ReadUpTo(fs, disk, file, bytes, q, s, copied) && (s == fs.spc || copied == file.size)
    ensures ReadUpTo(fs, disk, file, bytes, q, fs.spc, copied)
  {}

  lemma NextClusterUpTo(fs: Fs, disk: Disk, file: File, bytes: seq<Byte>, q: nat, copied: nat)
    requires ReadUpTo(fs, disk, file, bytes, q, fs.spc, copied) && q < FILE_GUARD
    requires InChain(ClusterAt(fs, disk, file.start, q))
    ensures ReadUpTo(fs, disk, file, bytes, q + 1, 0, copied)
  {
    assert q * fs.spc + fs.spc == (q + 1) * fs.spc + 0;
  }

  /** `fat32_read_file`: on every disk it ends, and with a buffer of at least the file's size
      it returns the size exactly when every needed sector is readable along a valid chain of
      at most 1024 clusters; the buffer then holds the file's bytes. */
  method ReadFile(fs: Fs, disk: Disk, file: File, buf: array<Byte>) returns (r: int)
    modifies buf
    ensures r == file.size || r == -1
    ensures r == file.size <==> file.size <= buf.Length && Complete(fs, disk, file)
    ensures r == file.size ==> Holds(fs, disk, file.start, buf[..], file.size)
    ensures r == file.size && fs.spc <= 255 ==> r < 0x8000_0000
    ensures forall i | file.size <= i < buf.Length :: buf[i] == old(buf[i])
  {
    if buf.Length < file.size { return -1; }
    var cluster := file.start;
    var copied: nat := 0;
    var guard: nat := 0;
    while InChain(cluster) && copied < file.size
      invariant guard <= FILE_GUARD && cluster == ClusterAt(fs, disk, file.start, guard)
      invariant ReadUpTo(fs, disk, file, buf[..], guard, 0, copied)
      invariant forall i | file.size <= i < buf.Length :: buf[i] == old(buf[i])
      decreases FILE_GUARD - guard
    {
      var ok;
      ok, copied := ReadCluster(fs, disk, file, buf, cluster, copied, guard);
      if !ok { return -1; }
      if guard < FILE_GUARD {
        NextClusterUpTo(fs, disk, file, buf[..], guard, copied);
      }
      cluster := NextCluster(fs, disk, cluster);
      guard := guard + 1;
      if guard > FILE_GUARD { return -1; }
    }
    if copied != file.size {
      NeededSectorFails(fs, disk, file, guard, 0, copied);
      return -1;
    }
    if fs.spc <= 255 {
      SizeFits(fs, disk, file);
    }
    return copied;
  }

  /** A file that can be read is under 128 MB, so its size is a positive int. */
  lemma SizeFits(fs: Fs, disk: Disk, file: File)
    requires Complete(fs, disk, file) && fs.spc <= 255
    ensures file.size <= FILE_GUARD * 255 * SECTOR_SIZE < 0x8000_0000
  {
    if file.size > 0 {
      var j := SectorsOf(file.size) - 1;
      assert SectorOk(fs, disk, file.start, j);
      QuotientBound(j, fs.spc);
    }
  }

  lemma QuotientBound(j: nat, spc: nat)
    requires 0 < spc <= 255 && j / spc < FILE_GUARD
    ensures j < FILE_GUARD * 255
  {
    var a := j / spc;
    assert j == a * spc + j % spc;
    MulLe(a, FILE_GUARD - 1, spc);
  }
}
