/** The on-disk structs of FAT32 (kernel/fs/fat32.h; Microsoft FAT specification, sections 3, 4
    and 6): what the driver reads out of a sector is what was put in. */
module Fat32Format {
  import opened Fat32
  import opened Fat32Dir
  import opened Fat32Names
  import opened Packed

  lemma Le16Is(s: Block, o: nat)
    requires o + 2 <= SECTOR_SIZE
    ensures Le16(s, o) == Le(s, o, 2)
  {
    assert Le(s, o + 2, 0) == 0;
    assert Le(s, o + 1, 1) == s[o + 1];
  }

  lemma Le32Is(s: Block, o: nat)
    requires o + 4 <= SECTOR_SIZE
    ensures Le32(s, o) == Le(s, o, 4)
  {
    var b: nat, c: nat, d: nat := s[o + 1], s[o + 2], s[o + 3];
    assert Le(s, o + 4, 0) == 0;
    assert Le(s, o + 3, 1) == d;
    assert Le(s, o + 2, 2) == c + 256 * d;
    assert Le(s, o + 1, 3) == b + 256 * c + 65536 * d;
  }

  // ---- the boot sector ----

  datatype Bpb = Bpb(jmp: nat, oem: nat, sectorBytes: nat, spc: nat, reserved: nat, fats: nat, rootEntries: nat, total16: nat,
                     media: nat, fatSize16: nat, track: nat, heads: nat, hidden: nat, total32: nat, fatSize32: nat, flags: nat,
                     version: nat, root: nat)

  /** The fields of struct fat32_bpb in order, up to the root cluster. */
  function BpbFields(h: Bpb): seq<Field> {
    [Field(h.jmp, 3), Field(h.oem, 8), Field(h.sectorBytes, 2), Field(h.spc, 1), Field(h.reserved, 2), Field(h.fats, 1),
     Field(h.rootEntries, 2), Field(h.total16, 2), Field(h.media, 1), Field(h.fatSize16, 2), Field(h.track, 2), Field(h.heads, 2),
     Field(h.hidden, 4), Field(h.total32, 4), Field(h.fatSize32, 4), Field(h.flags, 2), Field(h.version, 2), Field(h.root, 4)]
  }

  lemma BpbOffsets(fs: seq<Field>, h: Bpb)
    requires fs == BpbFields(h)
    ensures Offset(fs, 2) == 11 && Offset(fs, 3) == 13 && Offset(fs, 4) == 14 && Offset(fs, 5) == 16 && Offset(fs, 6) == 17
    ensures Offset(fs, 9) == 22 && Offset(fs, 14) == 36 && Offset(fs, 17) == 44 && Offset(fs, 18) == 48
  {
    assert Offset(fs, 1) == 3;
    assert Offset(fs, 2) == 11;
    assert Offset(fs, 3) == 13;
    assert Offset(fs, 4) == 14;
    assert Offset(fs, 5) == 16;
    assert Offset(fs, 6) == 17;
    assert Offset(fs, 7) == 19;
    assert Offset(fs, 8) == 21;
    assert Offset(fs, 9) == 22;
    assert Offset(fs, 10) == 24;
    assert Offset(fs, 11) == 26;
    assert Offset(fs, 12) == 28;
    assert Offset(fs, 13) == 32;
    assert Offset(fs, 14) == 36;
    assert Offset(fs, 15) == 40;
    assert Offset(fs, 16) == 42;
    assert Offset(fs, 17) == 44;
  }

  /** A boot sector: it is taken for FAT32 exactly when it has the signature, no FAT16 fields and
      512-byte sectors; and the geometry is that of its fields. */
  lemma BootSectorIsRead(s: Block, h: Bpb)
    requires (forall k | 0 <= k < 18 :: FieldOk(BpbFields(h)[k])) && s[0..48] == Pack(BpbFields(h), 18)
    ensures IsFat32(s) <==> s[510] == 0x55 && s[511] == 0xAA && h.rootEntries == 0 && h.fatSize16 == 0 && h.sectorBytes == 512
    ensures s[13] == h.spc && Le16(s, 14) == h.reserved && Le32(s, 44) == h.root
    ensures FatEnd(s) == h.reserved + h.fats * h.fatSize32
  {
    var fs := BpbFields(h);
    BpbOffsets(fs, h);
    FieldAt(s, 0, fs, 2, 11);
    FieldAt(s, 0, fs, 3, 13);
    FieldAt(s, 0, fs, 4, 14);
    FieldAt(s, 0, fs, 5, 16);
    FieldAt(s, 0, fs, 6, 17);
    FieldAt(s, 0, fs, 9, 22);
    FieldAt(s, 0, fs, 14, 36);
    FieldAt(s, 0, fs, 17, 44);
    OneByteNumber(s, 13);
    OneByteNumber(s, 16);
    Le16Is(s, 11);
    Le16Is(s, 14);
    Le16Is(s, 17);
    Le16Is(s, 22);
    Le32Is(s, 36);
    Le32Is(s, 44);
  }

  lemma OneByteNumber(s: seq<Byte>, o: nat)
    requires o < |s|
    ensures Le(s, o, 1) == s[o]
  {
    assert Le(s, o + 1, 0) == 0;
  }

  // ---- the FAT ----

  /** The entry of a cluster: 128 to a sector, four bytes each, of which 28 bits count. */
  lemma FatEntryIsRead(fs: Fs, disk: Disk, c: nat, value: nat, at: nat)
    requires InChain(c) && fs.fatStart < 65536 && at == c % 128 * 4 && value < Power(4)
    requires disk(fs.fatStart + c / 128).Data? && disk(fs.fatStart + c / 128).bytes[at..at + 4] == Encode(value, 4)
    ensures NextCluster(fs, disk, c) == value % 0x1000_0000
  {
    EntryPlace(fs, c);
    var s := disk(fs.fatStart + c / 128).bytes;
    LeEncode(s, at, value, 4);
    Le32Is(s, at);
  }

  // ---- directory entries ----

  datatype Dirent = Dirent(attr: nat, nt: nat, tenth: nat, ctime: nat, cdate: nat, adate: nat, hi: nat, wtime: nat, wdate: nat, lo: nat, size: nat)

  /** The fields of struct fat32_dirent after the name, in order. */
  function DirentFields(d: Dirent): seq<Field> {
    [Field(d.attr, 1), Field(d.nt, 1), Field(d.tenth, 1), Field(d.ctime, 2), Field(d.cdate, 2), Field(d.adate, 2), Field(d.hi, 2),
     Field(d.wtime, 2), Field(d.wdate, 2), Field(d.lo, 2), Field(d.size, 4)]
  }

  lemma DirentOffsets(fs: seq<Field>, d: Dirent)
    requires fs == DirentFields(d)
    ensures Offset(fs, 0) == 0 && Offset(fs, 6) == 9 && Offset(fs, 9) == 15 && Offset(fs, 10) == 17 && Offset(fs, 11) == 21
  {
    assert Offset(fs, 1) == 1;
    assert Offset(fs, 2) == 2;
    assert Offset(fs, 3) == 3;
    assert Offset(fs, 4) == 5;
    assert Offset(fs, 5) == 7;
    assert Offset(fs, 6) == 9;
    assert Offset(fs, 7) == 11;
    assert Offset(fs, 8) == 13;
    assert Offset(fs, 9) == 15;
    assert Offset(fs, 10) == 17;
  }

  /** What an entry shows: its name as printed, its start cluster from two words, its size, and
      the directory bit. The first byte 0 ends the directory; 0xE5, a long-name fragment and
      the volume label are passed over. */
  lemma DirentIsRead(b: Block, i: nat, at: nat, name: seq<Byte>, d: Dirent)
    requires i < ENTRIES && at == 32 * i + 11 && |name| == 11 && (forall k | 0 <= k < 11 :: FieldOk(DirentFields(d)[k]))
    requires b[32 * i..32 * i + 11] == name && b[at..at + 21] == Pack(DirentFields(d), 11)
    ensures EntryAt(b, i) ==
            if name[0] == 0 then EndOfDirectory
            else if name[0] == 0xE5 || d.attr == 0x0F || d.attr / 8 % 2 == 1 then Skipped
            else Shown(Line(CStr(Formatted(name)), 65536 * d.hi + d.lo, d.size, d.attr / 16 % 2 == 1))
  {
    var fs := DirentFields(d);
    DirentOffsets(fs, d);
    FieldAt(b, at, fs, 0, at);
    FieldAt(b, at, fs, 6, at + 9);
    FieldAt(b, at, fs, 9, at + 15);
    FieldAt(b, at, fs, 10, at + 17);
    OneByteNumber(b, at);
    Le16Is(b, at + 9);
    Le16Is(b, at + 15);
    Le32Is(b, at + 17);
    assert name[0] == b[32 * i];
  }
}
