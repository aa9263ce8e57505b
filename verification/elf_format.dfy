/** The layout of an ELF64 file (System V gABI, chapters 4 and 5; kernel/user/elf.h): structs
    as their fields in a row. What the loader reads out of an image is what was put in. */
module ElfFormat {
  import opened Elf
  import opened Packed

  // ---- the file header ----

  datatype Ehdr = Ehdr(magic: nat, class_: nat, ident: nat, kind: nat, machine: nat, version: nat, entry: nat, phoff: nat, shoff: nat,
                       flags: nat, ehsize: nat, phentsize: nat, phnum: nat, shentsize: nat, shnum: nat, shstrndx: nat)

  /** The fields of struct elf64_ehdr in order; e_ident is its magic, its class and the rest. */
  function EhdrFields(h: Ehdr): seq<Field> {
    [Field(h.magic, 4), Field(h.class_, 1), Field(h.ident, 11), Field(h.kind, 2), Field(h.machine, 2), Field(h.version, 4),
     Field(h.entry, 8), Field(h.phoff, 8), Field(h.shoff, 8), Field(h.flags, 4), Field(h.ehsize, 2), Field(h.phentsize, 2),
     Field(h.phnum, 2), Field(h.shentsize, 2), Field(h.shnum, 2), Field(h.shstrndx, 2)]
  }

  lemma EhdrOffsets(fs: seq<Field>, h: Ehdr)
    requires fs == EhdrFields(h)
    ensures Offset(fs, 0) == 0 && Offset(fs, 1) == 4 && Offset(fs, 3) == 16 && Offset(fs, 4) == 18
    ensures Offset(fs, 6) == 24 && Offset(fs, 7) == 32 && Offset(fs, 12) == 56 && Offset(fs, 16) == 64
  {
    assert Offset(fs, 1) == 4;
    assert Offset(fs, 2) == 5;
    assert Offset(fs, 3) == 16;
    assert Offset(fs, 4) == 18;
    assert Offset(fs, 5) == 20;
    assert Offset(fs, 6) == 24;
    assert Offset(fs, 7) == 32;
    assert Offset(fs, 8) == 40;
    assert Offset(fs, 9) == 48;
    assert Offset(fs, 10) == 52;
    assert Offset(fs, 11) == 54;
    assert Offset(fs, 12) == 56;
    assert Offset(fs, 13) == 58;
    assert Offset(fs, 14) == 60;
    assert Offset(fs, 15) == 62;
  }

  /** Four bytes 0x7F 'E' 'L' 'F' are one number. */
  lemma Magic(image: seq<Byte>)
    requires |image| >= 4
    ensures Le(image, 0, 4) == 0x464C_457F <==> image[0] == 0x7F && image[1] == 0x45 && image[2] == 0x4C && image[3] == 0x46
  {
    var a: nat, b: nat, c: nat := image[1], image[2], image[3];
    assert Le(image, 4, 0) == 0;
    assert Le(image, 3, 1) == c;
    assert Le(image, 2, 2) == b + 256 * c;
    assert Le(image, 1, 3) == a + 256 * b + 65536 * c;
  }

  /** A file that starts with a header: the loader accepts it exactly when it is an ELF64
      executable for x86-64, and takes entry point and program headers from it. */
  lemma HeaderIsRead(image: seq<Byte>, h: Ehdr)
    requires (forall k | 0 <= k < 16 :: FieldOk(EhdrFields(h)[k])) && |image| >= 64
    requires image[0..64] == Pack(EhdrFields(h), 16)
    ensures HeaderOk(image) <==> h.magic == 0x464C_457F && h.class_ == 2 && h.kind == 2 && h.machine == 0x3E
    ensures HeaderOk(image) ==> Entry64(image) == h.entry && PhCount(image) == h.phnum
    ensures HeaderOk(image) ==> forall i: nat :: PhOffset(image, i) == h.phoff + 56 * i
  {
    var fs := EhdrFields(h);
    EhdrOffsets(fs, h);
    FieldAt(image, 0, fs, 0, 0);
    FieldAt(image, 0, fs, 1, 4);
    FieldAt(image, 0, fs, 3, 16);
    FieldAt(image, 0, fs, 4, 18);
    FieldAt(image, 0, fs, 6, 24);
    FieldAt(image, 0, fs, 7, 32);
    FieldAt(image, 0, fs, 12, 56);
    Magic(image);
    assert Le(image, 5, 0) == 0;
    assert Le(image, 4, 1) == image[4];
  }

  // ---- program headers ----

  datatype Phdr = Phdr(kind: nat, flags: nat, offset: nat, vaddr: nat, paddr: nat, filesz: nat, memsz: nat, align: nat)

  /** The fields of struct elf64_phdr in order. */
  function PhdrFields(p: Phdr): seq<Field> {
    [Field(p.kind, 4), Field(p.flags, 4), Field(p.offset, 8), Field(p.vaddr, 8), Field(p.paddr, 8), Field(p.filesz, 8),
     Field(p.memsz, 8), Field(p.align, 8)]
  }

  lemma PhdrOffsets(fs: seq<Field>, p: Phdr)
    requires fs == PhdrFields(p)
    ensures Offset(fs, 0) == 0 && Offset(fs, 2) == 8 && Offset(fs, 3) == 16 && Offset(fs, 5) == 32 && Offset(fs, 6) == 40
    ensures Offset(fs, 8) == 56
  {
    assert Offset(fs, 1) == 4;
    assert Offset(fs, 2) == 8;
    assert Offset(fs, 3) == 16;
    assert Offset(fs, 4) == 24;
    assert Offset(fs, 5) == 32;
    assert Offset(fs, 6) == 40;
    assert Offset(fs, 7) == 48;
  }

  /** A program header at its place in the table is the segment the loader sees: PT_LOAD is
      kind 1, and offset, address and sizes are those of the header. */
  lemma SegmentIsRead(image: seq<Byte>, i: nat, p: Phdr, at: nat)
    requires HeaderOk(image) && HeadersInside(image) && i < PhCount(image) && at == PhOffset(image, i)
    requires forall k | 0 <= k < 8 :: FieldOk(PhdrFields(p)[k])
    requires at + 56 <= |image| && image[at..at + 56] == Pack(PhdrFields(p), 8)
    ensures Segments(image)[i] == Segment(p.kind == 1, p.offset, p.vaddr, p.filesz, p.memsz)
  {
    var fs := PhdrFields(p);
    PhdrOffsets(fs, p);
    FieldAt(image, at, fs, 0, at);
    FieldAt(image, at, fs, 2, at + 8);
    FieldAt(image, at, fs, 3, at + 16);
    FieldAt(image, at, fs, 5, at + 32);
    FieldAt(image, at, fs, 6, at + 40);
  }
}
