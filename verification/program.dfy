/** A program that has just been spawned, seen through the write system call. */
module Program {
  import opened Elf
  import opened Lifecycle
  import opened Paging
  import opened Syscall
  import opened Vmm

  /** The `n` bytes from offset `from` on of a segment, as the file has them. */
  function FileBytes(image: seq<Elf.Byte>, s: Segment, from: nat, n: nat): (bytes: seq<Elf.Byte>)
    requires s.load && SegmentOk(image, s) && from + n <= s.memsz
    ensures |bytes| == n && forall j | 0 <= j < n :: bytes[j] == SegmentByte(image, s, from + j)
  {
    if n == 0 then [] else FileBytes(image, s, from, n - 1) + [SegmentByte(image, s, from + n - 1)]
  }

  lemma FileBytesAre(image: seq<Elf.Byte>, s: Segment, from: nat, n: nat)
    requires s.load && SegmentOk(image, s) && from + n <= s.memsz
    ensures forall j | 0 <= j < n :: FileBytes(image, s, from, n)[j] == if from + j < s.filesz then image[s.offset + (from + j)] else 0
  {}

  /** A byte of a segment outside the stack page is accessible and reads as in the file. */
  lemma SegmentReads(mem: Memory, ram: Ram, r: nat, image: seq<Elf.Byte>, i: nat, b: nat, v: nat)
    requires Loadable(image) && HeaderOk(image) && InMemory(mem, ram, r, image) && DisjointSegments(Segments(image))
    requires i < PhCount(image) && Segments(image)[i].load && b < Segments(image)[i].memsz
    requires v == Segments(image)[i].vaddr + b && OffStack(v)
    ensures Accessible(mem, r, v, true)
    ensures ShowsByte(UserView(mem, ram, r), image, Segments(image)[i], b, v)
  {
    var segs := Segments(image);
    ByteOfSegment(image, segs, PhCount(image), i, v);
    UserPage(v);
    assert ReadsAs(mem, ram, r, v, ByteAt(image, segs, PhCount(image), v));
  }

  /** The bytes from offset `from` on of segment `i`, in a spawned program and off its stack page. */
  ghost predicate PartOf(mem: Memory, ram: Ram, r: nat, image: seq<Elf.Byte>, i: nat, from: nat, n: nat, va: nat) {
    && Loadable(image) && HeaderOk(image) && InMemory(mem, ram, r, image) && DisjointSegments(Segments(image))
    && i < PhCount(image) && Segments(image)[i].load && from + n <= Segments(image)[i].memsz
    && va == Segments(image)[i].vaddr + from
    && forall v: nat | va <= v < va + n :: OffStack(v)
  }

  /** A program may read and write its segments: they pass the user range check. */
  lemma SegmentIsUserRange(mem: Memory, ram: Ram, r: nat, image: seq<Elf.Byte>, i: nat, from: nat, n: nat, va: nat, write: bool)
    requires PartOf(mem, ram, r, image, i, from, n, va)
    ensures UserRange(mem, r, va, n, write)
  {
    forall v: nat | va <= v < va + n
      ensures Accessible(mem, r, v, write)
    {
      SegmentReads(mem, ram, r, image, i, v - Segments(image)[i].vaddr, v);
    }
  }

  /** What the write system call prints of a segment is the file. */
  lemma SegmentIsPrinted(mem: Memory, ram: Ram, r: nat, image: seq<Elf.Byte>, i: nat, from: nat, n: nat, va: nat)
    requires PartOf(mem, ram, r, image, i, from, n, va)
    ensures Stretch(UserView(mem, ram, r), va, n) == FileBytes(image, Segments(image)[i], from, n)
    ensures forall j | 0 <= j < n ::
              var s, b := Segments(image)[i], from + j;
              Stretch(UserView(mem, ram, r), va, n)[j] == if b < s.filesz then image[s.offset + b] else 0
  {
    var s := Segments(image)[i];
    FileBytesAre(image, s, from, n);
    forall b, v: nat | from <= b < from + n && v == s.vaddr + b
      ensures ShowsByte(UserView(mem, ram, r), image, s, b, v)
    {
      assert OffStack(v);
      SegmentReads(mem, ram, r, image, i, b, v);
    }
    StretchIsFile(UserView(mem, ram, r), va, n, image, s, from);
  }

  predicate ShowsByte(view: nat -> Elf.Byte, image: seq<Elf.Byte>, s: Segment, b: nat, v: nat)
    requires s.load && SegmentOk(image, s) && b < s.memsz
  {
    view(v) == SegmentByte(image, s, b)
  }

  lemma {:induction false} StretchIsFile(view: nat -> Elf.Byte, va: nat, n: nat, image: seq<Elf.Byte>, s: Segment, from: nat)
    requires s.load && SegmentOk(image, s) && from + n <= s.memsz && va == s.vaddr + from
    requires forall b, v: nat | from <= b < from + n && v == s.vaddr + b :: ShowsByte(view, image, s, b, v)
    ensures Stretch(view, va, n) == FileBytes(image, s, from, n)
    decreases n
  {
    if n > 0 {
      StretchIsFile(view, va, n - 1, image, s, from);
      var b, v := from + n - 1, va + n - 1;
      assert ShowsByte(view, image, s, b, v);
      StretchNext(view, va, n - 1, v);
    }
  }
}
