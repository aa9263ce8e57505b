/** The physical frame allocator (kernel/mm/pmm.c): a bitmap with one bit per
    4 KB frame, an exact counter of set bits, first-fit single and contiguous
    allocation, and the boot-time construction of the bitmap. */
module Pmm {

  const FRAME_SIZE: nat := 4096

  // ---- the bitmap ----

  const MASKS: seq<bv8> := [0x01, 0x02, 0x04, 0x08, 0x10, 0x20, 0x40, 0x80]

  /** `1 << k` in a byte. */
  function Mask(k: nat): bv8
    requires k < 8
  {
    MASKS[k]
  }

  function SetBit(b: bv8, k: nat): bv8
    requires k < 8
  {
    b | Mask(k)
  }

  function ClearBit(b: bv8, k: nat): bv8
    requires k < 8
  {
    b & !Mask(k)
  }

  predicate TestBit(b: bv8, k: nat)
    requires k < 8
  {
    b & Mask(k) != 0
  }

  lemma MasksDiffer(k: nat, j: nat)
    requires k < 8 && j < 8
    ensures Mask(k) != 0
    ensures j != k ==> Mask(k) & Mask(j) == 0
  {}

  lemma OneBit(b: bv8, m: bv8, n: bv8)
    requires m != 0
    ensures n == m ==> (b | m) & n != 0 && (b & !m) & n == 0
    ensures m & n == 0 ==> (b | m) & n == b & n && (b & !m) & n == b & n
  {}

  lemma ByteWrite(b: bv8, k: nat, j: nat)
    requires k < 8 && j < 8
    ensures TestBit(SetBit(b, k), j) == (j == k || TestBit(b, j))
    ensures TestBit(ClearBit(b, k), j) == (j != k && TestBit(b, j))
  {
    MasksDiffer(k, j);
    OneBit(b, Mask(k), Mask(j));
  }

  /** Bit `f % 8` of byte `f / 8`. */
  predicate Bit(bytes: seq<bv8>, f: nat)
    requires f / 8 < |bytes|
  {
    var b := bytes[f / 8];
    TestBit(b, f % 8)
  }

  /** Writing bit `f % 8` of byte `f / 8` changes the bit of frame `f` and of no other frame. */
  lemma BitWrite(bytes: seq<bv8>, f: nat, g: nat)
    requires f / 8 < |bytes| && g / 8 < |bytes|
    ensures Bit(bytes[f / 8 := SetBit(bytes[f / 8], f % 8)], g) == (g == f || Bit(bytes, g))
    ensures Bit(bytes[f / 8 := ClearBit(bytes[f / 8], f % 8)], g) == (g != f && Bit(bytes, g))
  {
    var b := bytes[f / 8];
    var c, d := SetBit(b, f % 8), ClearBit(b, f % 8);
    var m, n := bytes[f / 8 := c], bytes[f / 8 := d];
    if f / 8 == g / 8 {
      ByteWrite(b, f % 8, g % 8);
      assert m[g / 8] == c && n[g / 8] == d;
    } else {
      assert m[g / 8] == bytes[g / 8] == n[g / 8];
    }
    assert f == g <==> f / 8 == g / 8 && f % 8 == g % 8;
  }

  /** Marks the frames a bitmap is asked about. */
  predicate Frame(f: nat) { true }

  /** The bits below `total` are set exactly for the frames in `used`. */
  ghost predicate Represents(bytes: seq<bv8>, total: nat, used: set<nat>) {
    && total <= 8 * |bytes|
    && (forall f: nat {:trigger Frame(f)} :: Frame(f) && f < total ==> (f in used <==> Bit(bytes, f)))
    && (forall f | f in used :: f < total)
  }

  lemma {:induction false} RepresentsSet(bytes: seq<bv8>, total: nat, used: set<nat>, f: nat)
    requires Represents(bytes, total, used) && f < total
    ensures Represents(bytes[f / 8 := SetBit(bytes[f / 8], f % 8)], total, used + {f})
    ensures Represents(bytes[f / 8 := ClearBit(bytes[f / 8], f % 8)], total, used - {f})
  {
    forall g: nat | Frame(g) && g < total
      ensures Bit(bytes[f / 8 := SetBit(bytes[f / 8], f % 8)], g) == (g in used + {f})
      ensures Bit(bytes[f / 8 := ClearBit(bytes[f / 8], f % 8)], g) == (g in used - {f})
    {
      BitWrite(bytes, f, g);
    }
  }

  // ---- the allocator's policy on the set of used frames ----

  predicate IsFree(used: set<nat>, total: nat, f: nat) {
    f < total && f !in used
  }

  /** `count` consecutive free frames start at `first`. */
  predicate FreeRun(used: set<nat>, total: nat, first: nat, count: nat) {
    forall f :: first <= f < first + count ==> IsFree(used, total, f)
  }

  /** `first` is the lowest start, above frame 0, of a free run of `count` frames. */
  ghost predicate LowestRun(used: set<nat>, total: nat, first: nat, count: nat) {
    && 1 <= first
    && FreeRun(used, total, first, count)
    && forall g :: 1 <= g < first ==> !FreeRun(used, total, g, count)
  }

  /** The lowest free frame is the lowest free run of length 1. */
  lemma LowestIsRun(used: set<nat>, total: nat, i: nat)
    requires 1 <= i && IsFree(used, total, i)
    requires forall f :: 1 <= f < i ==> f in used
    ensures LowestRun(used, total, i, 1)
  {
    forall g | 1 <= g < i
      ensures !FreeRun(used, total, g, 1)
    {
      assert !IsFree(used, total, g);
    }
  }

  /** What the contiguous scan knows before looking at frame `i`: the last `run`
      frames are free, the one before them is not, and no run of `count` ended yet. */
  ghost predicate Scanned(used: set<nat>, total: nat, i: nat, run: nat, count: nat) {
    && run < i <= total
    && run < count
    && FreeRun(used, total, i - run, run)
    && (i - run == 1 || i - run - 1 in used)
    && forall g: nat :: 1 <= g && g + count <= i ==> !FreeRun(used, total, g, count)
  }

  lemma ScanUsed(used: set<nat>, total: nat, i: nat, run: nat, count: nat)
    requires Scanned(used, total, i, run, count) && i in used && i < total
    ensures Scanned(used, total, i + 1, 0, count)
  {
    assert !IsFree(used, total, i);
  }

  lemma ScanFree(used: set<nat>, total: nat, i: nat, run: nat, count: nat)
    requires Scanned(used, total, i, run, count) && IsFree(used, total, i)
    ensures run + 1 < count ==> Scanned(used, total, i + 1, run + 1, count)
    ensures run + 1 == count ==> LowestRun(used, total, i - run, count)
  {
    forall g: nat | 1 <= g && g + count == i + 1 && run + 1 < count
      ensures !FreeRun(used, total, g, count)
    {
      assert !IsFree(used, total, i - run - 1);
    }
  }

  lemma ScanDone(used: set<nat>, total: nat, run: nat, count: nat)
    requires Scanned(used, total, total, run, count)
    ensures forall g: nat :: 1 <= g ==> !FreeRun(used, total, g, count)
  {
    forall g: nat | 1 <= g && total < g + count
      ensures !FreeRun(used, total, g, count)
    {
      assert !IsFree(used, total, g + count - 1);
    }
  }

  lemma NothingToScan(used: set<nat>, total: nat, count: nat)
    requires total <= 1 && count != 0
    ensures forall g: nat :: 1 <= g ==> !FreeRun(used, total, g, count)
  {
    forall g: nat | 1 <= g
      ensures !FreeRun(used, total, g, count)
    {
      assert !IsFree(used, total, g);
    }
  }

  function Frames(first: nat, count: nat): (s: set<nat>)
    ensures forall f :: f in s <==> first <= f < first + count
  {
    if count == 0 then {} else Frames(first, count - 1) + {first + count - 1}
  }

  // ---- the allocator object ----

  function AlignUp(x: nat): (r: nat)
    ensures r % FRAME_SIZE == 0 && x <= r < x + FRAME_SIZE
  {
    (x + FRAME_SIZE - 1) / FRAME_SIZE * FRAME_SIZE
  }

  datatype Region = Region(base: nat, length: nat, available: bool)

  /** Frame `f` lies wholly inside region `m`. */
  predicate InRegion(m: Region, f: nat) {
    m.available && m.base <= f * FRAME_SIZE && (f + 1) * FRAME_SIZE <= m.base + m.length
  }

  /** Some byte of frame `f` belongs to [start, end). */
  predicate Touches(start: nat, end: nat, f: nat) {
    start < (f + 1) * FRAME_SIZE && f * FRAME_SIZE < end
  }

  ghost predicate InSomeRegion(regions: seq<Region>, f: nat) {
    exists j :: 0 <= j < |regions| && InRegion(regions[j], f)
  }

  /** The byte just past the highest available region. */
  function TopOfRam(regions: seq<Region>): (top: nat)
    ensures forall j | 0 <= j < |regions| && regions[j].available :: regions[j].base + regions[j].length <= top
    ensures top == 0 || exists j | 0 <= j < |regions| :: regions[j].available && regions[j].base + regions[j].length == top
  {
    if |regions| == 0 then 0
    else
      var m := regions[|regions| - 1];
      var rest := TopOfRam(regions[..|regions| - 1]);
      if m.available && m.base + m.length > rest then m.base + m.length else rest
  }

  method HighestAddress(regions: seq<Region>) returns (maxAddr: nat)
    ensures maxAddr == TopOfRam(regions)
  {
    maxAddr := 0;
    for i := 0 to |regions|
      invariant maxAddr == TopOfRam(regions[..i])
    {
      assert regions[..i + 1][..i] == regions[..i];
      var m := regions[i];
      if m.available && m.base + m.length > maxAddr {
        maxAddr := m.base + m.length;
      }
    }
    assert regions[..|regions|] == regions;
  }

  /** Something occupies part of a bitmap of `size` bytes placed at `at`. */
  predicate Blocked(at: nat, size: nat, mb2Start: nat, mb2End: nat, modStart: nat, modEnd: nat) {
    || (mb2End > at && mb2Start < at + size)
    || (modEnd != 0 && modEnd > at && modStart < at + size)
  }

  /** `start` is the lowest frame-aligned address past the kernel at which the bitmap fits. */
  ghost predicate PlacedAt(start: nat, kernelEnd: nat, size: nat, mb2Start: nat, mb2End: nat, modStart: nat, modEnd: nat) {
    && start % FRAME_SIZE == 0 && kernelEnd <= start
    && !Blocked(start, size, mb2Start, mb2End, modStart, modEnd)
    && LowestSoFar(start, kernelEnd, size, mb2Start, mb2End, modStart, modEnd)
  }

  /** No aligned address between the kernel and `start` would do. */
  ghost predicate LowestSoFar(start: nat, kernelEnd: nat, size: nat, mb2Start: nat, mb2End: nat, modStart: nat, modEnd: nat) {
    forall s: nat :: s % FRAME_SIZE == 0 && kernelEnd <= s < start
      ==> Blocked(s, size, mb2Start, mb2End, modStart, modEnd)
  }

  /** The placement fixpoint: the lowest frame-aligned address past the kernel
      at which the bitmap meets neither the boot information nor the module. */
  method PlaceBitmap(kernelEnd: nat, size: nat, mb2Start: nat, mb2End: nat, modStart: nat, modEnd: nat)
    returns (start: nat)
    ensures PlacedAt(start, kernelEnd, size, mb2Start, mb2End, modStart, modEnd)
    ensures forall a: nat :: Address(a) && start <= a < start + size ==>
              kernelEnd <= a && !(mb2Start <= a < mb2End) && !(modEnd != 0 && modStart <= a < modEnd)
    ensures size > 0 && mb2Start < mb2End && (modEnd != 0 ==> modStart < modEnd) ==>
              forall s: nat :: Address(s) && s % FRAME_SIZE == 0 && kernelEnd <= s < start ==>
                exists a: nat :: Address(a) && s <= a < s + size && ((mb2Start <= a < mb2End) || (modEnd != 0 && modStart <= a < modEnd))
  {
    start := AlignUp(kernelEnd);
    AlignedBelow(kernelEnd);
    var moved := true;
    while moved
      invariant start % FRAME_SIZE == 0 && kernelEnd <= start
      invariant !moved ==> !Blocked(start, size, mb2Start, mb2End, modStart, modEnd)
      invariant LowestSoFar(start, kernelEnd, size, mb2Start, mb2End, modStart, modEnd)
      decreases if mb2End > start then mb2End - start else 0, if modEnd > start then modEnd - start else 0, moved
    {
      moved := false;
      if mb2End > start && mb2Start < start + size {
        AlignedBelow(mb2End);
        start := AlignUp(mb2End);
        moved := true;
      }
      if modEnd != 0 && modEnd > start && modStart < start + size {
        AlignedBelow(modEnd);
        start := AlignUp(modEnd);
        moved := true;
      }
    }
    PlacedBytes(start, kernelEnd, size, mb2Start, mb2End, modStart, modEnd);
  }

  /** Every number is an address; quantifiers over addresses hang on the name. */
  predicate Address(a: nat) { true }

  /** Placement in terms of bytes: no byte of the bitmap belongs to the kernel, the boot
      information or the module; and at any lower place some byte would. */
  lemma PlacedBytes(start: nat, kernelEnd: nat, size: nat, mb2Start: nat, mb2End: nat, modStart: nat, modEnd: nat)
    requires PlacedAt(start, kernelEnd, size, mb2Start, mb2End, modStart, modEnd)
    ensures forall a: nat :: Address(a) && start <= a < start + size ==>
              kernelEnd <= a && !(mb2Start <= a < mb2End) && !(modEnd != 0 && modStart <= a < modEnd)
    ensures size > 0 && mb2Start < mb2End && (modEnd != 0 ==> modStart < modEnd) ==>
              forall s: nat :: Address(s) && s % FRAME_SIZE == 0 && kernelEnd <= s < start ==>
                exists a: nat :: Address(a) && s <= a < s + size && ((mb2Start <= a < mb2End) || (modEnd != 0 && modStart <= a < modEnd))
  {
    if size > 0 && mb2Start < mb2End && (modEnd != 0 ==> modStart < modEnd) {
      forall s: nat | Address(s) && s % FRAME_SIZE == 0 && kernelEnd <= s < start
        ensures exists a: nat :: Address(a) && s <= a < s + size && ((mb2Start <= a < mb2End) || (modEnd != 0 && modStart <= a < modEnd))
      {
        assert Blocked(s, size, mb2Start, mb2End, modStart, modEnd);
        var first := if mb2End > s && mb2Start < s + size then mb2Start else modStart;
        var a := if first < s then s else first;
        assert Address(a);
      }
    }
  }

  /** A frame is in a region when all its bytes are. */
  lemma InRegionBytes(m: Region, f: nat)
    ensures InRegion(m, f) <==> m.available && forall a: nat :: Address(a) && a / FRAME_SIZE == f ==> m.base <= a < m.base + m.length
  {
    var first, last := f * FRAME_SIZE, f * FRAME_SIZE + FRAME_SIZE - 1;
    assert Address(first) && Address(last);
    assert first / FRAME_SIZE == f && last / FRAME_SIZE == f;
  }

  /** A byte range touches a frame when some of its bytes lie there. */
  lemma TouchesBytes(start: nat, end: nat, f: nat)
    requires start < end
    ensures Touches(start, end, f) <==> exists a: nat :: Address(a) && start <= a < end && a / FRAME_SIZE == f
  {
    if Touches(start, end, f) {
      var a := if start < f * FRAME_SIZE then f * FRAME_SIZE else start;
      assert Address(a) && start <= a < end && a / FRAME_SIZE == f;
    }
  }

  /** An aligned address below the aligned-up end of something is below its end. */
  lemma AlignedBelow(x: nat)
    ensures forall s: nat :: s % FRAME_SIZE == 0 && s < AlignUp(x) ==> s < x
  {}

  /** One bit for every frame, in whole bytes. */
  function BitmapSize(regions: seq<Region>): (n: nat)
    ensures TopOfRam(regions) / FRAME_SIZE <= 8 * n < TopOfRam(regions) / FRAME_SIZE + 8
  {
    (TopOfRam(regions) / FRAME_SIZE + 7) / 8
  }

  lemma {:induction false} FramesSize(first: nat, count: nat)
    ensures |Frames(first, count)| == count
  {
    if count != 0 {
      FramesSize(first, count - 1);
    }
  }

  lemma AllSet(bytes: seq<bv8>, total: nat)
    requires total <= 8 * |bytes| && forall j :: 0 <= j < |bytes| ==> bytes[j] == 0xFF
    ensures Represents(bytes, total, Frames(0, total))
  {
    forall f: nat | f < total
      ensures Bit(bytes, f)
    {
      MasksDiffer(f % 8, f % 8);
      FullByte(Mask(f % 8));
      assert bytes[f / 8] == 0xFF;
    }
  }

  lemma FullByte(m: bv8)
    ensures 0xFF & m == m
  {}

  lemma FrameAddress(f: nat)
    ensures f * FRAME_SIZE / FRAME_SIZE == f && f * FRAME_SIZE % FRAME_SIZE == 0
  {}

  class FrameAllocator {
    const bitmap: array<bv8>
    const totalFrames: nat
    var usedFrames: nat

    const bitmapStart: nat

    /** The frames marked used: the abstract value of the bitmap. */
    ghost var used: set<nat>

    ghost predicate Valid()
      reads this, bitmap
    {
      Represents(bitmap[..], totalFrames, used) && usedFrames == |used|
    }

    ghost function FreeCount(): (n: int)
      reads this
    {
      totalFrames - |used|
    }

    /** `pmm_init` from the parsed memory map on: exactly the frames that lie wholly
        in available memory, past the bitmap and off the boot module end up free. */
    constructor (regions: seq<Region>, kernelEnd: nat, mb2Start: nat, mb2End: nat, modStart: nat, modEnd: nat)
      requires FRAME_SIZE <= TopOfRam(regions) && modEnd <= TopOfRam(regions) / FRAME_SIZE * FRAME_SIZE
      requires forall s: nat ::
                 PlacedAt(s, kernelEnd, BitmapSize(regions), mb2Start, mb2End, modStart, modEnd)
                 ==> AlignUp(s + BitmapSize(regions)) <= TopOfRam(regions) / FRAME_SIZE * FRAME_SIZE
      ensures Valid() && fresh(bitmap)
      ensures totalFrames == TopOfRam(regions) / FRAME_SIZE && bitmap.Length == BitmapSize(regions)
      ensures PlacedAt(bitmapStart, kernelEnd, bitmap.Length, mb2Start, mb2End, modStart, modEnd)
      ensures forall a: nat :: Address(a) && bitmapStart <= a < bitmapStart + bitmap.Length ==>
                kernelEnd <= a && !(mb2Start <= a < mb2End) && !(modEnd != 0 && modStart <= a < modEnd)
      ensures forall f: nat :: f < totalFrames ==>
                (f !in used <==>
                  && InSomeRegion(regions, f)
                  && AlignUp(bitmapStart + bitmap.Length) <= f * FRAME_SIZE
                  && !(modEnd != 0 && Touches(modStart, modEnd, f)))
    {
      var maxAddr := HighestAddress(regions);
      var total := maxAddr / FRAME_SIZE;
      totalFrames := total;
      var size := (total + 7) / 8;
      var start := PlaceBitmap(kernelEnd, size, mb2Start, mb2End, modStart, modEnd);
      bitmapStart := start;
      bitmap := new bv8[size];
      assert size == BitmapSize(regions);
      new;
      Populate(regions, AlignUp(start + size), modStart, modEnd);
    }

    /** The bits of a fresh bitmap: all used, then free the available regions, then
        reserve low memory up to `reserveEnd` and the boot module. */
    method Populate(regions: seq<Region>, reserveEnd: nat, modStart: nat, modEnd: nat)
      requires 0 < totalFrames <= 8 * bitmap.Length && totalFrames == TopOfRam(regions) / FRAME_SIZE
      requires 0 < reserveEnd <= totalFrames * FRAME_SIZE && modEnd <= totalFrames * FRAME_SIZE
      requires reserveEnd % FRAME_SIZE == 0
      modifies this, bitmap
      ensures Valid()
      ensures forall f: nat :: f < totalFrames ==>
                (f !in used <==>
                  && InSomeRegion(regions, f)
                  && reserveEnd <= f * FRAME_SIZE
                  && !(modEnd != 0 && Touches(modStart, modEnd, f)))
    {
      FillUsed();
      FreeRegions(regions);
      MarkUsed(0);
      ReserveBytes(0, reserveEnd);
      if modEnd != 0 {
        ReserveBytes(modStart, modEnd);
      }
    }

    /** Start with every frame used. */
    method FillUsed()
      requires totalFrames <= 8 * bitmap.Length
      modifies this, bitmap
      ensures Valid() && used == Frames(0, totalFrames)
    {
      for i := 0 to bitmap.Length
        invariant forall j :: 0 <= j < i ==> bitmap[j] == 0xFF
      {
        bitmap[i] := 0xFF;
      }
      usedFrames := totalFrames;
      used := Frames(0, totalFrames);
      AllSet(bitmap[..], totalFrames);
      FramesSize(0, totalFrames);
    }

    /** Second pass over the memory map: free every frame inside an available region. */
    method FreeRegions(regions: seq<Region>)
      requires Valid() && used == Frames(0, totalFrames)
      requires totalFrames == TopOfRam(regions) / FRAME_SIZE
      modifies this, bitmap
      ensures Valid()
      ensures forall f: nat :: f < totalFrames ==> (f !in used <==> InSomeRegion(regions, f))
    {
      for i := 0 to |regions|
        invariant Valid()
        invariant forall f: nat :: f < totalFrames ==>
                    (f !in used <==> exists j :: 0 <= j < i && InRegion(regions[j], f))
      {
        var m := regions[i];
        if m.available {
          FreeRegion(m);
        }
      }
    }

    method FreeRegion(m: Region)
      requires Valid() && m.available && (m.base + m.length) / FRAME_SIZE <= totalFrames
      modifies this, bitmap
      ensures Valid()
      ensures forall f: nat :: f < totalFrames ==> (f in used <==> f in old(used) && !InRegion(m, f))
    {
      var a := AlignUp(m.base);
      var regionEnd := m.base + m.length;
      while a + FRAME_SIZE <= regionEnd
        invariant Valid() && a % FRAME_SIZE == 0 && m.base <= a
        invariant forall f: nat :: f < totalFrames ==>
                    (f in used <==> f in old(used) && !(InRegion(m, f) && f * FRAME_SIZE < a))
      {
        MarkFree(a / FRAME_SIZE);
        a := a + FRAME_SIZE;
      }
    }

    /** Mark every frame that [start, end) touches. */
    method ReserveBytes(start: nat, end: nat)
      requires Valid() && end <= totalFrames * FRAME_SIZE
      modifies this, bitmap
      ensures Valid()
      ensures forall f: nat :: f < totalFrames ==> (f in used <==> f in old(used) || Touches(start, end, f))
    {
      var a := start / FRAME_SIZE * FRAME_SIZE;
      while a < end
        invariant Valid() && a % FRAME_SIZE == 0 && start / FRAME_SIZE * FRAME_SIZE <= a
        invariant forall f: nat :: f < totalFrames ==>
                    (f in used <==> f in old(used) || (Touches(start, end, f) && f * FRAME_SIZE < a))
      {
        MarkUsed(a / FRAME_SIZE);
        a := a + FRAME_SIZE;
      }
    }

    method Test(f: nat) returns (isSet: bool)
      requires Valid() && f < totalFrames
      ensures isSet == (f in used)
    {
      assert Frame(f);
      isSet := TestBit(bitmap[f / 8], f % 8);
    }

    method MarkUsed(f: nat)
      requires Valid() && f < totalFrames
      modifies this, bitmap
      ensures Valid() && used == old(used) + {f}
    {
      var b := Test(f);
      if !b {
        RepresentsSet(bitmap[..], totalFrames, used, f);
        bitmap[f / 8] := SetBit(bitmap[f / 8], f % 8);
        usedFrames := usedFrames + 1;
      } else {
        assert used + {f} == used;
      }
      used := used + {f};
    }

    method MarkFree(f: nat)
      requires Valid() && f < totalFrames
      modifies this, bitmap
      ensures Valid() && used == old(used) - {f}
    {
      var b := Test(f);
      if b {
        RepresentsSet(bitmap[..], totalFrames, used, f);
        bitmap[f / 8] := ClearBit(bitmap[f / 8], f % 8);
        usedFrames := usedFrames - 1;
      } else {
        assert used - {f} == used;
      }
      used := used - {f};
    }

    /** `pmm_alloc_frame`: the lowest free frame above frame 0, or 0 when there is none. */
    method AllocFrame() returns (addr: nat)
      requires Valid()
      modifies this, bitmap
      ensures Valid()
      ensures addr == 0 <==> forall f :: 1 <= f < totalFrames ==> f in old(used)
      ensures addr == 0 ==> used == old(used)
      ensures addr != 0 ==>
                && addr % FRAME_SIZE == 0
                && LowestRun(old(used), totalFrames, addr / FRAME_SIZE, 1)
                && addr / FRAME_SIZE !in old(used) && addr / FRAME_SIZE < totalFrames
                && used == old(used) + {addr / FRAME_SIZE}
    {
      addr := 0;
      var i := 1;
      while i < totalFrames
        invariant 1 <= i && used == old(used) && Valid() && addr == 0
        invariant forall f :: 1 <= f < i && f < totalFrames ==> f in used
      {
        var b := Test(i);
        if !b {
          LowestIsRun(used, totalFrames, i);
          MarkUsed(i);
          FrameAddress(i);
          return i * FRAME_SIZE;
        }
        i := i + 1;
      }
    }

    /** `pmm_alloc_contig`: the lowest-starting free run of `count` frames, or 0
        exactly when there is none (and always for a count of 0). */
    method AllocContig(count: nat) returns (addr: nat)
      requires Valid()
      modifies this, bitmap
      ensures Valid()
      ensures addr == 0 <==> count == 0 || forall g :: 1 <= g ==> !FreeRun(old(used), totalFrames, g, count)
      ensures addr == 0 ==> used == old(used)
      ensures addr != 0 ==>
                && addr % FRAME_SIZE == 0
                && LowestRun(old(used), totalFrames, addr / FRAME_SIZE, count)
                && used == old(used) + Frames(addr / FRAME_SIZE, count)
    {
      var run := 0;
      var i := 1;
      if totalFrames <= 1 && count != 0 {
        NothingToScan(used, totalFrames, count);
      }
      while i < totalFrames
        invariant 1 <= i && used == old(used) && Valid() && run < i
        invariant count != 0 && 1 <= totalFrames ==> Scanned(used, totalFrames, i, run, count)
      {
        var b := Test(i);
        if b {
          if count != 0 { ScanUsed(used, totalFrames, i, run, count); }
          run := 0;
        } else {
          if count != 0 { ScanFree(used, totalFrames, i, run, count); }
          run := run + 1;
          if run == count {
            var first := i - count + 1;
            MarkRange(first, i + 1);
            FrameAddress(first);
            return first * FRAME_SIZE;
          }
        }
        i := i + 1;
      }
      if count != 0 && 1 <= totalFrames { ScanDone(used, totalFrames, run, count); }
      return 0;
    }

    /** The loop that marks [from, upto). */
    method MarkRange(from: nat, upto: nat)
      requires Valid() && from <= upto <= totalFrames
      modifies this, bitmap
      ensures Valid() && used == old(used) + Frames(from, upto - from)
    {
      for f := from to upto
        invariant Valid() && forall g :: g in used <==> g in old(used) || from <= g < f
      {
        MarkUsed(f);
      }
    }

    method FreeFrame(addr: nat)
      requires Valid() && addr / FRAME_SIZE < totalFrames
      modifies this, bitmap
      ensures Valid() && used == old(used) - {addr / FRAME_SIZE}
    {
      MarkFree(addr / FRAME_SIZE);
    }
  }
}
