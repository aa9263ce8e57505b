/** The kernel's own address space, as vmm_init builds it (kernel/mm/vmm.c): low memory one to
    one and all of RAM at the HHDM in 2 MB pages, and the kernel image in 4 KB pages. */
module VmmInit {
  import opened Elf
  import opened Paging
  import opened Pmm
  import opened Vmm

  const TWO_MB: nat := 0x20_0000
  const PAGES: nat := 0x10_0000_0000
  const HHDM_OFFSET: nat := 0xFFFF_8000_0000_0000
  const KERNEL_VIRT_BASE: nat := 0xFFFF_FFFF_8010_0000
  const KERNEL_PHYS_BASE: nat := 0x10_0000

  /** The page numbers of the two bases, and of the end of the identity map. */
  const HHDM_PAGE: nat := 0x8_0000_0000
  const KERNEL_PAGE: nat := 0xF_FFF8_0100
  const LOW_PAGES: nat := 0x10_0000

  // ---- one 2 MB page ----

  /** There is neither a PT nor a 2 MB page for `p` yet. */
  predicate Vacant(mem: Memory, k: nat, p: Page) {
    var e4 := Ent(mem, k, p.i4);
    var e3 := Ent(mem, e4.frame, p.i3);
    !(e4.present && e3.present && Ent(mem, e3.frame, p.i2).present)
  }

  /** An unmapped page whose PT is not in the tree is vacant. */
  lemma VacantPage(mem: Memory, at: Places, k: nat, p: Page)
    requires Inv(mem, at, k) && InRange(p) && Lookup(mem, k, p) == Unmapped && Path3(p) !in Nodes(at, k)
    ensures Vacant(mem, k, p)
  {
    Walk(mem, at, k, k, p);
    Depths(p);
    var e4 := Ent(mem, k, p.i4);
    var e3 := Ent(mem, e4.frame, p.i3);
    if e4.present && e3.present {
      assert EntryOk(mem, at, k, e3.frame, p.i2);
      assert PlaceOk(mem, at, k, e3.frame);
    }
  }

  function HugeEntry(f: nat): Entry { Entry(f, true, true, false, true) }

  ghost predicate CanSetHuge(mem: Memory, at: Places, k: nat, p: Page, pd: nat) {
    Inv(mem, at, k) && InRange(p) && OnWay(mem, at, k, p, 2, pd) && Vacant(mem, k, p)
  }

  lemma SetHugeReady(mem: Memory, at: Places, k: nat, p: Page, pd: nat)
    requires CanSetHuge(mem, at, k, p, pd)
    ensures pd in mem && |mem[pd]| == 512 && Depth(at[pd].path) == 2 && !mem[pd][p.i2].present
  {
    Depths(p);
    assert PlaceOk(mem, at, k, pd);
  }

  lemma SetHugeInv(mem: Memory, at: Places, k: nat, p: Page, pd: nat, f: nat)
    requires CanSetHuge(mem, at, k, p, pd) && pd in mem && |mem[pd]| == 512
    ensures Inv(Write(mem, pd, p.i2, HugeEntry(f)), at, k)
  {
    SetHugeReady(mem, at, k, p, pd);
    var m := Write(mem, pd, p.i2, HugeEntry(f));
    forall g | g in at
      ensures PlaceOk(m, at, k, g)
    {
      assert PlaceOk(mem, at, k, g);
    }
    forall u, j: nat | IsTable(at, u) && j < 512
      ensures EntryOk(m, at, k, u, j)
    {
      assert EntryOk(mem, at, k, u, j);
      assert PlaceOk(mem, at, k, k);
    }
  }

  predicate SameHuge(p: Page, s: Page) { s.i4 == p.i4 && s.i3 == p.i3 && s.i2 == p.i2 }

  /** A 2 MB page maps its 512 small pages in a row and nothing else. */
  lemma SetHugeLookup(mem: Memory, at: Places, k: nat, p: Page, pd: nat, f: nat, s: Page)
    requires CanSetHuge(mem, at, k, p, pd) && pd in mem && |mem[pd]| == 512 && InRange(s)
    ensures Lookup(Write(mem, pd, p.i2, HugeEntry(f)), k, s) ==
            if SameHuge(p, s) then Mapped(f + s.i1, true, false) else Lookup(mem, k, s)
  {
    SetHugeReady(mem, at, k, p, pd);
    Walk(mem, at, k, k, s);
    Walk(mem, at, k, k, p);
    Depths(p);
    Depths(s);
    if PtOf(mem, k, s).Table? {
      WalkPt(mem, at, k, k, s);
    }
  }

  // ---- page numbers ----

  lemma HugeNumbers(p: Page, s: Page)
    requires InRange(p) && InRange(s) && p.i1 == 0
    ensures SameHuge(p, s) <==> Number(p) <= Number(s) < Number(p) + 512
    ensures SameHuge(p, s) ==> Number(s) == Number(p) + s.i1
  {
    var a, b := (p.i4 * 512 + p.i3) * 512 + p.i2, (s.i4 * 512 + s.i3) * 512 + s.i2;
    if a == b {
      SameDigits(p.i4 * 512 + p.i3, p.i2, s.i4 * 512 + s.i3, s.i2);
      SameDigits(p.i4, p.i3, s.i4, s.i3);
    }
  }

  /** Going on from an address moves on in page numbers, as long as they do not wrap. */
  lemma PageAfter(base: nat, first: nat, n: nat)
    requires PageNumber(base) == first && first + n < PAGES
    ensures PageNumber(base + n * FRAME_SIZE) == first + n
  {
    assert (base + n * 4096) / 4096 == base / 4096 + n;
  }

  // ---- the tables that are needed ----

  /** The PDPT and the PD of a 2 MB page. */
  function HugeTables(p: Page): set<Path> { {Path1(p), Path2(p)} }

  ghost function AllPages(): set<Page> {
    set i4: nat, i3: nat, i2: nat, i1: nat | i4 < 512 && i3 < 512 && i2 < 512 && i1 < 512 :: Page(i4, i3, i2, i1)
  }

  lemma InAllPages(p: Page)
    ensures p in AllPages() <==> InRange(p)
  {
    assert p == Page(p.i4, p.i3, p.i2, p.i1);
  }

  /** The pages from number `first` to `end`. */
  ghost function PagesIn(first: nat, end: nat): set<Page> {
    set p | p in AllPages() && first <= Number(p) < end
  }

  /** Their PDPTs and PDs, and their PTs. */
  ghost function UpperTables(pages: set<Page>): set<Path> {
    (set p | p in pages :: Path1(p)) + (set p | p in pages :: Path2(p))
  }

  ghost function LowerTables(pages: set<Page>): set<Path> {
    set p | p in pages :: Path3(p)
  }

  // ---- map_huge ----

  /** `map_huge` in the kernel's space, where nothing is mapped yet. */
  method MapHuge(vmm: AddressSpaces, p: Page, f: nat)
    requires vmm.Valid() && InRange(p) && Vacant(vmm.mem, vmm.kernelPml4, p)
    requires |HugeTables(p) - Nodes(vmm.at, vmm.kernelPml4)| <= vmm.pmm.FreeCount()
    modifies vmm`mem, vmm`at, vmm.pmm, vmm.pmm.bitmap
    ensures vmm.Valid()
    ensures forall s | InRange(s) ::
              Lookup(vmm.mem, vmm.kernelPml4, s) ==
              if SameHuge(p, s) then Mapped(f + s.i1, true, false) else old(Lookup(vmm.mem, vmm.kernelPml4, s))
    ensures Nodes(vmm.at, vmm.kernelPml4) == old(Nodes(vmm.at, vmm.kernelPml4)) + HugeTables(p)
    ensures vmm.pmm.FreeCount() == old(vmm.pmm.FreeCount() - |HugeTables(p) - Nodes(vmm.at, vmm.kernelPml4)|)
  {
    ghost var m0 := vmm.mem;
    HugeNeeds(vmm.mem, vmm.at, vmm.kernelPml4, p);
    var pd := HugeDescend(vmm, p);
    SetHugeReady(vmm.mem, vmm.at, vmm.kernelPml4, p, pd);
    SetHugeInv(vmm.mem, vmm.at, vmm.kernelPml4, p, pd, f);
    forall s | InRange(s)
      ensures Lookup(Write(vmm.mem, pd, p.i2, HugeEntry(f)), vmm.kernelPml4, s) ==
              if SameHuge(p, s) then Mapped(f + s.i1, true, false) else Lookup(m0, vmm.kernelPml4, s)
    {
      SetHugeLookup(vmm.mem, vmm.at, vmm.kernelPml4, p, pd, f, s);
    }
    vmm.mem := Write(vmm.mem, pd, p.i2, HugeEntry(f));
  }

  /** The two creating calls of next_level. */
  method HugeDescend(vmm: AddressSpaces, p: Page) returns (pd: nat)
    requires vmm.Valid() && InRange(p) && Vacant(vmm.mem, vmm.kernelPml4, p)
    requires Missing(vmm.mem, vmm.kernelPml4, p) <= vmm.pmm.FreeCount() + 1
    modifies vmm`mem, vmm`at, vmm.pmm, vmm.pmm.bitmap
    ensures vmm.Valid() && CanSetHuge(vmm.mem, vmm.at, vmm.kernelPml4, p, pd)
    ensures Grew(old(vmm.mem), old(vmm.at), vmm.mem, vmm.at, vmm.kernelPml4, vmm.kernelPml4)
    ensures Nodes(vmm.at, vmm.kernelPml4) == old(Nodes(vmm.at, vmm.kernelPml4)) + HugeTables(p)
    ensures vmm.pmm.FreeCount() == old(vmm.pmm.FreeCount() - Missing(vmm.mem, vmm.kernelPml4, p)) + 1
  {
    ghost var k, m0, a0 := vmm.kernelPml4, vmm.mem, vmm.at;
    assert PlaceOk(vmm.mem, vmm.at, k, k);
    WayDown(vmm.mem, vmm.at, k, k, p, 0, k);
    var pdpt := vmm.Create(vmm.kernelPml4, p, 0, vmm.kernelPml4);
    ghost var m1, a1 := vmm.mem, vmm.at;
    WayDown(vmm.mem, vmm.at, k, k, p, 1, pdpt);
    pd := vmm.Create(vmm.kernelPml4, p, 1, pdpt);
    GrewTransitive(m0, a0, m1, a1, vmm.mem, vmm.at, k, k);
    StaysVacant(m0, a0, vmm.mem, vmm.at, k, p);
  }

  /** Growing tables above it leaves a page vacant. */
  lemma StaysVacant(m0: Memory, a0: Places, m1: Memory, a1: Places, k: nat, p: Page)
    requires Inv(m0, a0, k) && Inv(m1, a1, k) && InRange(p) && Vacant(m0, k, p)
    requires Nodes(a1, k) == Nodes(a0, k) + HugeTables(p) && Lookup(m1, k, p) == Lookup(m0, k, p)
    ensures Vacant(m1, k, p)
  {
    VacantIsNoNode(m0, a0, k, p);
    Walk(m0, a0, k, k, p);
    Depths(p);
    VacantPage(m1, a1, k, p);
  }

  lemma VacantIsNoNode(mem: Memory, at: Places, k: nat, p: Page)
    requires Inv(mem, at, k) && InRange(p) && Vacant(mem, k, p)
    ensures Path3(p) !in Nodes(at, k) && NoHuge(mem, k, p) && Missing(mem, k, p) >= 1
  {
    NodesAreWalked(mem, at, k, k, p);
  }

  /** What a 2 MB page lacks, counted by paths. */
  lemma HugeNeeds(mem: Memory, at: Places, k: nat, p: Page)
    requires Inv(mem, at, k) && InRange(p) && Vacant(mem, k, p)
    ensures Missing(mem, k, p) == |HugeTables(p) - Nodes(at, k)| + 1 && NoHuge(mem, k, p)
  {
    VacantIsNoNode(mem, at, k, p);
    MissingCounts(mem, at, k, k, p);
    Depths(p);
    assert Tables(p) - Nodes(at, k) == (HugeTables(p) - Nodes(at, k)) + {Path3(p)};
  }

  // ---- runs of 2 MB pages ----

  /** Pages from number `first` to `end` are unmapped and have no PT. */
  ghost predicate Untouched(mem: Memory, at: Places, k: nat, first: nat, end: nat) {
    forall s {:trigger Blank(mem, at, k, s)} :: InRange(s) && first <= Number(s) < end ==> Blank(mem, at, k, s)
  }

  ghost predicate Blank(mem: Memory, at: Places, k: nat, s: Page) {
    Lookup(mem, k, s) == Unmapped && Path3(s) !in Nodes(at, k)
  }

  /** Since `m0`, the pages from number `first` to `end` map the frames from `frame` on, for
      the kernel to read and write, and no other page has changed. */
  ghost predicate MappedFrom(m0: Memory, mem: Memory, k: nat, first: nat, end: nat, frame: nat) {
    forall s {:trigger RunsAt(m0, mem, k, first, end, frame, s)} :: InRange(s) ==> RunsAt(m0, mem, k, first, end, frame, s)
  }

  predicate RunsAt(m0: Memory, mem: Memory, k: nat, first: nat, end: nat, frame: nat, s: Page) {
    Lookup(mem, k, s) == if first <= Number(s) < end then Mapped(Number(s) - first + frame, true, false) else Lookup(m0, k, s)
  }

  /** One more 2 MB page at the end of a run. */
  method MapNextHuge(vmm: AddressSpaces, virt: nat, phys: nat, ghost m0: Memory, ghost first: nat, ghost here: nat, ghost next: nat, ghost end: nat)
    requires vmm.Valid() && PageNumber(virt) == here && here % 512 == 0 && first <= here && next == here + 512 && next <= end
    requires phys == (here - first) * FRAME_SIZE
    requires MappedFrom(m0, vmm.mem, vmm.kernelPml4, first, here, 0) && Untouched(vmm.mem, vmm.at, vmm.kernelPml4, here, end)
    requires |HugeTables(PageOf(virt)) - Nodes(vmm.at, vmm.kernelPml4)| <= vmm.pmm.FreeCount()
    modifies vmm`mem, vmm`at, vmm.pmm, vmm.pmm.bitmap
    ensures vmm.Valid() && MappedFrom(m0, vmm.mem, vmm.kernelPml4, first, next, 0)
    ensures Untouched(vmm.mem, vmm.at, vmm.kernelPml4, next, end)
    ensures Nodes(vmm.at, vmm.kernelPml4) == old(Nodes(vmm.at, vmm.kernelPml4)) + HugeTables(PageOf(virt))
    ensures vmm.pmm.FreeCount() == old(vmm.pmm.FreeCount() - |HugeTables(PageOf(virt)) - Nodes(vmm.at, vmm.kernelPml4)|)
  {
    ghost var k, m1, a1 := vmm.kernelPml4, vmm.mem, vmm.at;
    var p := PageOf(virt);
    PageNumbers(virt);
    assert Blank(m1, a1, k, p);
    VacantPage(m1, a1, k, p);
    MapHuge(vmm, p, phys / FRAME_SIZE);
    HugeExtends(m0, m1, a1, vmm.mem, vmm.at, k, p, first, here, next, end, phys / FRAME_SIZE);
  }

  lemma HugeExtends(m0: Memory, m1: Memory, a1: Places, m2: Memory, a2: Places, k: nat, p: Page,
                    first: nat, here: nat, next: nat, end: nat, f: nat)
    requires InRange(p) && Number(p) == here && here % 512 == 0 && first <= here && next == here + 512 && f == here - first
    requires MappedFrom(m0, m1, k, first, here, 0) && Untouched(m1, a1, k, here, end) && next <= end
    requires forall s | InRange(s) :: Lookup(m2, k, s) == if SameHuge(p, s) then Mapped(f + s.i1, true, false) else Lookup(m1, k, s)
    requires Nodes(a2, k) == Nodes(a1, k) + HugeTables(p)
    ensures MappedFrom(m0, m2, k, first, next, 0) && Untouched(m2, a2, k, next, end)
  {
    forall s | InRange(s)
      ensures RunsAt(m0, m2, k, first, next, 0, s)
      ensures next <= Number(s) < end ==> Blank(m2, a2, k, s)
    {
      HugeNumbers(p, s);
      Depths(p);
      Depths(s);
      assert RunsAt(m0, m1, k, first, here, 0, s);
      assert next <= Number(s) < end ==> Blank(m1, a1, k, s);
    }
  }

  /** `goal` has the upper tables of the pages from number `first` to `end`. */
  ghost predicate Covered(goal: set<Path>, first: nat, end: nat) {
    forall p :: InRange(p) && first <= Number(p) < end ==> HugeTables(p) <= goal
  }

  /** No PT has been added. */
  ghost predicate NoNewPt(n0: set<Path>, n1: set<Path>) {
    forall s :: Path3(s) in n1 ==> Path3(s) in n0
  }

  /** The state of a loop of map_huge whose next page number is `here`. */
  ghost predicate RunState(m0: Memory, n0: set<Path>, mem: Memory, at: Places, k: nat, free: int, goal: set<Path>,
                           first: nat, here: nat, end: nat) {
    && MappedFrom(m0, mem, k, first, here, 0) && Untouched(mem, at, k, here, end)
    && NoNewPt(n0, Nodes(at, k)) && Nodes(at, k) <= goal + {Top} && Room(goal, Nodes(at, k), free)
  }

  /** A loop of map_huge: `n` pages from `base` on, for the memory from physical address 0 on. */
  method MapRun(vmm: AddressSpaces, base: nat, n: nat, ghost first: nat, ghost end: nat, ghost goal: set<Path>, ghost spare: nat)
    requires vmm.Valid() && PageNumber(base) == first && first % 512 == 0 && end == first + n * 512 && end <= PAGES
    requires Untouched(vmm.mem, vmm.at, vmm.kernelPml4, first, end)
    requires Nodes(vmm.at, vmm.kernelPml4) <= goal + {Top}
    requires Covered(goal, first, end) && Room(goal, Nodes(vmm.at, vmm.kernelPml4), vmm.pmm.FreeCount() - spare)
    modifies vmm`mem, vmm`at, vmm.pmm, vmm.pmm.bitmap
    ensures vmm.Valid()
    ensures RunState(old(vmm.mem), old(Nodes(vmm.at, vmm.kernelPml4)), vmm.mem, vmm.at, vmm.kernelPml4, vmm.pmm.FreeCount() - spare, goal,
                     first, end, end)
  {
    ghost var m0, n0 := vmm.mem, Nodes(vmm.at, vmm.kernelPml4);
    ghost var here := first;
    RunStarts(vmm.mem, vmm.at, vmm.kernelPml4, vmm.pmm.FreeCount() - spare, goal, first, end);
    for i := 0 to n
      invariant vmm.Valid() && here == first + i * 512
      invariant RunState(m0, n0, vmm.mem, vmm.at, vmm.kernelPml4, vmm.pmm.FreeCount() - spare, goal, first, here, end)
    {
      MapRunStep(vmm, base, i, n, m0, n0, first, here, end, goal, spare);
      here := here + 512;
    }
    assert here == end;
  }

  lemma RunStarts(mem: Memory, at: Places, k: nat, free: int, goal: set<Path>, first: nat, end: nat)
    requires Untouched(mem, at, k, first, end) && Nodes(at, k) <= goal + {Top} && Room(goal, Nodes(at, k), free)
    ensures RunState(mem, Nodes(at, k), mem, at, k, free, goal, first, first, end)
  {}

  method MapRunStep(vmm: AddressSpaces, base: nat, i: nat, ghost n: nat, ghost m0: Memory, ghost n0: set<Path>,
                    ghost first: nat, ghost here: nat, ghost end: nat, ghost goal: set<Path>, ghost spare: nat)
    requires vmm.Valid() && PageNumber(base) == first && first % 512 == 0 && end == first + n * 512 && end <= PAGES
    requires Covered(goal, first, end) && i < n && here == first + i * 512
    requires RunState(m0, n0, vmm.mem, vmm.at, vmm.kernelPml4, vmm.pmm.FreeCount() - spare, goal, first, here, end)
    modifies vmm`mem, vmm`at, vmm.pmm, vmm.pmm.bitmap
    ensures vmm.Valid()
    ensures RunState(m0, n0, vmm.mem, vmm.at, vmm.kernelPml4, vmm.pmm.FreeCount() - spare, goal, first, here + 512, end)
  {
    var virt := base + i * TWO_MB;
    RunAddress(base, first, i, virt, here);
    ghost var paths, nodes := HugeTables(PageOf(virt)), Nodes(vmm.at, vmm.kernelPml4);
    PageNumbers(virt);
    RoomFor(goal, nodes, vmm.pmm.FreeCount() - spare, paths);
    OnlyUpper(n0, nodes, PageOf(virt));
    MapNextHuge(vmm, virt, i * TWO_MB, m0, first, here, here + 512, end);
  }

  lemma OnlyUpper(n0: set<Path>, n1: set<Path>, p: Page)
    requires NoNewPt(n0, n1)
    ensures NoNewPt(n0, n1 + HugeTables(p))
  {
    Depths(p);
    forall s | Path3(s) in n1 + HugeTables(p)
      ensures Path3(s) in n0
    {
      Depths(s);
    }
  }

  lemma RunAddress(base: nat, first: nat, i: nat, virt: nat, here: nat)
    requires PageNumber(base) == first && first % 512 == 0 && virt == base + i * TWO_MB && here == first + i * 512 && here < PAGES
    ensures PageNumber(virt) == here && here % 512 == 0 && i * TWO_MB == (here - first) * FRAME_SIZE
  {
    PageAfter(base, first, i * 512);
  }

  // ---- the kernel image ----

  const IMAGE_FRAME: nat := 0x100

  /** `goal` has all tables of the pages from number `first` to `end`. */
  ghost predicate AllCovered(goal: set<Path>, first: nat, end: nat) {
    forall p :: InRange(p) && first <= Number(p) < end ==> Tables(p) <= goal
  }

  /** PTs have been added in the last slot of the PML4 only. */
  ghost predicate OnlyHighPt(n0: set<Path>, n1: set<Path>) {
    forall s :: Path3(s) in n1 && s.i4 < 511 ==> Path3(s) in n0
  }

  /** The state of the image loop whose next page number is `here`. */
  ghost predicate ImageState(m0: Memory, n0: set<Path>, mem: Memory, at: Places, k: nat, free: int, goal: set<Path>, here: nat, end: nat) {
    && MappedFrom(m0, mem, k, KERNEL_PAGE, here, IMAGE_FRAME) && Unused(mem, k, here, end)
    && OnlyHighPt(n0, Nodes(at, k)) && Nodes(at, k) <= goal + {Top} && Room(goal, Nodes(at, k), free)
  }

  ghost predicate Unused(mem: Memory, k: nat, first: nat, end: nat) {
    forall s {:trigger IsUnmapped(mem, k, s)} :: InRange(s) && first <= Number(s) < end ==> IsUnmapped(mem, k, s)
  }

  predicate IsUnmapped(mem: Memory, k: nat, s: Page) { Lookup(mem, k, s) == Unmapped }

  /** The loop that maps the kernel image, page by page. */
  method MapImage(vmm: AddressSpaces, n: nat, ghost end: nat, ghost goal: set<Path>, ghost spare: nat)
    requires vmm.Valid() && end == KERNEL_PAGE + n && end <= PAGES
    requires Unused(vmm.mem, vmm.kernelPml4, KERNEL_PAGE, end)
    requires Nodes(vmm.at, vmm.kernelPml4) <= goal + {Top}
    requires AllCovered(goal, KERNEL_PAGE, end) && Room(goal, Nodes(vmm.at, vmm.kernelPml4), vmm.pmm.FreeCount() - spare)
    modifies vmm`mem, vmm`at, vmm.pmm, vmm.pmm.bitmap
    ensures vmm.Valid()
    ensures ImageState(old(vmm.mem), old(Nodes(vmm.at, vmm.kernelPml4)), vmm.mem, vmm.at, vmm.kernelPml4, vmm.pmm.FreeCount() - spare, goal, end, end)
  {
    ghost var m0, n0 := vmm.mem, Nodes(vmm.at, vmm.kernelPml4);
    ghost var here := KERNEL_PAGE;
    for i := 0 to n
      invariant vmm.Valid() && here == KERNEL_PAGE + i
      invariant ImageState(m0, n0, vmm.mem, vmm.at, vmm.kernelPml4, vmm.pmm.FreeCount() - spare, goal, here, end)
    {
      MapImagePage(vmm, i, n, m0, n0, here, end, goal, spare);
      here := here + 1;
    }
    assert here == end;
  }

  method MapImagePage(vmm: AddressSpaces, i: nat, ghost n: nat, ghost m0: Memory, ghost n0: set<Path>,
                      ghost here: nat, ghost end: nat, ghost goal: set<Path>, ghost spare: nat)
    requires vmm.Valid() && end <= PAGES && i < n && here == KERNEL_PAGE + i && here < end && AllCovered(goal, KERNEL_PAGE, end)
    requires ImageState(m0, n0, vmm.mem, vmm.at, vmm.kernelPml4, vmm.pmm.FreeCount() - spare, goal, here, end)
    modifies vmm`mem, vmm`at, vmm.pmm, vmm.pmm.bitmap
    ensures vmm.Valid()
    ensures ImageState(m0, n0, vmm.mem, vmm.at, vmm.kernelPml4, vmm.pmm.FreeCount() - spare, goal, here + 1, end)
  {
    var off := i * FRAME_SIZE;
    var virt := KERNEL_VIRT_BASE + off;
    ghost var k, m1, a1, free, p := vmm.kernelPml4, vmm.mem, vmm.at, vmm.pmm.FreeCount(), PageOf(virt);
    ImageAddress(i, virt, here);
    assert IsUnmapped(m1, k, p);
    ImageNeeds(m1, a1, k, p);
    RoomFor(goal, Nodes(a1, k), free - spare, Tables(p));
    vmm.MapPageIn(vmm.kernelPml4, virt, KERNEL_PHYS_BASE + off, true, false);
    ImageExtends(m0, n0, m1, a1, vmm.mem, vmm.at, k, p, here, end);
  }

  lemma ImageAddress(i: nat, virt: nat, here: nat)
    requires virt == KERNEL_VIRT_BASE + i * FRAME_SIZE && here == KERNEL_PAGE + i && here < PAGES
    ensures Number(PageOf(virt)) == here && PageOf(virt).i4 >= 511
    ensures (KERNEL_PHYS_BASE + i * FRAME_SIZE) / FRAME_SIZE == here - KERNEL_PAGE + IMAGE_FRAME
  {
    PageAfter(KERNEL_VIRT_BASE, KERNEL_PAGE, i);
    PageNumbers(virt);
  }

  lemma ImageNeeds(mem: Memory, at: Places, k: nat, p: Page)
    requires Inv(mem, at, k) && InRange(p) && Lookup(mem, k, p) == Unmapped
    ensures NoHuge(mem, k, p) && Missing(mem, k, p) == |Tables(p) - Nodes(at, k)|
  {
    Walk(mem, at, k, k, p);
    MissingCounts(mem, at, k, k, p);
  }

  lemma ImageExtends(m0: Memory, n0: set<Path>, m1: Memory, a1: Places, m2: Memory, a2: Places, k: nat, p: Page, here: nat, end: nat)
    requires IsRoot(a1, k) && InRange(p) && Number(p) == here && p.i4 >= 511 && KERNEL_PAGE <= here
    requires MappedFrom(m0, m1, k, KERNEL_PAGE, here, IMAGE_FRAME) && Unused(m1, k, here, end) && OnlyHighPt(n0, Nodes(a1, k))
    requires Remapped(m1, a1, m2, k, k, p, Mapped(here - KERNEL_PAGE + IMAGE_FRAME, true, false))
    requires Nodes(a2, k) == Nodes(a1, k) + Tables(p)
    ensures MappedFrom(m0, m2, k, KERNEL_PAGE, here + 1, IMAGE_FRAME) && Unused(m2, k, here + 1, end) && OnlyHighPt(n0, Nodes(a2, k))
  {
    forall s | InRange(s)
      ensures RunsAt(m0, m2, k, KERNEL_PAGE, here + 1, IMAGE_FRAME, s)
      ensures here + 1 <= Number(s) < end ==> IsUnmapped(m2, k, s)
    {
      assert RunsAt(m0, m1, k, KERNEL_PAGE, here, IMAGE_FRAME, s);
      assert here + 1 <= Number(s) < end ==> IsUnmapped(m1, k, s);
      if Number(s) == here { NumberInjective(p, s); }
    }
    Depths(p);
    forall s | Path3(s) in Nodes(a2, k) && s.i4 < 511
      ensures Path3(s) in n0
    {
      Depths(s);
      assert Path3(s) in Nodes(a1, k);
    }
  }

  // ---- vmm_init ----

  const LOW_RUNS: nat := 2048

  /** 4 KB pages of an image of `ksize` bytes, and 2 MB pages of RAM: both rounded up. */
  function ImagePages(ksize: nat): nat { (ksize + 4095) / 4096 }
  function RamRuns(total: nat): nat { (total + 511) / 512 }

  /** The HHDM ends before the last slot of the PML4, where the image is, and the image
      before the end of the address space. */
  predicate LayoutOk(total: nat, ksize: nat) {
    KERNEL_PAGE + ImagePages(ksize) <= PAGES && HHDM_PAGE + RamRuns(total) * 512 <= 0xF_F800_0000
  }

  ghost function InitTables(total: nat, ksize: nat): set<Path> {
    var image := PagesIn(KERNEL_PAGE, KERNEL_PAGE + ImagePages(ksize));
    UpperTables(PagesIn(0, LOW_PAGES)) + UpperTables(image) + LowerTables(image)
      + UpperTables(PagesIn(HHDM_PAGE, HHDM_PAGE + RamRuns(total) * 512))
  }

  /** The kernel's address space: four gigabytes one to one, the image, all of RAM, and
      nothing else; none of it for Ring 3. */
  function BootMap(total: nat, ksize: nat, p: Page): Mapping {
    var n := Number(p);
    if n < LOW_PAGES then Mapped(n, true, false)
    else if HHDM_PAGE <= n < HHDM_PAGE + RamRuns(total) * 512 then Mapped(n - HHDM_PAGE, true, false)
    else if KERNEL_PAGE <= n < KERNEL_PAGE + ImagePages(ksize) then Mapped(n - KERNEL_PAGE + IMAGE_FRAME, true, false)
    else Unmapped
  }

  /** `vmm_init`. It takes a PML4 and the tables; any frames to spare stay free. */
  method Init(pmm: FrameAllocator, ksize: nat, ghost spare: nat) returns (vmm: AddressSpaces)
    requires pmm.Valid() && 0 in pmm.used && LayoutOk(pmm.totalFrames, ksize)
    requires 1 + |InitTables(pmm.totalFrames, ksize)| + spare <= pmm.FreeCount()
    modifies pmm, pmm.bitmap
    ensures fresh(vmm) && vmm.Valid() && vmm.pmm == pmm && vmm.cr3 == vmm.kernelPml4
    ensures forall p | InRange(p) :: Lookup(vmm.mem, vmm.kernelPml4, p) == BootMap(pmm.totalFrames, ksize, p)
    ensures Nodes(vmm.at, vmm.kernelPml4) <= InitTables(pmm.totalFrames, ksize) + {Top} && spare <= pmm.FreeCount()
  {
    ghost var goal := InitTables(pmm.totalFrames, ksize);
    GoalCovers(pmm.totalFrames, ksize, goal);
    vmm := new AddressSpaces(pmm);
    EmptyStart(vmm.mem, vmm.at, vmm.kernelPml4, goal, pmm.FreeCount() - spare);
    Build(vmm, ksize, goal, spare);
  }

  /** The three loops of vmm_init, in an empty space. */
  method Build(vmm: AddressSpaces, ksize: nat, ghost goal: set<Path>, ghost spare: nat)
    requires vmm.Valid() && LayoutOk(vmm.pmm.totalFrames, ksize) && Empty(vmm.mem, vmm.kernelPml4)
    requires Nodes(vmm.at, vmm.kernelPml4) == {Top} && Untouched(vmm.mem, vmm.at, vmm.kernelPml4, 0, LOW_PAGES)
    requires Covered(goal, 0, LOW_PAGES) && AllCovered(goal, KERNEL_PAGE, KERNEL_PAGE + ImagePages(ksize))
    requires Covered(goal, HHDM_PAGE, HHDM_PAGE + RamRuns(vmm.pmm.totalFrames) * 512)
    requires Room(goal, Nodes(vmm.at, vmm.kernelPml4), vmm.pmm.FreeCount() - spare)
    modifies vmm`mem, vmm`at, vmm.pmm, vmm.pmm.bitmap
    ensures vmm.Valid()
    ensures forall p | InRange(p) :: Lookup(vmm.mem, vmm.kernelPml4, p) == BootMap(vmm.pmm.totalFrames, ksize, p)
    ensures Nodes(vmm.at, vmm.kernelPml4) <= goal + {Top} && spare <= vmm.pmm.FreeCount()
  {
    ghost var m0 := vmm.mem;
    MapRun(vmm, 0, LOW_RUNS, 0, LOW_PAGES, goal, spare);
    BuildHigh(vmm, ksize, goal, spare, m0);
  }

  /** The image and the HHDM, after low memory. */
  method BuildHigh(vmm: AddressSpaces, ksize: nat, ghost goal: set<Path>, ghost spare: nat, ghost m0: Memory)
    requires vmm.Valid() && LayoutOk(vmm.pmm.totalFrames, ksize) && Empty(m0, vmm.kernelPml4)
    requires RunState(m0, {Top}, vmm.mem, vmm.at, vmm.kernelPml4, vmm.pmm.FreeCount() - spare, goal, 0, LOW_PAGES, LOW_PAGES)
    requires AllCovered(goal, KERNEL_PAGE, KERNEL_PAGE + ImagePages(ksize))
    requires Covered(goal, HHDM_PAGE, HHDM_PAGE + RamRuns(vmm.pmm.totalFrames) * 512)
    modifies vmm`mem, vmm`at, vmm.pmm, vmm.pmm.bitmap
    ensures vmm.Valid()
    ensures forall p | InRange(p) :: Lookup(vmm.mem, vmm.kernelPml4, p) == BootMap(vmm.pmm.totalFrames, ksize, p)
    ensures Nodes(vmm.at, vmm.kernelPml4) <= goal + {Top} && spare <= vmm.pmm.FreeCount()
  {
    ghost var k, m1, n1 := vmm.kernelPml4, vmm.mem, Nodes(vmm.at, vmm.kernelPml4);
    ghost var imageEnd, ramEnd := KERNEL_PAGE + ImagePages(ksize), HHDM_PAGE + RamRuns(vmm.pmm.totalFrames) * 512;
    ImageIsUnused(m0, m1, k, imageEnd);
    MapImage(vmm, ImagePages(ksize), imageEnd, goal, spare);
    ghost var m2 := vmm.mem;
    RamIsUntouched(m0, {Top}, m1, n1, m2, vmm.at, k, imageEnd, ramEnd);
    BuildRam(vmm, RamRuns(vmm.pmm.totalFrames), ramEnd, goal, spare);
    ThreeRuns(m0, m1, m2, vmm.mem, k, vmm.pmm.totalFrames, ksize, imageEnd, ramEnd);
  }

  /** The HHDM. */
  method BuildRam(vmm: AddressSpaces, runs: nat, ghost ramEnd: nat, ghost goal: set<Path>, ghost spare: nat)
    requires vmm.Valid() && ramEnd == HHDM_PAGE + runs * 512 && ramEnd <= PAGES && Covered(goal, HHDM_PAGE, ramEnd)
    requires Untouched(vmm.mem, vmm.at, vmm.kernelPml4, HHDM_PAGE, ramEnd) && Nodes(vmm.at, vmm.kernelPml4) <= goal + {Top}
    requires Room(goal, Nodes(vmm.at, vmm.kernelPml4), vmm.pmm.FreeCount() - spare)
    modifies vmm`mem, vmm`at, vmm.pmm, vmm.pmm.bitmap
    ensures vmm.Valid() && MappedFrom(old(vmm.mem), vmm.mem, vmm.kernelPml4, HHDM_PAGE, ramEnd, 0)
    ensures Nodes(vmm.at, vmm.kernelPml4) <= goal + {Top} && spare <= vmm.pmm.FreeCount()
  {
    HhdmNumber(0, HHDM_OFFSET);
    MapRun(vmm, HHDM_OFFSET, runs, HHDM_PAGE, ramEnd, goal, spare);
  }

  ghost predicate Empty(mem: Memory, k: nat) {
    forall p :: Lookup(mem, k, p) == Unmapped
  }

  lemma EmptyStart(mem: Memory, at: Places, k: nat, goal: set<Path>, free: int)
    requires Inv(mem, at, k) && at.Keys == {k} && Empty(mem, k) && |goal| <= free
    ensures Nodes(at, k) == {Top} && Untouched(mem, at, k, 0, LOW_PAGES) && Nodes(at, k) <= goal + {Top} && Room(goal, Nodes(at, k), free)
  {
    assert PlaceOk(mem, at, k, k);
    assert at[k].root == k && at[k].path == Top;
    SubsetSize(goal - {Top}, goal);
    assert Nodes(at, k) == {Top};
    forall s
      ensures Blank(mem, at, k, s)
    {}
  }

  lemma GoalCovers(total: nat, ksize: nat, goal: set<Path>)
    requires goal == InitTables(total, ksize)
    ensures Covered(goal, 0, LOW_PAGES) && AllCovered(goal, KERNEL_PAGE, KERNEL_PAGE + ImagePages(ksize))
    ensures Covered(goal, HHDM_PAGE, HHDM_PAGE + RamRuns(total) * 512)
  {
    var image := PagesIn(KERNEL_PAGE, KERNEL_PAGE + ImagePages(ksize));
    UpperCover(goal, 0, LOW_PAGES);
    UpperCover(goal, KERNEL_PAGE, KERNEL_PAGE + ImagePages(ksize));
    UpperCover(goal, HHDM_PAGE, HHDM_PAGE + RamRuns(total) * 512);
    forall p | InRange(p) && KERNEL_PAGE <= Number(p) < KERNEL_PAGE + ImagePages(ksize)
      ensures Tables(p) <= goal
    {
      InAllPages(p);
      assert p in image && Path3(p) in LowerTables(image) && HugeTables(p) <= goal;
    }
  }

  lemma UpperCover(goal: set<Path>, first: nat, end: nat)
    requires UpperTables(PagesIn(first, end)) <= goal
    ensures Covered(goal, first, end)
  {
    forall p | InRange(p) && first <= Number(p) < end
      ensures HugeTables(p) <= goal
    {
      InAllPages(p);
      assert p in PagesIn(first, end);
      assert Path1(p) in UpperTables(PagesIn(first, end)) && Path2(p) in UpperTables(PagesIn(first, end));
    }
  }

  lemma ImageIsUnused(m0: Memory, m1: Memory, k: nat, imageEnd: nat)
    requires Empty(m0, k) && MappedFrom(m0, m1, k, 0, LOW_PAGES, 0)
    ensures Unused(m1, k, KERNEL_PAGE, imageEnd)
  {
    forall s | InRange(s) && KERNEL_PAGE <= Number(s)
      ensures IsUnmapped(m1, k, s)
    {
      assert RunsAt(m0, m1, k, 0, LOW_PAGES, 0, s);
    }
  }

  lemma RamIsUntouched(m0: Memory, n0: set<Path>, m1: Memory, n1: set<Path>, m2: Memory, at: Places, k: nat, imageEnd: nat, ramEnd: nat)
    requires Empty(m0, k) && MappedFrom(m0, m1, k, 0, LOW_PAGES, 0)
    requires MappedFrom(m1, m2, k, KERNEL_PAGE, imageEnd, IMAGE_FRAME)
    requires n0 == {Top} && NoNewPt(n0, n1) && OnlyHighPt(n1, Nodes(at, k)) && ramEnd <= 0xF_F800_0000
    ensures Untouched(m2, at, k, HHDM_PAGE, ramEnd)
  {
    forall s | InRange(s) && HHDM_PAGE <= Number(s) < ramEnd
      ensures Blank(m2, at, k, s)
    {
      assert RunsAt(m0, m1, k, 0, LOW_PAGES, 0, s);
      assert RunsAt(m1, m2, k, KERNEL_PAGE, imageEnd, IMAGE_FRAME, s);
      assert s.i4 < 511;
    }
  }

  lemma ThreeRuns(m0: Memory, m1: Memory, m2: Memory, m3: Memory, k: nat, total: nat, ksize: nat, imageEnd: nat, ramEnd: nat)
    requires Empty(m0, k) && LayoutOk(total, ksize)
    requires imageEnd == KERNEL_PAGE + ImagePages(ksize) && ramEnd == HHDM_PAGE + RamRuns(total) * 512
    requires MappedFrom(m0, m1, k, 0, LOW_PAGES, 0) && MappedFrom(m1, m2, k, KERNEL_PAGE, imageEnd, IMAGE_FRAME)
    requires MappedFrom(m2, m3, k, HHDM_PAGE, ramEnd, 0)
    ensures forall p | InRange(p) :: Lookup(m3, k, p) == BootMap(total, ksize, p)
  {
    forall p | InRange(p)
      ensures Lookup(m3, k, p) == BootMap(total, ksize, p)
    {
      assert RunsAt(m0, m1, k, 0, LOW_PAGES, 0, p);
      assert RunsAt(m1, m2, k, KERNEL_PAGE, imageEnd, IMAGE_FRAME, p);
      assert RunsAt(m2, m3, k, HHDM_PAGE, ramEnd, 0, p);
    }
  }

  /** phys_to_virt: every byte of RAM is found at its HHDM address, in the kernel's space and
      in every space that has borrowed the slot. */
  lemma RamIsAtHhdm(mem: Memory, at: Places, k: nat, q: nat, total: nat, ksize: nat, pa: nat)
    requires Inv(mem, at, k) && IsRoot(at, q) && LayoutOk(total, ksize) && pa < total * FRAME_SIZE
    requires forall p | InRange(p) :: Lookup(mem, k, p) == BootMap(total, ksize, p)
    requires q == k || Ent(mem, q, PageOf(HHDM_OFFSET + pa).i4).present
    ensures Translate(mem, q, HHDM_OFFSET + pa) == pa
    ensures !Accessible(mem, q, HHDM_OFFSET + pa, false)
  {
    var v := HHDM_OFFSET + pa;
    var p := PageOf(v);
    HhdmPage(total, pa, v);
    SeesAlike(mem, at, k, k, p, q);
  }

  /** Every byte of the kernel image is found at its high address. */
  lemma ImageIsMapped(mem: Memory, k: nat, total: nat, ksize: nat, off: nat)
    requires LayoutOk(total, ksize) && off < ksize
    requires forall p | InRange(p) :: Lookup(mem, k, p) == BootMap(total, ksize, p)
    ensures Translate(mem, k, KERNEL_VIRT_BASE + off) == KERNEL_PHYS_BASE + off
    ensures !Accessible(mem, k, KERNEL_VIRT_BASE + off, false)
  {
    ImageNumber(off, KERNEL_VIRT_BASE + off);
    PageNumbers(KERNEL_VIRT_BASE + off);
    assert (KERNEL_PHYS_BASE + off) / 4096 == IMAGE_FRAME + off / 4096;
  }

  /** And no page after its last byte. */
  lemma ImageEnds(mem: Memory, k: nat, total: nat, ksize: nat, off: nat)
    requires LayoutOk(total, ksize) && off % FRAME_SIZE == 0 && off >= ksize && off / FRAME_SIZE < PAGES - KERNEL_PAGE
    requires forall p | InRange(p) :: Lookup(mem, k, p) == BootMap(total, ksize, p)
    ensures Translate(mem, k, KERNEL_VIRT_BASE + off) == 0
  {
    ImageNumber(off, KERNEL_VIRT_BASE + off);
    PageNumbers(KERNEL_VIRT_BASE + off);
  }

  lemma ImageNumber(off: nat, v: nat)
    requires v == KERNEL_VIRT_BASE + off && off / FRAME_SIZE < PAGES - KERNEL_PAGE
    ensures PageNumber(v) == KERNEL_PAGE + off / FRAME_SIZE && v % FRAME_SIZE == off % FRAME_SIZE
  {
    assert v / 4096 == 0xF_FFFF_FFF8_0100 + off / 4096;
  }

  /** The first four gigabytes are mapped one to one. */
  lemma LowIsIdentity(mem: Memory, k: nat, total: nat, ksize: nat, pa: nat)
    requires pa < 0x1_0000_0000 && forall p | InRange(p) :: Lookup(mem, k, p) == BootMap(total, ksize, p)
    ensures Translate(mem, k, pa) == pa
  {
    PageNumbers(pa);
    UserPage(pa);
  }

  /** RAM ends in the HHDM at most 2 MB after its last frame. */
  lemma RamEnds(mem: Memory, k: nat, total: nat, ksize: nat, pa: nat)
    requires LayoutOk(total, ksize) && total * FRAME_SIZE + TWO_MB <= pa && pa / FRAME_SIZE < 0x7_F800_0000
    requires forall p | InRange(p) :: Lookup(mem, k, p) == BootMap(total, ksize, p)
    ensures Translate(mem, k, HHDM_OFFSET + pa) == 0
  {
    HhdmNumber(pa, HHDM_OFFSET + pa);
    PageNumbers(HHDM_OFFSET + pa);
  }

  lemma HhdmPage(total: nat, pa: nat, v: nat)
    requires v == HHDM_OFFSET + pa && pa < total * FRAME_SIZE && HHDM_PAGE + RamRuns(total) * 512 <= 0xF_F800_0000
    ensures Number(PageOf(v)) == HHDM_PAGE + pa / FRAME_SIZE && pa / FRAME_SIZE < RamRuns(total) * 512
    ensures v % FRAME_SIZE == pa % FRAME_SIZE && PageOf(v).i4 >= 256
  {
    HhdmNumber(pa, v);
    PageNumbers(v);
    HighSlot(PageOf(v));
  }

  lemma HhdmNumber(pa: nat, v: nat)
    requires v == HHDM_OFFSET + pa && pa / FRAME_SIZE < HHDM_PAGE
    ensures PageNumber(v) == HHDM_PAGE + pa / FRAME_SIZE && v % FRAME_SIZE == pa % FRAME_SIZE
  {
    assert v / 4096 == 0xF_FFF8_0000_0000 + pa / 4096;
  }

  lemma HighSlot(p: Page)
    requires InRange(p) && Number(p) >= HHDM_PAGE
    ensures p.i4 >= 256
  {}

  // ---- the slots in use ----

  /** The pages of one slot of the PML4. */
  const SLOT: nat := 0x800_0000

  lemma SlotOf(p: Page, slot: nat)
    requires InRange(p) && slot * SLOT <= Number(p) < slot * SLOT + SLOT
    ensures p.i4 == slot
  {}

  /** Pages of one slot have tables in that slot only. */
  lemma TablesInSlot(first: nat, end: nat, slot: nat, x: nat)
    requires slot * SLOT <= first && end <= slot * SLOT + SLOT
    requires Step(Top, x) in UpperTables(PagesIn(first, end)) + LowerTables(PagesIn(first, end))
    ensures x == slot
  {
    var p :| p in PagesIn(first, end) && (Step(Top, x) == Path1(p) || Step(Top, x) == Path2(p) || Step(Top, x) == Path3(p));
    InAllPages(p);
    SlotOf(p, slot);
    Depths(p);
  }

  /** With at most 512 GB of RAM, vmm_init uses slots 0, 256 and 511. */
  lemma SlotsInUse(mem: Memory, at: Places, k: nat, total: nat, ksize: nat, x: nat)
    requires Inv(mem, at, k) && LayoutOk(total, ksize) && total <= SLOT && x < 512
    requires Nodes(at, k) <= InitTables(total, ksize) + {Top}
    ensures Ent(mem, k, x).present ==> x == 0 || x == 256 || x == 511
  {
    if Ent(mem, k, x).present {
      assert EntryOk(mem, at, k, k, x) && PlaceOk(mem, at, k, k);
      assert Step(Top, x) in Nodes(at, k);
      TablesInSlots(total, ksize, x);
    }
  }

  lemma TablesInSlots(total: nat, ksize: nat, x: nat)
    requires LayoutOk(total, ksize) && total <= SLOT && Step(Top, x) in InitTables(total, ksize)
    ensures x == 0 || x == 256 || x == 511
  {
    var imageEnd, ramEnd, n := KERNEL_PAGE + ImagePages(ksize), HHDM_PAGE + RamRuns(total) * 512, Step(Top, x);
    if n in UpperTables(PagesIn(0, LOW_PAGES)) {
      TablesInSlot(0, LOW_PAGES, 0, x);
    } else if n in UpperTables(PagesIn(HHDM_PAGE, ramEnd)) {
      TablesInSlot(HHDM_PAGE, ramEnd, 256, x);
    } else {
      TablesInSlot(KERNEL_PAGE, imageEnd, 511, x);
    }
  }
}
