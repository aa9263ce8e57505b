/** The virtual memory manager (kernel/mm/vmm.c) as an object over the frame allocator:
    map, unmap, translate, create an address space and check a user range. */
module Vmm {
  import opened Paging
  import opened PagingTree
  import opened Pmm

  const USER_SPACE_END: nat := 0x8000_0000_0000
  const TWO64: nat := 0x1_0000_0000_0000_0000

  /** With frame 0 reserved, a free frame is one the allocator can hand out. */
  lemma FreeFrameExists(used: set<nat>, total: nat)
    requires 0 in used && |used| < total
    ensures exists f :: 1 <= f < total && f !in used
  {
    if forall f :: 1 <= f < total ==> f in used {
      FramesSize(0, total);
      assert Frames(0, total) <= used;
      SubsetSize(Frames(0, total), used);
    }
  }

  lemma {:induction false} SubsetSize<T>(a: set<T>, b: set<T>)
    requires a <= b
    ensures |a| <= |b|
    decreases a
  {
    if x :| x in a {
      SubsetSize(a - {x}, b - {x});
    }
  }

  lemma ThreeTables(p: Page, n0: set<Path>, n1: set<Path>, n2: set<Path>, n3: set<Path>)
    requires n1 == n0 + {PathAt(p, 1)} && n2 == n1 + {PathAt(p, 2)} && n3 == n2 + {PathAt(p, 3)}
    ensures n3 == n0 + Tables(p)
  {}

  lemma SameStill(m0: Memory, a0: Places, m1: Memory, a1: Places, m2: Memory, r: nat, gone: set<nat>)
    requires SameElsewhere(m0, a0, m1, r) && SameElsewhere(m1, a1, m2, r)
    requires a1 == a0 - gone && forall f | f in gone :: f in a0 && a0[f].path != Top
    ensures SameElsewhere(m0, a0, m2, r)
  {
    forall q, p | IsRoot(a0, q) && q != r && InRange(p)
      ensures Lookup(m2, q, p) == Lookup(m0, q, p)
    {
      assert Lookup(m1, q, p) == Lookup(m0, q, p);
    }
  }

  lemma FreedMore<T>(all: set<T>, sub: set<T>, done: set<T>, more: set<T>)
    requires done !! more && more <= sub <= all
    ensures more <= all - done
    ensures all - done - more == all - (done + more)
    ensures |done + more| == |done| + |more|
  {}

  /** Ring 3 may access the byte at `v`: all levels present and user, and writable if asked. */
  predicate Accessible(mem: Memory, root: nat, v: nat, write: bool) {
    var m := Lookup(mem, root, PageOf(v));
    m.Mapped? && m.user && (write ==> m.writable)
  }

  /** Every byte of [va, va + len) lies in the user half and is accessible to Ring 3. */
  ghost predicate UserRange(mem: Memory, root: nat, va: nat, len: nat, write: bool) {
    len == 0 ||
    (va + len <= USER_SPACE_END && forall a: nat :: va <= a < va + len ==> Accessible(mem, root, a, write))
  }

  /** A byte of the user half, below 2^47, that is accessible to Ring 3. */
  predicate UserMay(mem: Memory, root: nat, a: nat, write: bool) {
    a < 0x8000_0000_0000 && Accessible(mem, root, a, write)
  }

  /** The range byte by byte. */
  lemma RangeBytes(mem: Memory, root: nat, va: nat, len: nat, write: bool)
    ensures UserRange(mem, root, va, len, write) <==> forall a: nat :: va <= a < va + len ==> UserMay(mem, root, a, write)
  {
    if len > 0 && forall a: nat :: va <= a < va + len ==> UserMay(mem, root, a, write) {
      assert UserMay(mem, root, va + len - 1, write);
      forall a: nat | va <= a < va + len
        ensures Accessible(mem, root, a, write)
      {
        assert UserMay(mem, root, a, write);
      }
    }
  }

  /** A part of an accessible range is accessible. */
  lemma SubRange(mem: Memory, root: nat, va: nat, len: nat, write: bool, vb: nat, m: nat)
    requires UserRange(mem, root, va, len, write) && va <= vb && vb + m <= va + len
    ensures UserRange(mem, root, vb, m, write)
  {}

  /** The entry allows the access at its level. */
  predicate Grants(e: Entry, write: bool) {
    e.present && e.user && (write ==> e.writable)
  }

  /** Bytes of one page share its translation. */
  lemma SamePageAccess(mem: Memory, root: nat, a: nat, b: nat, write: bool)
    requires a / FRAME_SIZE == b / FRAME_SIZE
    ensures Accessible(mem, root, a, write) == Accessible(mem, root, b, write)
  {
    SamePage(a, b);
  }

  /** Every byte from `va` up to `page` is accessible. */
  ghost predicate AllowedUpTo(mem: Memory, root: nat, va: nat, page: nat, write: bool) {
    forall a: nat {:trigger Allowed(mem, root, a, write)} :: va <= a < page ==> Allowed(mem, root, a, write)
  }

  predicate Allowed(mem: Memory, root: nat, a: nat, write: bool) { Accessible(mem, root, a, write) }

  lemma PageExtends(mem: Memory, root: nat, va: nat, page: nat, next: nat, write: bool)
    requires page % FRAME_SIZE == 0 && next == page + FRAME_SIZE
    requires AllowedUpTo(mem, root, va, page, write) && Accessible(mem, root, page, write)
    ensures AllowedUpTo(mem, root, va, next, write)
  {
    forall a: nat | va <= a < next
      ensures Allowed(mem, root, a, write)
    {
      if page <= a { SamePageAccess(mem, root, a, page, write); }
    }
  }

  lemma RangeAllowed(mem: Memory, root: nat, va: nat, len: nat, page: nat, write: bool)
    requires AllowedUpTo(mem, root, va, page, write) && va + len <= page && va + len <= USER_SPACE_END
    ensures UserRange(mem, root, va, len, write)
  {
    forall a: nat | va <= a < va + len
      ensures Accessible(mem, root, a, write)
    {
      assert Allowed(mem, root, a, write);
    }
  }

  lemma PageRefused(mem: Memory, root: nat, va: nat, len: nat, page: nat, write: bool)
    requires page % FRAME_SIZE == 0 && len > 0 && va < page + FRAME_SIZE && page < va + len && !Accessible(mem, root, page, write)
    ensures !UserRange(mem, root, va, len, write)
  {
    var a := if va < page then page else va;
    SamePageAccess(mem, root, a, page, write);
    assert va <= a < va + len && !Accessible(mem, root, a, write);
  }

  /** The physical address of `virt`, or 0 when it is not mapped. */
  function Translate(mem: Memory, root: nat, virt: nat): nat {
    match Lookup(mem, root, PageOf(virt))
    case Unmapped => 0
    case Mapped(f, _, _) => f * FRAME_SIZE + virt % FRAME_SIZE
  }

  /** The offset in a 2 MB page is the small page's index and the offset in that page. */
  lemma HugeOffset(virt: nat)
    ensures virt % 0x20_0000 == PageOf(virt).i1 * FRAME_SIZE + virt % FRAME_SIZE
  {
    var n := virt / 4096;
    SmallPart(virt, n / 512, n % 512, virt % 4096);
  }

  lemma SmallPart(v: nat, a: nat, b: nat, c: nat)
    requires v == a * 0x20_0000 + b * 4096 + c && b < 512 && c < 4096
    ensures v % 0x20_0000 == b * 4096 + c
  {}

  class AddressSpaces {
    const pmm: FrameAllocator
    var mem: Memory
    var kernelPml4: nat
    var cr3: nat
    /** Where every owned frame hangs. */
    ghost var at: Places

    ghost predicate Valid()
      reads this, pmm, pmm.bitmap
    {
      && pmm.Valid() && 0 in pmm.used
      && Inv(mem, at, kernelPml4)
      && 0 !in at && (forall f | f in at :: f in pmm.used)
    }

    /** The start of `vmm_init`: an empty kernel PML4. */
    constructor (pmm: FrameAllocator)
      requires pmm.Valid() && 0 in pmm.used && 1 <= pmm.FreeCount()
      modifies pmm, pmm.bitmap
      ensures Valid() && this.pmm == pmm && cr3 == kernelPml4
      ensures kernelPml4 !in old(pmm.used) && pmm.used == old(pmm.used) + {kernelPml4}
      ensures at.Keys == {kernelPml4} && forall p :: Lookup(mem, kernelPml4, p) == Unmapped
    {
      FreeFrameExists(pmm.used, pmm.totalFrames);
      this.pmm := pmm;
      var addr := pmm.AllocFrame();
      var k := addr / FRAME_SIZE;
      kernelPml4 := k;
      cr3 := k;
      mem := map[k := EmptyTable()];
      at := map[k := Place(k, Top, k)];
    }

    /** `next_level` with create = 0: the frame entry `i` of table `t` points to, or 0. */
    method Follow(t: nat, i: nat) returns (f: nat)
      requires t in mem && i < |mem[t]|
      ensures f == if Ent(mem, t, i).present then Ent(mem, t, i).frame else 0
    {
      if !mem[t][i].present {
        return 0;
      }
      f := mem[t][i].frame;
    }

    /** `next_level` with create = 1: an absent entry gets a freshly allocated, zeroed table. */
    method NextLevel(t: nat, i: nat) returns (f: nat)
      requires Valid() && t in at && Depth(at[t].path) < 3 && Private(at, kernelPml4, t, i)
      requires Ent(mem, t, i).present ==> !Ent(mem, t, i).huge
      requires Ent(mem, t, i).present || 1 <= pmm.FreeCount()
      modifies this`mem, this`at, pmm, pmm.bitmap
      ensures Valid()
      ensures old(Ent(mem, t, i)).present ==>
                mem == old(mem) && at == old(at) && pmm.used == old(pmm.used) && f == old(Ent(mem, t, i)).frame
      ensures !old(Ent(mem, t, i)).present ==>
                && f !in old(pmm.used) && f !in old(at)
                && old(t in mem && |mem[t]| == 512)
                && CanAddTable(old(mem), old(at), kernelPml4, t, i, f)
                && mem == AddTable(old(mem), t, i, f) && at == AddTablePlace(old(at), t, i, f)
                && pmm.used == old(pmm.used) + {f}
      ensures Grew(old(mem), old(at), mem, at, kernelPml4, at[t].root)
      ensures Nodes(at, at[t].root) == old(Nodes(at, at[t].root)) + {Step(at[t].path, i)}
      ensures pmm.used - at.Keys == old(pmm.used - at.Keys) && old(pmm.used) <= pmm.used
      ensures pmm.FreeCount() == old(pmm.FreeCount()) - (if old(Ent(mem, t, i)).present then 0 else 1)
    {
      assert PlaceOk(mem, at, kernelPml4, t);
      assert EntryOk(mem, at, kernelPml4, t, i);
      if !mem[t][i].present {
        FreeFrameExists(pmm.used, pmm.totalFrames);
        var addr := pmm.AllocFrame();
        f := addr / FRAME_SIZE;
        AddTableInv(mem, at, kernelPml4, t, i, f);
        AddTableGrew(mem, at, kernelPml4, t, i, f);
        at := AddTablePlace(at, t, i, f);
        mem := mem[f := EmptyTable()];
        mem := Write(mem, t, i, PointTo(f));
        return;
      }
      f := mem[t][i].frame;
    }

    /** `vmm_map_page_in`: afterwards every space that uses these tables translates the page
        of `virt` to the frame of `phys` with exactly the leaf's rights, and every other
        page of every space translates as before. */
    method MapPageIn(pml4: nat, virt: nat, phys: nat, writable: bool, user: bool)
      requires Valid() && IsRoot(at, pml4) && PrivatePage(kernelPml4, pml4, PageOf(virt))
      requires NoHuge(mem, pml4, PageOf(virt))
      requires Missing(mem, pml4, PageOf(virt)) <= pmm.FreeCount()
      requires pml4 != kernelPml4 ==>
                 phys / FRAME_SIZE != 0 && phys / FRAME_SIZE in pmm.used && phys / FRAME_SIZE !in at
      modifies this`mem, this`at, pmm, pmm.bitmap
      ensures Valid()
      ensures Lookup(mem, pml4, PageOf(virt)) == Mapped(phys / FRAME_SIZE, writable, user)
      ensures Remapped(old(mem), old(at), mem, kernelPml4, pml4, PageOf(virt), Mapped(phys / FRAME_SIZE, writable, user))
      ensures BorrowedKept(old(mem), old(at), mem, kernelPml4)
      ensures pmm.FreeCount() == old(pmm.FreeCount()) - old(Missing(mem, pml4, PageOf(virt)))
      ensures Charged(old(mem), old(at), old(pmm.used), at, pmm.used, kernelPml4, pml4, PageOf(virt), phys / FRAME_SIZE)
    {
      ghost var m0, a0, u0, k := mem, at, pmm.used, kernelPml4;
      var p := PageOf(virt);
      var pt := Descend(pml4, p);
      ghost var m1, a1 := mem, at;
      var e := Entry(phys / FRAME_SIZE, true, writable, user, false);
      assert e.frame in u0 - a0.Keys ==> e.frame in pmm.used - at.Keys;
      WalkPt(mem, at, k, pml4, p);
      Depths(p);
      GrewThenCharged(m0, a0, u0, m1, a1, pmm.used, k, pml4, p, e);
      SetLeaf(pml4, p, pt, e);
      GrewThenRemapped(m0, a0, m1, a1, mem, k, pml4, p, LeafMapping(e));
    }

    /** The write to the PT that ends a map or an unmap. */
    method SetLeaf(pml4: nat, p: Page, pt: nat, e: Entry)
      requires Valid() && IsRoot(at, pml4) && PrivatePage(kernelPml4, pml4, p) && PtOf(mem, pml4, p) == Table(pt)
      requires CanSetLeaf(mem, at, kernelPml4, pt, p.i1, e)
      requires e.present && pml4 != kernelPml4 ==> e.frame != 0 && e.frame in pmm.used
      modifies this`mem, this`at
      ensures Valid()
      ensures at == SetLeafPlace(old(mem), old(at), kernelPml4, pt, p.i1, e)
      ensures Remapped(old(mem), old(at), mem, kernelPml4, pml4, p, LeafMapping(e))
      ensures BorrowedKept(old(mem), old(at), mem, kernelPml4)
    {
      WalkPt(mem, at, kernelPml4, pml4, p);
      SetLeafInv(mem, at, kernelPml4, pt, p.i1, e);
      SetLeafOwned(mem, at, kernelPml4, pt, p.i1, e);
      SetLeafRemaps(mem, at, kernelPml4, pml4, p, e);
      at := SetLeafPlace(mem, at, kernelPml4, pt, p.i1, e);
      mem := Write(mem, pt, p.i1, e);
    }

    /** One creating call of next_level on the way to a page's PT. */
    method Create(pml4: nat, p: Page, d: nat, t: nat) returns (u: nat)
      requires Valid() && IsRoot(at, pml4) && PrivatePage(kernelPml4, pml4, p) && NoHuge(mem, pml4, p)
      requires d < 3 && OnWay(mem, at, pml4, p, d, t)
      requires Ent(mem, t, Index(p, d)).present || 1 <= pmm.FreeCount()
      modifies this`mem, this`at, pmm, pmm.bitmap
      ensures Valid() && Grew(old(mem), old(at), mem, at, kernelPml4, pml4)
      ensures OnWay(mem, at, pml4, p, d + 1, u) && NoHuge(mem, pml4, p)
      ensures Nodes(at, pml4) == old(Nodes(at, pml4)) + {PathAt(p, d + 1)}
      ensures pmm.used - at.Keys == old(pmm.used - at.Keys) && old(pmm.used) <= pmm.used
      ensures pmm.FreeCount() - Missing(mem, pml4, p) == old(pmm.FreeCount() - Missing(mem, pml4, p))
    {
      ghost var m0, a0 := mem, at;
      WayDown(mem, at, kernelPml4, pml4, p, d, t);
      u := NextLevel(t, Index(p, d));
      if !Ent(m0, t, Index(p, d)).present {
        WayGrows(m0, a0, kernelPml4, pml4, p, d, t, u);
      }
    }

    /** The three creating calls of next_level: the page's PT, with everything on the way. */
    method Descend(pml4: nat, p: Page) returns (pt: nat)
      requires Valid() && IsRoot(at, pml4) && PrivatePage(kernelPml4, pml4, p) && NoHuge(mem, pml4, p)
      requires Missing(mem, pml4, p) <= pmm.FreeCount()
      modifies this`mem, this`at, pmm, pmm.bitmap
      ensures Valid() && Grew(old(mem), old(at), mem, at, kernelPml4, pml4)
      ensures PtOf(mem, pml4, p) == Table(pt)
      ensures Nodes(at, pml4) == old(Nodes(at, pml4)) + Tables(p)
      ensures pmm.used - at.Keys == old(pmm.used - at.Keys) && old(pmm.used) <= pmm.used
      ensures pmm.FreeCount() == old(pmm.FreeCount()) - old(Missing(mem, pml4, p))
    {
      assert PlaceOk(mem, at, kernelPml4, pml4);
      ghost var m0, a0, n0 := mem, at, Nodes(at, pml4);
      WayDown(mem, at, kernelPml4, pml4, p, 0, pml4);
      var pdpt := Create(pml4, p, 0, pml4);
      ghost var m1, a1, n1 := mem, at, Nodes(at, pml4);
      WayDown(mem, at, kernelPml4, pml4, p, 1, pdpt);
      var pd := Create(pml4, p, 1, pdpt);
      ghost var m2, a2, n2 := mem, at, Nodes(at, pml4);
      WayDown(mem, at, kernelPml4, pml4, p, 2, pd);
      pt := Create(pml4, p, 2, pd);
      ThreeTables(p, n0, n1, n2, Nodes(at, pml4));
      GrewTransitive(m0, a0, m1, a1, m2, a2, kernelPml4, pml4);
      GrewTransitive(m0, a0, m2, a2, mem, at, kernelPml4, pml4);
    }

    /** `vmm_unmap_page_in`: the matching delete. */
    method UnmapPageIn(pml4: nat, virt: nat)
      requires Valid() && IsRoot(at, pml4) && PrivatePage(kernelPml4, pml4, PageOf(virt))
      requires NoHuge(mem, pml4, PageOf(virt))
      modifies this`mem, this`at
      ensures Valid()
      ensures Remapped(old(mem), old(at), mem, kernelPml4, pml4, PageOf(virt), Unmapped)
      ensures BorrowedKept(old(mem), old(at), mem, kernelPml4) && (forall q :: IsRoot(at, q) <==> IsRoot(old(at), q))
      ensures pml4 != kernelPml4 ==>
                Owned(at, pml4) == old(Owned(at, pml4)) - Displaced(old(Lookup(mem, pml4, PageOf(virt))))
      ensures forall q | q != pml4 || pml4 == kernelPml4 :: Owned(at, q) == old(Owned(at, q))
    {
      var p := PageOf(virt);
      Walk(mem, at, kernelPml4, pml4, p);
      ghost var k := kernelPml4;
      if Lookup(mem, pml4, p) == Unmapped {
        AlreadyUnmapped(mem, at, k, pml4, p);
      }
      var pdpt := Follow(pml4, p.i4);
      if pdpt == 0 { return; }
      var pd := Follow(pdpt, p.i3);
      if pd == 0 { return; }
      var pt := Follow(pd, p.i2);
      if pt == 0 { assert !Ent(mem, pd, p.i2).present by { PtNotZero(pml4, p); } return; }
      WalkPt(mem, at, k, pml4, p);
      Depths(p);
      SetLeafOwned(mem, at, k, pt, p.i1, ABSENT);
      SetLeaf(pml4, p, pt, ABSENT);
    }

    /** No table is frame 0, so next_level's 0 always means absent. */
    lemma PtNotZero(pml4: nat, p: Page)
      requires Valid() && IsRoot(at, pml4) && InRange(p)
      ensures PtOf(mem, pml4, p) != Table(0)
    {
      if PtOf(mem, pml4, p).Table? {
        WalkPt(mem, at, kernelPml4, pml4, p);
      }
    }

    /** `vmm_get_phys_in`: the translation of `virt`, in any space, through small or 2 MB pages. */
    method GetPhysIn(pml4: nat, virt: nat) returns (phys: nat)
      requires Valid() && IsRoot(at, pml4)
      ensures phys == Translate(mem, pml4, virt)
    {
      var p := PageOf(virt);
      Walk(mem, at, kernelPml4, pml4, p);
      var pdpt := Follow(pml4, p.i4);
      if pdpt == 0 { return 0; }
      var pd := Follow(pdpt, p.i3);
      if pd == 0 { return 0; }
      var pdEntry := mem[pd][p.i2];
      if !pdEntry.present { return 0; }
      if pdEntry.huge {
        HugeOffset(virt);
        return pdEntry.frame * FRAME_SIZE + virt % 0x20_0000;
      }
      WalkPt(mem, at, kernelPml4, pml4, p);
      var ptEntry := mem[pdEntry.frame][p.i1];
      if !ptEntry.present { return 0; }
      return ptEntry.frame * FRAME_SIZE + virt % FRAME_SIZE;
    }

    /** `vmm_create_address_space`: an empty user half over the kernel's current upper half. */
    method CreateAddressSpace() returns (pml4: nat)
      requires Valid() && 1 <= pmm.FreeCount()
      modifies this`mem, this`at, pmm, pmm.bitmap
      ensures Valid()
      ensures pml4 !in old(pmm.used) && pml4 !in old(at) && pmm.used == old(pmm.used) + {pml4}
      ensures at == old(at)[pml4 := Place(pml4, Top, pml4)]
      ensures forall q, p :: IsRoot(old(at), q) && InRange(p) ==> Lookup(mem, q, p) == old(Lookup(mem, q, p))
      ensures forall p :: InRange(p) ==>
                Lookup(mem, pml4, p) == if p.i4 < 256 then Unmapped else old(Lookup(mem, kernelPml4, p))
      ensures forall i: nat :: 256 <= i < 512 ==> Ent(mem, pml4, i) == Ent(mem, kernelPml4, i)
    {
      FreeFrameExists(pmm.used, pmm.totalFrames);
      var addr := pmm.AllocFrame();
      pml4 := addr / FRAME_SIZE;
      ghost var m0, k := mem, kernelPml4;
      assert PlaceOk(mem, at, k, k);
      var dst := EmptyTable();
      for i := 256 to 512
        invariant |dst| == 512
        invariant forall j :: 0 <= j < 512 ==> dst[j] == if 256 <= j < i then mem[k][j] else ABSENT
      {
        dst := dst[i := mem[kernelPml4][i]];
      }
      assert dst == NewRoot(mem, k);
      AddRootInv(mem, at, k, pml4);
      forall q, p | InRange(p)
        ensures IsRoot(at, q) ==> Lookup(m0[pml4 := dst], q, p) == Lookup(m0, q, p)
        ensures Lookup(m0[pml4 := dst], pml4, p) == if p.i4 < 256 then Unmapped else Lookup(m0, k, p)
      {
        AddRootLookup(mem, at, k, pml4, q, p);
      }
      mem := mem[pml4 := dst];
      at := at[pml4 := Place(pml4, Top, pml4)];
    }

    /** Table `t` at depth `d` of some process space can be taken down. */
    ghost predicate CanFree(t: nat, d: nat)
      reads this, pmm, pmm.bitmap
    {
      pmm.Valid() && Inv(mem, at, kernelPml4) && t in at && at[t].root != kernelPml4 && d <= 3 && Depth(at[t].path) == d
    }

    /** One table of the teardown nest, at depth 1 to 3: free everything below it, then
        itself. Each frame is still used when it is freed, so none is freed twice. */
    method FreeTable(t: nat, d: nat) returns (freed: nat)
      requires CanFree(t, d) && 1 <= d && Sub(at, at[t].root, at[t].path) <= pmm.used
      modifies pmm, pmm.bitmap
      ensures pmm.Valid()
      ensures pmm.used == old(pmm.used) - Sub(at, at[t].root, at[t].path)
      ensures freed == |Sub(at, at[t].root, at[t].path)|
      decreases 3 - d, 2
    {
      ghost var below, all, u0 := Slice(at, at[t].root, at[t].path, 512), Sub(at, at[t].root, at[t].path), pmm.used;
      SubSplits(mem, at, kernelPml4, t);
      freed := FreeChildren(t, d);
      assert t in pmm.used;
      pmm.FreeFrame(t * FRAME_SIZE);
      freed := freed + 1;
      assert all == below + {t} && u0 - below - {t} == u0 - all;
    }

    /** The loop over a table's 512 entries. */
    method FreeChildren(t: nat, d: nat) returns (freed: nat)
      requires CanFree(t, d) && 1 <= d && Sub(at, at[t].root, at[t].path) <= pmm.used
      modifies pmm, pmm.bitmap
      ensures pmm.Valid()
      ensures pmm.used == old(pmm.used) - Slice(at, at[t].root, at[t].path, 512)
      ensures freed == |Slice(at, at[t].root, at[t].path, 512)|
      decreases 3 - d, 1
    {
      ghost var a, r, p, u0 := at, at[t].root, at[t].path, pmm.used;
      ghost var whole, done := Sub(a, r, p), Slice(a, r, p, 0);
      SliceEmpty(a, r, p);
      freed := 0;
      for i := 0 to 512
        invariant CanFree(t, d) && done == Slice(a, r, p, i) && pmm.used == u0 - done && freed == |done|
      {
        ghost var below := Sub(a, r, Step(p, i));
        SliceNext(mem, a, kernelPml4, t, i);
        BelowIsSub(a, r, p, i);
        FreedMore(u0, whole, done, below);
        var n := FreeChild(t, d, i);
        freed := freed + n;
        done := done + below;
      }
    }

    /** One iteration of a teardown loop: what entry `i` of a table at depth `d` points to. */
    method FreeChild(t: nat, d: nat, i: nat) returns (freed: nat)
      requires CanFree(t, d) && Private(at, kernelPml4, t, i) && Sub(at, at[t].root, Step(at[t].path, i)) <= pmm.used
      modifies pmm, pmm.bitmap
      ensures pmm.Valid()
      ensures pmm.used == old(pmm.used) - Sub(at, at[t].root, Step(at[t].path, i))
      ensures freed == |Sub(at, at[t].root, Step(at[t].path, i))|
      decreases 3 - d, 0
    {
      assert PlaceOk(mem, at, kernelPml4, t);
      SliceNext(mem, at, kernelPml4, t, i);
      var e := mem[t][i];
      if !e.present || (d < 3 && e.huge) {
        return 0;
      }
      assert e.frame in pmm.used;
      if d < 3 {
        freed := FreeTable(e.frame, d + 1);
      } else {
        LeafAlone(mem, at, kernelPml4, e.frame);
        pmm.FreeFrame(e.frame * FRAME_SIZE);
        freed := 1;
      }
    }

    /** One slot of the teardown's outer loop: free what it points to and clear it. */
    method FreeSlot(pml4: nat, i: nat) returns (freed: nat)
      requires Valid() && IsRoot(at, pml4) && pml4 != kernelPml4 && i < 256
      modifies this`mem, this`at, pmm, pmm.bitmap
      ensures Valid()
      ensures at == old(at) - Sub(old(at), pml4, Step(Top, i))
      ensures pmm.used == old(pmm.used) - Sub(old(at), pml4, Step(Top, i))
      ensures freed == |Sub(old(at), pml4, Step(Top, i))|
      ensures SameElsewhere(old(mem), old(at), mem, pml4)
      ensures forall t | t in old(mem) && t != pml4 :: t in mem && mem[t] == old(mem)[t]
    {
      ghost var m0, a0, k := mem, at, kernelPml4;
      assert PlaceOk(mem, at, k, pml4);
      SliceNext(mem, at, k, pml4, i);
      freed := 0;
      if mem[pml4][i].present {
        freed := FreeChild(pml4, 0, i);
        PruneInv(mem, at, k, pml4, i);
        forall q, p | IsRoot(at, q) && q != pml4 && InRange(p)
          ensures Lookup(Write(m0, pml4, i, ABSENT), q, p) == Lookup(m0, q, p)
        {
          ClearSlotLookup(mem, at, k, pml4, i, q, p);
        }
        at := at - Sub(at, pml4, Step(Top, i));
        mem := Write(mem, pml4, i, ABSENT);
      }
      assert at == a0 - Sub(a0, pml4, Step(Top, i));
    }

    /** `vmm_destroy_address_space`: unless `pml4` is the kernel's or the active one, free
        exactly the frames the space owns, each once, and leave every other space alone. */
    method DestroyAddressSpace(pml4: nat) returns (freed: nat)
      requires Valid() && IsRoot(at, pml4)
      modifies this`mem, this`at, pmm, pmm.bitmap
      ensures Valid()
      ensures pml4 == kernelPml4 || pml4 == cr3 ==>
                freed == 0 && mem == old(mem) && at == old(at) && pmm.used == old(pmm.used)
      ensures pml4 != kernelPml4 && pml4 != cr3 ==>
                && freed == |old(Owned(at, pml4))|
                && old(Owned(at, pml4)) <= old(pmm.used)
                && pmm.used == old(pmm.used) - old(Owned(at, pml4))
                && pmm.usedFrames == old(pmm.usedFrames) - freed
                && at == old(at) - old(Owned(at, pml4))
      ensures SameElsewhere(old(mem), old(at), mem, pml4)
    {
      if pml4 == kernelPml4 || pml4 == cr3 {
        return 0;
      }
      freed := FreeUserHalf(pml4);
      DropRootInv(mem, at, kernelPml4, pml4);
      pmm.FreeFrame(pml4 * FRAME_SIZE);
      freed := freed + 1;
      at := at - {pml4};
    }

    /** The outer loop, over the 256 slots of the user half. */
    method FreeUserHalf(pml4: nat) returns (freed: nat)
      requires Valid() && IsRoot(at, pml4) && pml4 != kernelPml4
      modifies this`mem, this`at, pmm, pmm.bitmap
      ensures Valid()
      ensures pml4 in old(Owned(at, pml4)) && freed == |old(Owned(at, pml4)) - {pml4}|
      ensures at == old(at) - (old(Owned(at, pml4)) - {pml4})
      ensures pmm.used == old(pmm.used) - (old(Owned(at, pml4)) - {pml4})
      ensures SameElsewhere(old(mem), old(at), mem, pml4)
    {
      ghost var m0, a0, u0, k := mem, at, pmm.used, kernelPml4;
      ghost var done := Slice(a0, pml4, Top, 0);
      SliceEmpty(a0, pml4, Top);
      freed := 0;
      for i := 0 to 256
        invariant Valid() && IsRoot(at, pml4)
        invariant done == Slice(a0, pml4, Top, i) && freed == |done|
        invariant at == a0 - done && pmm.used == u0 - done
        invariant SameElsewhere(m0, a0, mem, pml4)
      {
        ghost var below := Sub(a0, pml4, Step(Top, i));
        SlotsDisjoint(a0, at, pml4, i, done);
        FreedMore(u0, a0.Keys, done, below);
        ghost var m1, a1 := mem, at;
        var n := FreeSlot(pml4, i);
        freed := freed + n;
        SameStill(m0, a0, m1, a1, mem, pml4, done);
        done := done + below;
      }
      WholeUserHalf(m0, a0, k, pml4);
    }

    /** `vmm_user_range_ok`: true exactly when Ring 3 may access every byte of the range. */
    method UserRangeOk(pml4: nat, va: nat, len: nat, write: bool) returns (ok: bool)
      requires va < TWO64 && len < TWO64
      ensures ok <==> UserRange(mem, pml4, va, len, write)
    {
      if len == 0 { return true; }
      var end := (va + len) % TWO64;
      if end < va { return false; }
      if end > USER_SPACE_END { return false; }
      var page := va / FRAME_SIZE * FRAME_SIZE;
      while page < end
        invariant page % FRAME_SIZE == 0 && va < page + FRAME_SIZE
        invariant AllowedUpTo(mem, pml4, va, page, write)
      {
        var allowed := PageAllowed(pml4, page, write);
        if !allowed {
          PageRefused(mem, pml4, va, len, page, write);
          return false;
        }
        PageExtends(mem, pml4, va, page, page + FRAME_SIZE, write);
        page := page + FRAME_SIZE;
      }
      RangeAllowed(mem, pml4, va, len, page, write);
      return true;
    }

    /** The four-level check of one page. */
    method PageAllowed(pml4: nat, page: nat, write: bool) returns (ok: bool)
      ensures ok <==> Accessible(mem, pml4, page, write)
    {
      var p := PageOf(page);
      var e := Ent(mem, pml4, p.i4);
      if !Grants(e, write) { return false; }
      e := Ent(mem, e.frame, p.i3);
      if !Grants(e, write) { return false; }
      if e.huge { return true; }
      e := Ent(mem, e.frame, p.i2);
      if !Grants(e, write) { return false; }
      if e.huge { return true; }
      e := Ent(mem, e.frame, p.i1);
      return Grants(e, write);
    }
  }
}
