/** Whole runs of maps and unmaps over any number of address spaces: each space's
    translations follow its own history, and the kernel half is shared exactly through
    the PML4 slots a space was created with (kernel/mm/vmm.c). */
module Isolation {
  import opened Paging
  import opened Pmm
  import opened Vmm
  import VmmInit

  /** The page tables and who owns what. */
  datatype State = State(mem: Memory, at: Places)

  /** A map (or, with Unmapped, an unmap) of page `p` in space `r`. */
  datatype Event = Remap(r: nat, p: Page, m: Mapping)

  /** One call, as the contracts of MapPageIn and UnmapPageIn describe it. */
  ghost predicate Performs(k: nat, s: State, e: Event, t: State) {
    && Inv(s.mem, s.at, k) && Inv(t.mem, t.at, k)
    && IsRoot(s.at, e.r) && PrivatePage(k, e.r, e.p)
    && (forall q :: IsRoot(t.at, q) <==> IsRoot(s.at, q))
    && Remapped(s.mem, s.at, t.mem, k, e.r, e.p, e.m)
    && BorrowedKept(s.mem, s.at, t.mem, k)
  }

  ghost predicate Run(k: nat, states: seq<State>, events: seq<Event>) {
    && |states| == |events| + 1
    && forall i :: 0 <= i < |events| ==> Performs(k, states[i], events[i], states[i + 1])
  }

  /** Space `q` was created when the kernel's PML4 slot for `p` was present. */
  predicate Shares(mem: Memory, q: nat, p: Page) {
    p.i4 >= 256 && Ent(mem, q, p.i4).present
  }

  /** What the first `n` events say page `p` of space `q` translates to: the last event on
      that page in that space, or in the kernel's space if the slot is shared. */
  function Expected(k: nat, start: Memory, events: seq<Event>, n: nat, q: nat, p: Page): Mapping
    requires n <= |events|
  {
    if n == 0 then Lookup(start, q, p)
    else
      var e := events[n - 1];
      if e.p == p && (e.r == q || (e.r == k && Shares(start, q, p))) then e.m
      else Expected(k, start, events, n - 1, q, p)
  }

  /** Every run refines its history, at every moment, for every space and every page. */
  lemma {:induction false} RunRefinesHistory(k: nat, states: seq<State>, events: seq<Event>, n: nat, q: nat, p: Page)
    requires Run(k, states, events) && n <= |events| && IsRoot(states[0].at, q) && InRange(p)
    ensures && IsRoot(states[n].at, q)
            && Lookup(states[n].mem, q, p) == Expected(k, states[0].mem, events, n, q, p)
            && (q != k && p.i4 >= 256 ==> Ent(states[n].mem, q, p.i4) == Ent(states[0].mem, q, p.i4))
  {
    if n != 0 {
      RunRefinesHistory(k, states, events, n - 1, q, p);
      assert Performs(k, states[n - 1], events[n - 1], states[n]);
      OneEvent(k, states[n - 1], events[n - 1], states[n], q, p);
      if q == k && p.i4 >= 256 {
        assert events[n - 1].r == k ==> Sees(states[n - 1].mem, k, k, p, q);
      }
    }
  }

  lemma OneEvent(k: nat, s: State, e: Event, t: State, q: nat, p: Page)
    requires Performs(k, s, e, t) && IsRoot(s.at, q) && InRange(p)
    ensures IsRoot(t.at, q)
    ensures Lookup(t.mem, q, p) ==
            if e.p == p && (e.r == q || (e.r == k && Shares(s.mem, q, p))) then e.m else Lookup(s.mem, q, p)
    ensures q != k && p.i4 >= 256 ==> Ent(t.mem, q, p.i4) == Ent(s.mem, q, p.i4)
  {}

  /** Isolation: nothing done in other spaces' user halves reaches space `q`. */
  lemma {:induction false} OthersDoNotReach(k: nat, states: seq<State>, events: seq<Event>, q: nat, p: Page)
    requires Run(k, states, events) && IsRoot(states[0].at, q) && InRange(p)
    requires forall i | 0 <= i < |events| :: events[i].r != q && events[i].p.i4 < 256
    ensures Lookup(states[|events|].mem, q, p) == Lookup(states[0].mem, q, p)
  {
    RunRefinesHistory(k, states, events, |events|, q, p);
    ExpectedUntouched(k, states[0].mem, events, |events|, q, p);
  }

  lemma {:induction false} ExpectedUntouched(k: nat, start: Memory, events: seq<Event>, n: nat, q: nat, p: Page)
    requires n <= |events| && forall i | 0 <= i < |events| :: events[i].r != q && events[i].p.i4 < 256
    ensures Expected(k, start, events, n, q, p) == Lookup(start, q, p)
  {
    if n != 0 {
      ExpectedUntouched(k, start, events, n - 1, q, p);
    }
  }

  /** Sharing, exactly: throughout any run a process translates a kernel-half page as the
      kernel does if its slot was present when the process was created, and otherwise not
      at all, whatever the kernel maps there. */
  lemma KernelHalfShared(k: nat, states: seq<State>, events: seq<Event>, q: nat, p: Page)
    requires Run(k, states, events) && IsRoot(states[0].at, q) && q != k && InRange(p) && p.i4 >= 256
    requires Inv(states[0].mem, states[0].at, k)
    ensures var end := states[|events|].mem;
            Lookup(end, q, p) == if Shares(states[0].mem, q, p) then Lookup(end, k, p) else Unmapped
  {
    RunRefinesHistory(k, states, events, |events|, q, p);
    var end := states[|events|];
    if |events| != 0 {
      assert Performs(k, states[|events| - 1], events[|events| - 1], end);
    }
    if Shares(states[0].mem, q, p) {
      SeesAlike(end.mem, end.at, k, k, p, q);
    }
  }

  /** So a mapping that the kernel adds under a slot it did not have before stays invisible
      to a process created earlier: the two spaces disagree from then on. */
  lemma LateSlotIsNotShared(k: nat, states: seq<State>, events: seq<Event>, q: nat, p: Page)
    requires Run(k, states, events) && IsRoot(states[0].at, q) && q != k && InRange(p) && p.i4 >= 256
    requires Inv(states[0].mem, states[0].at, k)
    ensures var end := states[|events|].mem;
            Lookup(end, k, p).Mapped? ==>
              (Lookup(end, q, p) == Lookup(end, k, p) <==> Shares(states[0].mem, q, p))
  {
    KernelHalfShared(k, states, events, q, p);
  }

  // ---- a slot that comes too late ----

  /** The HHDM address of a device at physical 512 GB. It lies under slot 257 of the PML4. */
  const DEVICE: nat := 0x80_0000_0000
  const DEVICE_VIRT: nat := 0xFFFF_8080_0000_0000

  function DevicePage(): Page { Page(257, 0, 0, 0) }

  lemma DevicePageIs()
    ensures PageOf(DEVICE_VIRT) == DevicePage()
  {}

  /** The kernel maps a device under a slot that a process was created without, as
      vmm_map_mmio does for one above the end of RAM: the kernel sees it, the process does
      not. */
  method MapDeviceLate(vmm: AddressSpaces) returns (process: nat)
    requires vmm.Valid() && 4 <= vmm.pmm.FreeCount() && !Ent(vmm.mem, vmm.kernelPml4, DevicePage().i4).present
    modifies vmm`mem, vmm`at, vmm.pmm, vmm.pmm.bitmap
    ensures vmm.Valid() && IsRoot(vmm.at, process)
    ensures Lookup(vmm.mem, vmm.kernelPml4, DevicePage()) == Mapped(DEVICE / FRAME_SIZE, true, false)
    ensures Lookup(vmm.mem, process, DevicePage()) == Unmapped
  {
    DevicePageIs();
    ghost var m0, a0 := vmm.mem, vmm.at;
    process := vmm.CreateAddressSpace();
    SlotStaysAbsent(m0, a0, vmm.mem, vmm.at, vmm.kernelPml4, process, DevicePage().i4);
    vmm.MapPageIn(vmm.kernelPml4, DEVICE_VIRT, DEVICE, true, false);
  }

  /** A new space adds no slot to the kernel's. */
  lemma SlotStaysAbsent(m0: Memory, a0: Places, m1: Memory, a1: Places, k: nat, q: nat, i: nat)
    requires Inv(m0, a0, k) && Inv(m1, a1, k) && q !in a0 && a1 == a0[q := Place(q, Top, q)]
    requires i < 512 && !Ent(m0, k, i).present
    ensures !Ent(m1, k, i).present
  {
    assert EntryOk(m1, a1, k, k, i) && PlaceOk(m1, a1, k, k);
    forall f | f in a0
      ensures a0[f] != Place(k, Step(Top, i), k)
    {
      assert PlaceOk(m0, a0, k, f);
    }
  }

  /** The same on a machine that has just booted, with at most 512 GB of RAM. */
  method BootAndMapDevice(pmm: FrameAllocator, ksize: nat) returns (vmm: AddressSpaces, process: nat)
    requires pmm.Valid() && 0 in pmm.used && VmmInit.LayoutOk(pmm.totalFrames, ksize) && pmm.totalFrames <= VmmInit.SLOT
    requires 5 + |VmmInit.InitTables(pmm.totalFrames, ksize)| <= pmm.FreeCount()
    modifies pmm, pmm.bitmap
    ensures fresh(vmm) && vmm.Valid() && IsRoot(vmm.at, process)
    ensures Lookup(vmm.mem, vmm.kernelPml4, DevicePage()) == Mapped(DEVICE / FRAME_SIZE, true, false)
    ensures Lookup(vmm.mem, process, DevicePage()) == Unmapped
  {
    vmm := VmmInit.Init(pmm, ksize, 4);
    VmmInit.SlotsInUse(vmm.mem, vmm.at, vmm.kernelPml4, pmm.totalFrames, ksize, DevicePage().i4);
    process := MapDeviceLate(vmm);
  }
}
