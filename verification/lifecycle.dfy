/** The life of a process (spawn_user_process in kernel/main.c, task_reap in
    kernel/sched/sched.c): everything it takes is given back. */
module Lifecycle {
  import opened Elf
  import opened Heap
  import opened HeapBlocks
  import opened Packed
  import opened Paging
  import opened Pmm
  import opened Sched
  import SchedRing
  import opened Vmm
  import opened Worlds

  const USER_STACK_VADDR: nat := 0x2_0000_0000

  function StackPage(): (p: Page)
    ensures InRange(p) && p.i4 < 256
  {
    Page(0, 8, 0, 0)
  }

  lemma StackPageIs()
    ensures PageOf(USER_STACK_VADDR) == StackPage()
  {}

  /** Some byte of a PT_LOAD segment lies in the page of the user stack. */
  ghost predicate TouchesStack(segs: seq<Segment>) {
    exists i, v: nat :: 0 <= i < |segs| && Covers(segs[i], v) && PageOf(v) == StackPage()
  }

  // ---- which nodes an image has ----

  /** A leaf is among the nodes of an image exactly when a segment has a byte in its page. */
  lemma {:induction false} LeafInImage(segs: seq<Segment>, n: nat, p: Page)
    requires n <= |segs|
    ensures Path4(p) in ImagePaths(segs, n) <==> exists i, v: nat :: 0 <= i < n && Covers(segs[i], v) && PageOf(v) == p
  {
    if n > 0 {
      LeafInImage(segs, n - 1, p);
      LeafInSegment(segs[n - 1], p);
    }
  }

  lemma LeafInSegment(s: Segment, p: Page)
    ensures Path4(p) in SegmentPaths(s) <==> exists v: nat :: Covers(s, v) && PageOf(v) == p
  {
    if s.load {
      LeafInRange(s.vaddr, s.memsz, p);
      if HasByte(s.vaddr, s.memsz, p) {
        var v: nat :| s.vaddr <= v < s.vaddr + s.memsz && OnPage(v, p);
        assert Covers(s, v) && PageOf(v) == p;
      }
      forall v: nat | Covers(s, v) && PageOf(v) == p
        ensures HasByte(s.vaddr, s.memsz, p)
      {
        assert OnPage(v, p);
      }
    }
  }

  predicate OnPage(v: nat, p: Page) { PageOf(v) == p }

  /** Some of the `n` bytes from `from` on lie in page `p`. */
  ghost predicate HasByte(from: nat, n: nat, p: Page) {
    exists v: nat :: from <= v < from + n && OnPage(v, p)
  }

  lemma HasByteNext(from: nat, n: nat, p: Page, last: nat)
    requires n > 0 && last == from + n - 1
    ensures HasByte(from, n, p) <==> HasByte(from, n - 1, p) || OnPage(last, p)
  {
    if OnPage(last, p) {
      assert from <= last < from + n;
    }
  }

  lemma {:induction false} LeafInRange(from: nat, n: nat, p: Page)
    ensures Path4(p) in RangePaths(from, n) <==> HasByte(from, n, p)
  {
    if n > 0 {
      var last := from + n - 1;
      LeafInRange(from, n - 1, p);
      HasByteNext(from, n, p, last);
      LeafOf(last, p);
      assert RangePaths(from, n) == RangePaths(from, n - 1) + PathsTo(last);
    }
  }

  lemma LeafOf(v: nat, p: Page)
    ensures Path4(p) in PathsTo(v) <==> OnPage(v, p)
  {
    Depths(p);
    Depths(PageOf(v));
  }

  // ---- the frames an image needs ----

  /** A path below the stack's leaf: never a node, it stands for the frame that a stack
      page displaces without giving it back. */
  function Spare(): Path { Step(Path4(StackPage()), 0) }

  /** The nodes a program needs besides its PML4: those of its segments, and, if it is going
      to run, those of its stack. */
  ghost function Needs(image: seq<Elf.Byte>): set<Path>
    requires Loadable(image)
  {
    if !HeaderOk(image) then {}
    else
      var segs := Segments(image);
      var paths := ImagePaths(segs, |segs|);
      if Entry64(image) == 0 then paths
      else paths + Prefixes(StackPage()) + (if TouchesStack(segs) then {Spare()} else {})
  }

  // ---- all spaces at once ----

  ghost function AllSpaces(m: Mark): map<nat, Space> {
    map q | q in m.at && m.at[q].path == Top :: SpaceOf(m, q)
  }

  /** `m1` is `m0` with one more space, empty in its user half. */
  ghost predicate Created(m0: Mark, m1: Mark, k: nat, r: nat) {
    && Inv(m0.mem, m0.at, k) && r !in m0.used && m0.at.Keys <= m0.used
    && m1.at == m0.at[r := Place(r, Top, r)] && m1.used == m0.used + {r}
    && SameElsewhere(m0.mem, m0.at, m1.mem, r)
    && (forall p :: InRange(p) && p.i4 < 256 ==> Lookup(m1.mem, r, p) == Unmapped)
  }

  lemma CreatedOwned(m0: Mark, m1: Mark, k: nat, r: nat)
    requires Created(m0, m1, k, r)
    ensures Process(m1, k, r) && Owned(m1.at, r) == {r} && Nodes(m1.at, r) == {Top}
    ensures forall q | q != r :: Owned(m1.at, q) == Owned(m0.at, q)
  {
    forall f | f in m0.at
      ensures m0.at[f].root != r
    {
      assert PlaceOk(m0.mem, m0.at, k, f);
    }
    assert Owned(m1.at, r) == {r};
    assert r in m1.at && m1.at[r].root == r && m1.at[r].path == Top;
    assert Nodes(m1.at, r) == {Top};
  }

  /** Right after its creation a space owns its PML4 and the rest of the world is as it was. */
  lemma CreatedRest(m0: Mark, m1: Mark, k: nat, r: nat)
    requires Created(m0, m1, k, r)
    ensures RestOf(m1, r) == Rest(AllSpaces(m0), m0.used)
  {
    CreatedOwned(m0, m1, k, r);
    var x, y := AllSpaces(m0), RestOf(m1, r).spaces;
    forall q: nat
      ensures q in x <==> q in y
      ensures q in x ==> x[q] == y[q]
    {
      if q in x {
        SameView(m0, m1, q, r);
      }
    }
    SameMap(x, y);
    assert m0.used + {r} - {r} == m0.used;
  }

  /** After a teardown the world is what it was without the space. */
  lemma DestroyedRest(m0: Mark, m1: Mark, k: nat, r: nat)
    requires Inv(m0.mem, m0.at, k) && IsRoot(m0.at, r)
    requires m1.at == m0.at - Owned(m0.at, r) && m1.used == m0.used - Owned(m0.at, r)
    requires SameElsewhere(m0.mem, m0.at, m1.mem, r)
    ensures Rest(AllSpaces(m1), m1.used) == RestOf(m0, r)
  {
    var x, y := RestOf(m0, r).spaces, AllSpaces(m1);
    forall q: nat
      ensures q in x <==> q in y
      ensures q in x ==> x[q] == y[q]
    {
      if q in m0.at && m0.at[q].path == Top {
        assert PlaceOk(m0.mem, m0.at, k, q);
        assert PlaceOk(m0.mem, m0.at, k, r);
        if q != r {
          assert Owned(m1.at, q) == Owned(m0.at, q);
          SameView(m0, m1, q, r);
        }
      }
    }
    SameMap(x, y);
  }

  /** A program is in place in a new space `r`, and the rest of the world is as at `m0`. */
  ghost predicate ProgramIn(m0: Mark, m: Mark, ram: Ram, free: int, k: nat, r: nat, image: seq<Elf.Byte>)
    requires Loadable(image) && HeaderOk(image)
  {
    && Process(m, k, r) && RestOf(m, r) == Rest(AllSpaces(m0), m0.used)
    && Nodes(m.at, r) == {Top} + ImagePaths(Segments(image), PhCount(image))
    && Loaded(m.mem, ram, r, image, Segments(image), PhCount(image))
    && Room(Needs(image), Nodes(m.at, r), free)
  }

  /** Outside the stack page every address of a segment reads as the image says. The stack
      page is there, and the program may read and write all of its pages. */
  ghost predicate InMemory(mem: Memory, ram: Ram, r: nat, image: seq<Elf.Byte>)
    requires Loadable(image) && HeaderOk(image)
  {
    && AllUserRw(mem, r) && Accessible(mem, r, USER_STACK_VADDR, true)
    && forall v: nat :: v < USER_SPACE_END && OffStack(v) ==> ReadsAs(mem, ram, r, v, ByteAt(image, Segments(image), PhCount(image), v))
  }

  predicate OffStack(v: nat) { PageOf(v) != StackPage() }

  predicate ReadsAs(mem: Memory, ram: Ram, r: nat, v: nat, b: Maybe) {
    b.Just? ==> Read(mem, ram, r, v) == b
  }

  lemma ReadOffStack(m0: Memory, mem: Memory, ram: Ram, r: nat, v: nat)
    requires OnlyPage(m0, mem, r, StackPage()) && OffStack(v)
    ensures Read(mem, ram, r, v) == Read(m0, ram, r, v)
  {}

  /** The same in bytes of the file: off the stack page, below p_filesz a segment reads as the
      image from p_offset on, and from there to p_memsz as zero. */
  ghost predicate FileOffStack(mem: Memory, ram: Ram, r: nat, image: seq<Elf.Byte>)
    requires Loadable(image) && HeaderOk(image)
  {
    var segs := Segments(image);
    forall i, v: nat :: 0 <= i < |segs| && LastAt(segs, i, v) && OffStack(v) ==>
      var b := v - segs[i].vaddr;
      Read(mem, ram, r, v) == Just(if b < segs[i].filesz then image[segs[i].offset + b] else 0)
  }

  lemma InMemoryIsFile(mem: Memory, ram: Ram, r: nat, image: seq<Elf.Byte>)
    requires Loadable(image) && HeaderOk(image) && InMemory(mem, ram, r, image)
    ensures FileOffStack(mem, ram, r, image)
  {
    var segs := Segments(image);
    forall i, v: nat | 0 <= i < |segs| && LastAt(segs, i, v) && OffStack(v)
      ensures Read(mem, ram, r, v) == Just(SegmentByte(image, segs[i], v - segs[i].vaddr))
    {
      ByteOfLast(image, segs, |segs|, i, v);
      assert ReadsAs(mem, ram, r, v, ByteAt(image, segs, PhCount(image), v));
    }
  }

  /** Mapping the stack disturbs no byte outside its page. */
  lemma StackKeepsBytes(m0: Memory, mem: Memory, ram: Ram, r: nat, image: seq<Elf.Byte>)
    requires Loadable(image) && HeaderOk(image) && Loaded(m0, ram, r, image, Segments(image), PhCount(image))
    requires OnlyPage(m0, mem, r, StackPage()) && AllUserRw(mem, r)
    requires exists f :: Lookup(mem, r, StackPage()) == Mapped(f, true, true)
    ensures InMemory(mem, ram, r, image)
  {
    StackPageIs();
    forall v: nat | v < USER_SPACE_END && OffStack(v)
      ensures ReadsAs(mem, ram, r, v, ByteAt(image, Segments(image), PhCount(image), v))
    {
      ReadOffStack(m0, mem, ram, r, v);
    }
  }

  lemma NeedsImage(image: seq<Elf.Byte>)
    requires Loadable(image) && HeaderOk(image)
    ensures ImagePaths(Segments(image), PhCount(image)) <= Needs(image)
  {}

  lemma RoomAtStart(needs: set<Path>, free: int)
    requires |needs| <= free
    ensures Room(needs, {Top}, free)
  {
    SubsetSize(needs - {Top}, needs);
  }

  // ---- from the kernel's state to the world ----

  /** Frames are owned by at most one space, and owned frames are in use. */
  lemma SpacesTidy(m: Mark, live: set<Block>, held: seq<Held>)
    requires m.at.Keys <= m.used
    ensures Tidy(World(AllSpaces(m), m.used, live, held))
  {}

  /** Tasks are live heap blocks, and the active space is one of theirs. */
  lemma TasksAreLive(q: SchedRing.Queue, w: World, k: nat)
    requires SchedRing.Inv(q) && w.held == HeldBy(q) && Tenants(w, k)
    ensures q.cr3 in w.spaces
    ensures forall x | x in q.ring :: x in Payloads(w.live)
  {
    assert HeldOk(w, q.cur);
    forall i | 0 <= i < |q.ring|
      ensures q.ring[i] in Payloads(w.live)
    {
      assert HeldOk(w, i);
    }
  }

  /** A task other than the boot task has blocks and a space of its own, so its space is
      neither the kernel's nor, unless the task is current, the active one. */
  lemma HolderFacts(q: SchedRing.Queue, w: World, k: nat, i: nat)
    requires SchedRing.Inv(q) && w.held == HeldBy(q) && Tenants(w, k) && 0 < i < |q.ring| && i != q.cur
    ensures w.held[i].task in Payloads(w.live) && w.held[i].stack in Payloads(w.live) && w.held[i].task != w.held[i].stack
    ensures w.held[i].pml4 in w.spaces && w.held[i].pml4 != k && w.held[i].pml4 != q.cr3
  {
    assert HeldOk(w, i);
    assert Apart(w.held[0], w.held[i]);
    forall j | 0 <= j < |q.ring| && j != i
      ensures SchedRing.TaskAt(q, j).pml4 != SchedRing.TaskAt(q, i).pml4
    {
      assert w.held[j].pml4 == SchedRing.TaskAt(q, j).pml4;
      assert if j < i then Apart(w.held[j], w.held[i]) else Apart(w.held[i], w.held[j]);
    }
    SchedRing.ReapNotRefused(q, i);
  }

  /** The stack for interrupts from Ring 3, `rsp0`, is the one of the task at position `i`: for
      any but the boot task, the aligned end of 16 KB inside a live heap block of its own. */
  ghost predicate OwnTop(w: World, i: nat, rsp0: nat) {
    && i < |w.held| && rsp0 == w.held[i].top
    && (i > 0 ==>
          var stack := w.held[i].stack;
          && stack in Payloads(w.live) && Roomy(w.live, stack, STACK_SIZE)
          && rsp0 % 16 == 0 && stack + STACK_SIZE - 16 < rsp0 <= stack + STACK_SIZE)
  }

  lemma Rsp0IsOwnTop(q: SchedRing.Queue, w: World, k: nat)
    requires SchedRing.Inv(q) && w.held == HeldBy(q) && Tenants(w, k)
    ensures OwnTop(w, q.cur, q.rsp0)
  {
    assert HeldOk(w, q.cur);
  }

  lemma AtPosition(q: SchedRing.Queue, w: World, k: nat, i: nat)
    requires SchedRing.Inv(q) && w.held == HeldBy(q) && Tenants(w, k) && 0 < i < |w.held|
    ensures i < |q.ring| && q.ring[i] == w.held[i].task && q.ring[i] in q.tasks
    ensures q.ring[i] != 0 && q.ring[i] != q.ring[0]
    ensures HasSpace(w, i)
  {
    assert HeldOk(w, i);
  }

  /** The live block with a payload address is the only one that has it. */
  lemma OnlyBlock(bs: seq<Block>, b: Block)
    requires Wf(bs) && b in Live(bs)
    ensures Without(Live(bs), {Payload(b)}) == Live(bs) - {b}
  {
    forall x | x in Live(bs) && x != b
      ensures Payload(x) != Payload(b)
    {
      BlocksDisjoint(bs, x, b);
    }
  }

  lemma WithoutBoth(live: set<Block>, x: nat, y: nat)
    ensures Without(Without(live, {x}), {y}) == Without(live, {y, x})
  {}

  /** The index of the live block with a given payload. */
  lemma LiveIndex(bs: seq<Block>, p: nat) returns (i: nat)
    requires p in Payloads(Live(bs))
    ensures i < |bs| && !bs[i].free && p == bs[i].addr + HEADER_SIZE
  {
    var b :| b in Live(bs) && Payload(b) == p;
    i :| 0 <= i < |bs| && bs[i] == b;
  }

  /** kmalloc can serve a task struct and then a kernel stack. */
  predicate HeapServes(bs: seq<Block>) {
    var c := MallocSpec(bs, TASK_BYTES);
    && FirstFit(bs, Align8(TASK_BYTES), 0) < |bs|
    && FirstFit(c, Align8(STACK_SIZE), 0) < |c|
  }

  lemma SpacesWithout(m: Mark, r: nat)
    ensures AllSpaces(m) - {r} == RestOf(m, r).spaces
  {}

  /** A new space next to the old ones, with a new task to hold it. */
  lemma SpawnedFrom(m0: Mark, m1: Mark, live0: set<Block>, live1: set<Block>, held: seq<Held>, h: Held, leak: set<nat>)
    requires IsRoot(m1.at, h.pml4) && RestOf(m1, h.pml4) == Rest(AllSpaces(m0), m0.used + leak) && leak !! m0.used
    requires Without(live1, {h.task, h.stack}) == live0
    ensures Spawned(World(AllSpaces(m0), m0.used, live0, held), World(AllSpaces(m1), m1.used, live1, held + [h]), leak)
  {
    var w1 := World(AllSpaces(m1), m1.used, live1, held + [h]);
    assert w1.held[|held|] == h;
    assert Drop(w1.held, |held|) == held;
    SpacesWithout(m1, h.pml4);
  }

  /** A space and its task's heap blocks taken away. */
  lemma ReapedTo(m0: Mark, m1: Mark, live0: set<Block>, live1: set<Block>, held: seq<Held>, i: nat)
    requires 0 < i < |held| && IsRoot(m0.at, held[i].pml4) && RestOf(m0, held[i].pml4) == Rest(AllSpaces(m1), m1.used)
    requires live1 == Without(live0, {held[i].task, held[i].stack})
    ensures Reaped(World(AllSpaces(m0), m0.used, live0, held), World(AllSpaces(m1), m1.used, live1, Drop(held, i)), i)
  {
    SpacesWithout(m0, held[i].pml4);
  }

  /** A task with new heap blocks and a new space shares nothing with the others. */
  lemma NewTenant(w0: World, w1: World, k: nat, h: Held, leak: set<nat>)
    requires Tenants(w0, k) && Tidy(w1) && Spawned(w0, w1, leak) && w1.held == w0.held + [h]
    requires h.task in Payloads(w1.live) && h.stack in Payloads(w1.live) && h.stack != h.task && h.stack != 0
    requires Roomy(w1.live, h.stack, STACK_SIZE) && TopOk(h.stack, h.top)
    ensures Tenants(w1, k)
  {
    var n, m := |w0.held|, Minus(w1, |w0.held|);
    assert w1.held[n] == h;
    forall i | 0 <= i < n
      ensures HeldOk(w1, i) && Apart(w1.held[i], h)
    {
      assert w1.held[i] == w0.held[i];
      assert HeldOk(w0, i);
    }
    assert HeldOk(w1, n);
    forall i, j | 0 <= i < j < |w1.held|
      ensures Apart(w1.held[i], w1.held[j])
    {
      if j < n { assert Apart(w0.held[i], w0.held[j]); }
    }
  }

  /** The run queue with a ready task at its end that holds `h`. */
  function Joined(q: SchedRing.Queue, id: nat, h: Held): SchedRing.Queue {
    SchedRing.Create(q, h.task, SchedRing.Task(id, SchedRing.Ready, h.pml4, h.top, h.stack))
  }

  /** The new task has an id of its own, higher than all others. */
  lemma JoinedIds(q: SchedRing.Queue, id: nat, h: Held)
    requires SchedRing.Inv(q) && SchedRing.IdsRise(q, id) && h.task !in q.ring
    ensures SchedRing.Inv(Joined(q, id, h)) && SchedRing.IdsRise(Joined(q, id, h), id + 1)
  {
    SchedRing.CreateIds(q, h.task, SchedRing.Task(id, SchedRing.Ready, h.pml4, h.top, h.stack), id);
  }

  lemma Adopted(m0: Mark, m1: Mark, w0: World, w1: World, k: nat, h: Held, leak: set<nat>)
    requires m1.at.Keys <= m1.used && leak !! m0.used
    requires IsRoot(m1.at, h.pml4) && RestOf(m1, h.pml4) == Rest(AllSpaces(m0), m0.used + leak)
    requires Tenants(w0, k) && w0.spaces == AllSpaces(m0) && w0.used == m0.used
    requires w1.spaces == AllSpaces(m1) && w1.used == m1.used && w1.held == w0.held + [h]
    requires Without(w1.live, {h.task, h.stack}) == w0.live
    requires h.task in Payloads(w1.live) && h.stack in Payloads(w1.live) && h.stack != h.task && h.stack != 0
    requires Roomy(w1.live, h.stack, STACK_SIZE) && TopOk(h.stack, h.top)
    ensures Spawned(w0, w1, leak) && Tenants(w1, k) && w1.held[|w0.held|] == h
  {
    SpawnedFrom(m0, m1, w0.live, w1.live, w0.held, h, leak);
    SpacesTidy(m1, w1.live, w1.held);
    NewTenant(w0, w1, k, h, leak);
  }

  /** What can happen between a spawn and the reap. */
  datatype Event = Switch | Finish

  /** The queue after the first `n` events. */
  ghost function Played(q: SchedRing.Queue, script: seq<Event>, n: nat): (p: SchedRing.Queue)
    requires SchedRing.Inv(q) && n <= |script|
    ensures SchedRing.Inv(p) && p.ring == q.ring
  {
    if n == 0 then q
    else
      var p := Played(q, script, n - 1);
      match script[n - 1]
      case Switch => SchedRing.ScheduleInv(p); SchedRing.Schedule(p)
      case Finish => SchedRing.ExitInv(p); SchedRing.Exit(p)
  }

  /** The task at position `i` is done and another one runs. */
  predicate IsOver(q: SchedRing.Queue, i: nat) {
    i < |q.ring| && q.ring[i] in q.tasks && SchedRing.TaskAt(q, i).state == SchedRing.Done && q.cur != i
  }

  class System {
    const loader: Loader
    const heap: KernelHeap
    const sched: Scheduler

    ghost function Now(): World
      reads this, loader, loader.vmm, loader.vmm.pmm, heap, sched, sched.vmm`cr3
      requires sched.Valid()
    {
      World(AllSpaces(loader.Now()), loader.vmm.pmm.used, Live(heap.bs), HeldBy(sched.Abs()))
    }

    ghost predicate Valid()
      reads this, loader, loader.vmm, loader.vmm.pmm, loader.vmm.pmm.bitmap, heap, sched, sched.vmm`cr3
    {
      && loader.Valid() && heap.Valid() && sched.Valid() && sched.vmm == loader.vmm
      && Tenants(Now(), loader.vmm.kernelPml4)
    }

    /** The state after sched_init: the boot task is the only one. */
    constructor (loader: Loader, heap: KernelHeap, sched: Scheduler)
      requires loader.Valid() && heap.Valid() && sched.Valid() && sched.vmm == loader.vmm
      requires |sched.ring| == 1 && sched.ring[0] in Payloads(Live(heap.bs))
      requires sched.tasks[sched.ring[0]].pml4 == loader.vmm.kernelPml4 && sched.tasks[sched.ring[0]].stackBase == 0
      ensures Valid() && this.loader == loader && this.heap == heap && this.sched == sched && |Now().held| == 1
    {
      this.loader, this.heap, this.sched := loader, heap, sched;
      new;
      SpacesTidy(loader.Now(), Live(heap.bs), HeldBy(sched.Abs()));
      assert IsRoot(loader.vmm.at, loader.vmm.kernelPml4);
      assert HeldOk(Now(), 0);
    }

    /** A process space nobody had before; nothing else changes. */
    method NewSpace() returns (pml4: nat)
      requires loader.Valid() && 1 <= loader.vmm.pmm.FreeCount()
      modifies loader.vmm`mem, loader.vmm`at, loader.vmm.pmm, loader.vmm.pmm.bitmap
      ensures loader.Valid() && Process(loader.Now(), loader.vmm.kernelPml4, pml4) && pml4 !in old(loader.vmm.at)
      ensures Nodes(loader.vmm.at, pml4) == {Top}
      ensures RestOf(loader.Now(), pml4) == old(Rest(AllSpaces(loader.Now()), loader.vmm.pmm.used))
      ensures loader.vmm.pmm.FreeCount() == old(loader.vmm.pmm.FreeCount()) - 1
    {
      ghost var m0, k := loader.Now(), loader.vmm.kernelPml4;
      pml4 := loader.vmm.CreateAddressSpace();
      ghost var m1 := loader.Now();
      assert Created(m0, m1, k, pml4);
      CreatedOwned(m0, m1, k, pml4);
      CreatedRest(m0, m1, k, pml4);
    }

    /** The first half of spawn_user_process: a new space with the program in it; or 0, with
        every frame given back, when the image is refused or its entry point is 0. */
    method LoadProgram(image: seq<Elf.Byte>) returns (pml4: nat, entry: nat)
      requires loader.Valid() && Loadable(image) && loader.vmm.cr3 in loader.vmm.at
      requires 1 + |Needs(image)| <= loader.vmm.pmm.FreeCount()
      modifies loader`ram, loader.vmm`mem, loader.vmm`at, loader.vmm.pmm, loader.vmm.pmm.bitmap
      ensures loader.Valid()
      ensures entry != 0 <==> HeaderOk(image) && Entry64(image) != 0
      ensures entry != 0 ==> entry == Entry64(image) && pml4 !in old(loader.vmm.at) && pml4 in loader.vmm.at
      ensures entry != 0 ==>
                ProgramIn(old(loader.Now()), loader.Now(), loader.ram, loader.vmm.pmm.FreeCount(), loader.vmm.kernelPml4, pml4, image)
      ensures entry == 0 ==> Rest(AllSpaces(loader.Now()), loader.vmm.pmm.used) == old(Rest(AllSpaces(loader.Now()), loader.vmm.pmm.used))
    {
      pml4 := NewSpace();
      RoomAtStart(Needs(image), loader.vmm.pmm.FreeCount());
      if HeaderOk(image) { NeedsImage(image); }
      entry := loader.ElfLoad(pml4, image, Needs(image));
      if entry == 0 {
        ghost var m2 := loader.Now();
        var freed := loader.vmm.DestroyAddressSpace(pml4);
        DestroyedRest(m2, loader.Now(), loader.vmm.kernelPml4, pml4);
      }
    }

    /** The stack page of spawn_user_process, mapped without looking what was there before:
        if a segment has bytes in it, that page's frame is owned by nobody from now on. */
    method MapStack(pml4: nat, image: seq<Elf.Byte>, ghost m0: Mark) returns (ghost leak: set<nat>)
      requires loader.Valid() && Loadable(image) && HeaderOk(image) && Entry64(image) != 0
      requires ProgramIn(m0, loader.Now(), loader.ram, loader.vmm.pmm.FreeCount(), loader.vmm.kernelPml4, pml4, image)
      modifies loader.vmm`mem, loader.vmm`at, loader.vmm.pmm, loader.vmm.pmm.bitmap
      ensures loader.Valid() && Process(loader.Now(), loader.vmm.kernelPml4, pml4)
      ensures exists f :: Lookup(loader.vmm.mem, pml4, StackPage()) == Mapped(f, true, true)
      ensures OnlyPage(old(loader.vmm.mem), loader.vmm.mem, pml4, StackPage())
      ensures RestOf(loader.Now(), pml4) == Rest(AllSpaces(m0), m0.used + leak) && leak !! m0.used
      ensures if TouchesStack(Segments(image)) then |leak| == 1 else leak == {}
    {
      ghost var m, p := loader.Now(), StackPage();
      StackPageIs();
      leak := Displaced(Lookup(m.mem, pml4, p));
      StackFits(m0, m, loader.ram, loader.vmm.pmm.FreeCount(), loader.vmm.kernelPml4, pml4, image);
      var sframe := loader.MapNewPage(pml4, USER_STACK_VADDR, p);
    }

    /** The space of spawn_user_process, complete with program and stack; or 0. */
    method Prepare(image: seq<Elf.Byte>) returns (pml4: nat, ghost leak: set<nat>)
      requires loader.Valid() && Loadable(image) && loader.vmm.cr3 in loader.vmm.at
      requires 1 + |Needs(image)| <= loader.vmm.pmm.FreeCount()
      modifies loader`ram, loader.vmm`mem, loader.vmm`at, loader.vmm.pmm, loader.vmm.pmm.bitmap
      ensures loader.Valid()
      ensures pml4 != 0 <==> HeaderOk(image) && Entry64(image) != 0
      ensures pml4 == 0 ==> leak == {} && Rest(AllSpaces(loader.Now()), loader.vmm.pmm.used) == old(Rest(AllSpaces(loader.Now()), loader.vmm.pmm.used))
      ensures pml4 != 0 ==>
                && InMemory(loader.vmm.mem, loader.ram, pml4, image)
                && IsRoot(loader.vmm.at, pml4) && leak !! old(loader.vmm.pmm.used)
                && RestOf(loader.Now(), pml4) == old(Rest(AllSpaces(loader.Now()), loader.vmm.pmm.used)).(slack := old(loader.vmm.pmm.used) + leak)
                && (if TouchesStack(Segments(image)) then |leak| == 1 else leak == {})
    {
      ghost var m0 := loader.Now();
      leak := {};
      var entry;
      pml4, entry := LoadProgram(image);
      if entry == 0 {
        pml4 := 0;
      } else {
        ghost var mem := loader.vmm.mem;
        leak := MapStack(pml4, image, m0);
        StackKeepsBytes(mem, loader.vmm.mem, loader.ram, pml4, image);
      }
    }

    /** A kmalloc that is served: a live block nobody had before. */
    method Allocate(size: nat) returns (p: nat)
      requires heap.Valid() && 0 < size <= STACK_SIZE && FirstFit(heap.bs, Align8(size), 0) < |heap.bs|
      modifies heap
      ensures heap.Valid() && heap.bs == MallocSpec(old(heap.bs), size)
      ensures p != 0 && p in Payloads(Live(heap.bs)) && p !in old(Payloads(Live(heap.bs)))
      ensures Without(Live(heap.bs), {p}) == old(Live(heap.bs)) && Roomy(Live(heap.bs), p, size)
    {
      ghost var b0, n := heap.bs, Align8(size);
      ghost var b := Given(b0, FirstFit(b0, n, 0), n);
      p := heap.Kmalloc(size);
      assert b in Live(heap.bs) && p == Payload(b);
      OnlyBlock(heap.bs, b);
    }

    /** The two kmalloc calls for a task: its struct and its kernel stack. */
    method AllocateTask() returns (t: nat, kstack: nat)
      requires heap.Valid() && HeapServes(heap.bs)
      modifies heap
      ensures heap.Valid() && t != 0 && kstack != 0 && t != kstack
      ensures t in Payloads(Live(heap.bs)) && kstack in Payloads(Live(heap.bs)) && t !in old(Payloads(Live(heap.bs)))
      ensures Without(Live(heap.bs), {t, kstack}) == old(Live(heap.bs)) && Roomy(Live(heap.bs), kstack, STACK_SIZE)
    {
      t := Allocate(TASK_BYTES);
      kstack := Allocate(STACK_SIZE);
      WithoutBoth(Live(heap.bs), kstack, t);
    }

    /** `task_create_user`: a struct and a kernel stack from the heap, then the end of the ring. */
    method TaskCreateUser(pml4: nat) returns (t: nat, ghost h: Held)
      requires loader.Valid() && heap.Valid() && sched.Valid() && HeapServes(heap.bs)
      requires forall x | x in sched.ring :: x in Payloads(Live(heap.bs))
      modifies heap, sched`tasks, sched`next, sched`nextId, sched`ring
      ensures loader.Valid() && heap.Valid() && sched.Valid()
      ensures t != 0 && h.stack != 0 && t != h.stack && h.task == t && h.pml4 == pml4
      ensures t in Payloads(Live(heap.bs)) && h.stack in Payloads(Live(heap.bs))
      ensures Without(Live(heap.bs), {t, h.stack}) == old(Live(heap.bs)) && Roomy(Live(heap.bs), h.stack, STACK_SIZE)
      ensures h.top % 16 == 0 && h.stack + STACK_SIZE - 16 < h.top <= h.stack + STACK_SIZE
      ensures t in sched.tasks && sched.tasks[t].kstackTop == h.top && sched.tasks[t].stackBase == h.stack
      ensures HeldBy(sched.Abs()) == old(HeldBy(sched.Abs())) + [h]
      ensures sched.Abs() == Joined(old(sched.Abs()), old(sched.nextId), h)
    {
      var kstack;
      t, kstack := AllocateTask();
      var top := (kstack + STACK_SIZE) / 16 * 16;
      h := Held(t, kstack, top, pml4);
      CreateHolds(sched.Abs(), t, SchedRing.Task(sched.nextId, SchedRing.Ready, pml4, top, kstack));
      sched.Append(t, pml4, top, kstack);
    }

    /** A task is made for space `pml4`, which is all that is new since `m0`. */
    method Adopt(pml4: nat, ghost m0: Mark, ghost w0: World, ghost leak: set<nat>) returns (t: nat, ghost h: Held)
      requires loader.Valid() && heap.Valid() && sched.Valid() && sched.vmm == loader.vmm && HeapServes(heap.bs)
      requires w0 == World(AllSpaces(m0), m0.used, Live(heap.bs), HeldBy(sched.Abs())) && Tenants(w0, loader.vmm.kernelPml4)
      requires IsRoot(loader.vmm.at, pml4) && leak !! m0.used
      requires RestOf(loader.Now(), pml4) == Rest(AllSpaces(m0), m0.used + leak)
      modifies heap, sched`tasks, sched`next, sched`nextId, sched`ring
      ensures Valid() && t != 0
      ensures Spawned(w0, Now(), leak)
      ensures Now().held == w0.held + [h] && h.task == t && h.pml4 == pml4
      ensures TopOk(h.stack, h.top) && t in sched.tasks && sched.tasks[t].kstackTop == h.top && sched.tasks[t].stackBase == h.stack
      ensures sched.Abs() == Joined(old(sched.Abs()), old(sched.nextId), h)
    {
      ghost var m, k := loader.Now(), loader.vmm.kernelPml4;
      TasksAreLive(sched.Abs(), w0, k);
      t, h := TaskCreateUser(pml4);
      assert loader.Now() == m;
      ghost var w := Now();
      Adopted(m0, m, w0, w, k, h, leak);
    }

    /** `spawn_user_process`: a refused program leaves everything as it was; otherwise a new
        task holds all that has been taken, unless the stack displaced a frame of the program. */
    method Spawn(image: seq<Elf.Byte>) returns (t: nat, ghost h: Held, ghost leak: set<nat>)
      requires Valid() && Loadable(image)
      requires 1 + |Needs(image)| <= loader.vmm.pmm.FreeCount()
      requires HeaderOk(image) && Entry64(image) != 0 ==> HeapServes(heap.bs)
      modifies loader`ram, loader.vmm`mem, loader.vmm`at, loader.vmm.pmm, loader.vmm.pmm.bitmap
      modifies heap, sched`tasks, sched`next, sched`nextId, sched`ring
      ensures Valid()
      ensures t != 0 <==> HeaderOk(image) && Entry64(image) != 0
      ensures t == 0 ==> Now() == old(Now()) && leak == {}
      ensures t == 0 ==> sched.Abs() == old(sched.Abs()) && heap.bs == old(heap.bs)
      ensures t != 0 ==>
                && Spawned(old(Now()), Now(), leak) && Now().held == old(Now().held) + [h] && h.task == t
                && TopOk(h.stack, h.top) && t in sched.tasks && sched.tasks[t].kstackTop == h.top
                && sched.Abs() == Joined(old(sched.Abs()), old(sched.nextId), h)
                && InMemory(loader.vmm.mem, loader.ram, h.pml4, image) && FileOffStack(loader.vmm.mem, loader.ram, h.pml4, image)
      ensures t != 0 ==> if TouchesStack(Segments(image)) then |leak| == 1 else leak == {}
    {
      ghost var m0, w0 := loader.Now(), Now();
      TasksAreLive(sched.Abs(), w0, loader.vmm.kernelPml4);
      t, h := 0, Held(0, 0, 0, 0);
      ghost var q := sched.Abs();
      var pml4;
      pml4, leak := Prepare(image);
      assert sched.Abs() == q;
      if pml4 != 0 {
        InMemoryIsFile(loader.vmm.mem, loader.ram, pml4, image);
        t, h := Adopt(pml4, m0, w0, leak);
      }
    }

    /** `task_create`: a kernel task with a space of its own. */
    method TaskCreate() returns (t: nat, ghost h: Held)
      requires Valid() && 1 <= loader.vmm.pmm.FreeCount() && HeapServes(heap.bs)
      modifies loader.vmm`mem, loader.vmm`at, loader.vmm.pmm, loader.vmm.pmm.bitmap
      modifies heap, sched`tasks, sched`next, sched`nextId, sched`ring
      ensures Valid() && t != 0
      ensures Spawned(old(Now()), Now(), {}) && Now().held == old(Now().held) + [h] && h.task == t
      ensures TopOk(h.stack, h.top) && t in sched.tasks && sched.tasks[t].kstackTop == h.top
      ensures sched.Abs() == Joined(old(sched.Abs()), old(sched.nextId), h)
    {
      ghost var m0, w0, q := loader.Now(), Now(), sched.Abs();
      var pml4 := NewSpace();
      assert sched.Abs() == q;
      NoSlack(RestOf(loader.Now(), pml4));
      t, h := Adopt(pml4, m0, w0, {});
    }

    /** A timer tick or a yield: another task may run, and nobody's holdings change. */
    method Tick()
      requires Valid()
      modifies sched`tasks, sched`current, sched`rsp0, sched`cur, loader.vmm`cr3
      ensures Valid() && Now() == old(Now()) && sched.Abs() == SchedRing.Schedule(old(sched.Abs()))
      ensures OwnTop(Now(), sched.cur, sched.rsp0)
    {
      ghost var m, w := loader.Now(), Now();
      ScheduleHolds(sched.Abs());
      sched.Schedule();
      assert loader.Now() == m;
      assert Now() == w;
      Rsp0IsOwnTop(sched.Abs(), w, loader.vmm.kernelPml4);
    }

    /** The current task exits. What it holds is not touched until it is reaped. */
    method ExitCurrent()
      requires Valid()
      modifies sched`tasks, sched`current, sched`rsp0, sched`cur, loader.vmm`cr3
      ensures Valid() && Now() == old(Now()) && sched.Abs() == SchedRing.Exit(old(sched.Abs()))
      ensures OwnTop(Now(), sched.cur, sched.rsp0)
    {
      ghost var m, w := loader.Now(), Now();
      ExitHolds(sched.Abs());
      sched.TaskExit();
      assert loader.Now() == m;
      assert Now() == w;
      Rsp0IsOwnTop(sched.Abs(), w, loader.vmm.kernelPml4);
    }

    /** kfree of a live payload. */
    method Release(p: nat)
      requires heap.Valid() && p in Payloads(Live(heap.bs))
      modifies heap
      ensures heap.Valid() && Live(heap.bs) == Without(old(Live(heap.bs)), {p})
    {
      ghost var i := LiveIndex(heap.bs, p);
      OnlyBlock(heap.bs, heap.bs[i]);
      heap.Kfree(p, i);
    }

    /** The two kfree calls of task_reap. */
    method ReleaseTask(t: nat, stack: nat)
      requires loader.Valid() && heap.Valid() && sched.Valid() && t != stack
      requires t in Payloads(Live(heap.bs)) && stack in Payloads(Live(heap.bs))
      modifies heap
      ensures loader.Valid() && heap.Valid() && sched.Valid()
      ensures Live(heap.bs) == Without(old(Live(heap.bs)), {t, stack})
    {
      WithoutBoth(Live(heap.bs), stack, t);
      StillThere(Live(heap.bs), {stack}, t);
      Release(stack);
      Release(t);
    }

    /** The teardown of task_reap, which is not refused. */
    method ReleaseSpace(pml4: nat) returns (frames: nat)
      requires loader.Valid() && IsRoot(loader.vmm.at, pml4)
      requires pml4 != loader.vmm.kernelPml4 && pml4 != loader.vmm.cr3
      modifies loader.vmm`mem, loader.vmm`at, loader.vmm.pmm, loader.vmm.pmm.bitmap
      ensures loader.Valid() && frames == |old(Owned(loader.vmm.at, pml4))|
      ensures Rest(AllSpaces(loader.Now()), loader.vmm.pmm.used) == old(RestOf(loader.Now(), pml4))
    {
      ghost var m := loader.Now();
      frames := 0;
      if pml4 != 0 && pml4 != loader.vmm.kernelPml4 {
        frames := loader.vmm.DestroyAddressSpace(pml4);
        DestroyedRest(m, loader.Now(), loader.vmm.kernelPml4, pml4);
      }
    }

    /** What task_reap does once the task has left the queue. */
    method GiveBack(t: nat, stack: nat, pml4: nat) returns (frames: nat)
      requires loader.Valid() && heap.Valid() && sched.Valid() && t != stack
      requires t in Payloads(Live(heap.bs)) && stack in Payloads(Live(heap.bs))
      requires IsRoot(loader.vmm.at, pml4) && pml4 != loader.vmm.kernelPml4 && pml4 != loader.vmm.cr3
      modifies loader.vmm`mem, loader.vmm`at, loader.vmm.pmm, loader.vmm.pmm.bitmap, heap
      ensures loader.Valid() && heap.Valid() && sched.Valid() && frames == |old(Owned(loader.vmm.at, pml4))|
      ensures Live(heap.bs) == Without(old(Live(heap.bs)), {t, stack})
      ensures Rest(AllSpaces(loader.Now()), loader.vmm.pmm.used) == old(RestOf(loader.Now(), pml4))
    {
      ghost var q := sched.Abs();
      frames := ReleaseSpace(pml4);
      assert sched.Abs() == q;
      ghost var m := loader.Now();
      ReleaseTask(t, stack);
      assert loader.Now() == m;
    }

    /** The task at position `i` leaves the queue; what it held is known. */
    method Detach(t: nat, ghost i: nat, ghost w: World) returns (stack: nat, pml4: nat)
      requires Valid() && w == Now() && 0 < i < |sched.ring| && sched.ring[i] == t && i != sched.cur
      modifies sched`tasks, sched`next, sched`ring, sched`cur
      ensures loader.Valid() && heap.Valid() && sched.Valid()
      ensures sched.Abs() == SchedRing.Reap(old(sched.Abs()), i) && HeldBy(sched.Abs()) == Drop(w.held, i)
      ensures w.held[i].task == t && w.held[i].stack == stack && w.held[i].pml4 == pml4 && t != stack
      ensures t in Payloads(Live(heap.bs)) && stack in Payloads(Live(heap.bs))
      ensures IsRoot(loader.vmm.at, pml4) && pml4 != loader.vmm.kernelPml4 && pml4 != loader.vmm.cr3
    {
      HolderFacts(sched.Abs(), w, loader.vmm.kernelPml4, i);
      ReapHolds(sched.Abs(), i);
      pml4, stack := sched.tasks[t].pml4, sched.tasks[t].stackBase;
      sched.Unlink(t, i);
    }

    /** The task at position `i` leaves the queue and all that it holds is given back. */
    method Remove(t: nat, ghost i: nat, ghost w: World) returns (frames: nat)
      requires Valid() && w == Now() && 0 < i < |sched.ring| && sched.ring[i] == t && i != sched.cur
      modifies loader.vmm`mem, loader.vmm`at, loader.vmm.pmm, loader.vmm.pmm.bitmap
      modifies heap, sched`tasks, sched`next, sched`ring, sched`cur
      ensures loader.Valid() && heap.Valid() && sched.Valid()
      ensures Reaped(w, Now(), i) && sched.Abs() == SchedRing.Reap(old(sched.Abs()), i)
      ensures HasSpace(w, i) && frames == |w.spaces[w.held[i].pml4].owned|
    {
      ghost var m := loader.Now();
      var stack, pml4 := Detach(t, i, w);
      frames := GiveBack(t, stack, pml4);
      ReapedTo(m, loader.Now(), w.live, Live(heap.bs), w.held, i);
    }

    /** `task_reap`: NULL and the boot task are refused; any other task that is not running
        leaves the queue, and all that it holds is given back. */
    method Reap(t: nat, ghost i: nat) returns (frames: nat)
      requires Valid()
      requires t != 0 && t != sched.taskList ==> 0 < i < |sched.ring| && sched.ring[i] == t && i != sched.cur
      modifies loader.vmm`mem, loader.vmm`at, loader.vmm.pmm, loader.vmm.pmm.bitmap
      modifies heap, sched`tasks, sched`next, sched`ring, sched`cur
      ensures Valid()
      ensures t == 0 || t == old(sched.taskList) ==> Now() == old(Now()) && sched.Abs() == old(sched.Abs()) && frames == 0
      ensures t != 0 && t != old(sched.taskList) ==>
                && Reaped(old(Now()), Now(), i) && sched.Abs() == SchedRing.Reap(old(sched.Abs()), i)
                && frames == |old(Now()).spaces[old(Now()).held[i].pml4].owned|
    {
      if t == 0 || t == sched.taskList {
        return 0;
      }
      ghost var w := Now();
      frames := Remove(t, i, w);
      MinusTenants(w, loader.vmm.kernelPml4, i);
    }

    /** Any sequence of switches and exits: nobody's holdings change. */
    method Play(script: seq<Event>)
      requires Valid()
      modifies sched`tasks, sched`current, sched`rsp0, sched`cur, loader.vmm`cr3
      ensures Valid() && Now() == old(Now()) && sched.Abs() == Played(old(sched.Abs()), script, |script|)
    {
      for n := 0 to |script|
        invariant Valid() && Now() == old(Now()) && sched.Abs() == Played(old(sched.Abs()), script, n)
      {
        match script[n]
        case Switch => Tick();
        case Finish => ExitCurrent();
      }
    }

    /** The life of a program as the shell's run command drives it: spawn, whatever switches
        and exits follow, and the reap once it is done and another task runs. Then the world
        is exactly what it was, but for the frame that the stack displaced; and so it is when
        the program is refused. */
    method RunProgram(image: seq<Elf.Byte>, script: seq<Event>)
      returns (ended: bool, ghost h: Held, ghost q: SchedRing.Queue, ghost leak: set<nat>)
      requires Valid() && Loadable(image)
      requires 1 + |Needs(image)| <= loader.vmm.pmm.FreeCount()
      requires HeaderOk(image) && Entry64(image) != 0 ==> HeapServes(heap.bs)
      modifies loader`ram, loader.vmm`mem, loader.vmm`at, loader.vmm`cr3, loader.vmm.pmm, loader.vmm.pmm.bitmap
      modifies heap, sched`tasks, sched`next, sched`nextId, sched`ring, sched`current, sched`rsp0, sched`cur
      ensures Valid()
      ensures if HeaderOk(image) && Entry64(image) != 0 then
                && SchedRing.Inv(q) && q == Joined(old(sched.Abs()), old(sched.nextId), h)
                && (ended <==> IsOver(Played(q, script, |script|), |old(sched.ring)|))
              else ended
      ensures ended ==> Now() == Leaking(old(Now()), leak) && heap.bs == old(heap.bs)
      ensures leak == {} <==> !(HeaderOk(image) && Entry64(image) != 0 && TouchesStack(Segments(image)))
      ensures |leak| <= 1 && leak !! old(loader.vmm.pmm.used)
    {
      ghost var w0, b0 := Now(), heap.bs;
      var t;
      t, h, leak := Spawn(image);
      q := sched.Abs();
      ended := t == 0;
      if t != 0 {
        ended := Finish(t, script, w0, leak);
      }
      if ended {
        NoLeak(w0);
        Canonical(heap.bs, b0);
      }
    }

    /** The rest of the run command, once the task has joined the queue. */
    method Finish(t: nat, script: seq<Event>, ghost w0: World, ghost leak: set<nat>) returns (ended: bool)
      requires Valid() && Spawned(w0, Now(), leak) && |w0.held| > 0 && Now().held[|w0.held|].task == t
      modifies loader.vmm`mem, loader.vmm`at, loader.vmm`cr3, loader.vmm.pmm, loader.vmm.pmm.bitmap
      modifies heap, sched`tasks, sched`next, sched`ring, sched`current, sched`rsp0, sched`cur
      ensures Valid()
      ensures ended <==> IsOver(Played(old(sched.Abs()), script, |script|), |w0.held|)
      ensures ended ==> Now() == Leaking(w0, leak)
      ensures !ended ==> Now() == old(Now()) && sched.Abs() == Played(old(sched.Abs()), script, |script|)
    {
      Play(script);
      ghost var i := |w0.held|;
      AtPosition(sched.Abs(), Now(), loader.vmm.kernelPml4, i);
      ended := sched.tasks[t].state == SchedRing.Done && sched.current != t;
      if ended {
        var frames := Reap(t, i);
      }
    }
  }

  // ---- a program that loses a frame ----

  /** A bare ELF file with one PT_LOAD segment: one byte at the bottom of the stack page. */
  function OverlapByte(i: nat): Elf.Byte {
    match i
    case 0 => 0x7F case 1 => 0x45 case 2 => 0x4C case 3 => 0x46 case 4 => 2
    case 16 => 2 case 18 => 0x3E   // an executable for x86-64
    case 24 => 1                   // entry point
    case 32 => 64 case 56 => 1     // one program header, at 64
    case 64 => 1                   // PT_LOAD
    case 84 => 2                   // at 0x200000000
    case 104 => 1                  // one byte long
    case _ => 0
  }

  lemma {:induction false} ZeroBytes(image: seq<Elf.Byte>, off: nat, n: nat)
    requires off + n <= |image| && forall i | off <= i < off + n :: image[i] == 0
    ensures Le(image, off, n) == 0
    decreases n
  {
    if n > 0 { ZeroBytes(image, off + 1, n - 1); }
  }

  /** A number whose only byte that is not zero is the first one. */
  lemma OneByte(image: seq<Elf.Byte>, off: nat, n: nat)
    requires n > 0 && off + n <= |image| && forall i | off < i < off + n :: image[i] == 0
    ensures Le(image, off, n) == image[off]
  {
    ZeroBytes(image, off + 1, n - 1);
  }

  /** There are loadable programs with bytes in the stack page. Running one of them loses a
      frame for good. */
  lemma OverlapIsLoadable() returns (image: seq<Elf.Byte>)
    ensures Loadable(image) && HeaderOk(image) && Entry64(image) != 0 && TouchesStack(Segments(image))
  {
    image := seq(120, i requires 0 <= i => OverlapByte(i));
    OverlapHeader(image);
    OverlapSegment(image);
    StackPageIs();
    assert Covers(Segments(image)[0], USER_STACK_VADDR);
  }

  lemma OverlapHeader(image: seq<Elf.Byte>)
    requires |image| == 120 && forall i | 0 <= i < 120 :: image[i] == OverlapByte(i)
    ensures HeaderOk(image) && Entry64(image) == 1 && PhCount(image) == 1 && PhOffset(image, 0) == 64
  {
    OneByte(image, 16, 2);
    OneByte(image, 18, 2);
    OneByte(image, 24, 8);
    OneByte(image, 32, 8);
    OneByte(image, 56, 2);
  }

  lemma OverlapSegment(image: seq<Elf.Byte>)
    requires |image| == 120 && forall i | 0 <= i < 120 :: image[i] == OverlapByte(i)
    requires HeaderOk(image) && PhCount(image) == 1 && PhOffset(image, 0) == 64
    ensures SegmentAt(image, 0) == Segment(true, 0, USER_STACK_VADDR, 0, 1)
  {
    OneByte(image, 64, 4);
    ZeroBytes(image, 72, 8);
    OneByte(image, 84, 4);
    assert Le(image, 83, 5) == 0x200;
    assert Le(image, 82, 6) == 0x2_0000;
    assert Le(image, 81, 7) == 0x200_0000;
    ZeroBytes(image, 96, 8);
    OneByte(image, 104, 8);
  }

  /** Memory is enough for the stack, and its page is already mapped exactly when a segment
      has bytes in it. */
  lemma StackFits(m0: Mark, m: Mark, ram: Ram, free: int, k: nat, r: nat, image: seq<Elf.Byte>)
    requires Inv(m.mem, m.at, k) && Loadable(image) && HeaderOk(image) && Entry64(image) != 0
    requires ProgramIn(m0, m, ram, free, k, r, image)
    ensures NoHuge(m.mem, r, StackPage()) && Missing(m.mem, r, StackPage()) + 1 <= free
    ensures Lookup(m.mem, r, StackPage()).Mapped? <==> TouchesStack(Segments(image))
    ensures Displaced(Lookup(m.mem, r, StackPage())) <= Owned(m.at, r)
  {
    var p, segs, nodes := StackPage(), Segments(image), Nodes(m.at, r);
    PageNeeds(m.mem, m.at, k, r, p);
    NodesAreWalked(m.mem, m.at, k, r, p);
    NodesAreWalkedLeaf(m.mem, m.at, k, r, p);
    LeafInImage(segs, |segs|, p);
    Depths(p);
    if TouchesStack(segs) {
      SpareIsNoNode(m, k, r);
      SubsetSize({Spare()}, Needs(image) - nodes);
    } else {
      SubsetSize(Prefixes(p) - nodes, Needs(image) - nodes);
    }
  }

  lemma SpareIsNoNode(m: Mark, k: nat, r: nat)
    requires Inv(m.mem, m.at, k)
    ensures Spare() !in Nodes(m.at, r)
  {
    Depths(StackPage());
    forall f | f in m.at
      ensures m.at[f].path != Spare()
    {
      assert PlaceOk(m.mem, m.at, k, f);
    }
  }
}
