/** Whole runs on the objects themselves: any sequence of spawns, new kernel tasks, switches,
    exits and reaps, each one as the kernel performs it. */
module Script {
  import opened Elf
  import opened HeapBlocks
  import opened Heap
  import opened Lifecycle
  import opened Paging
  import opened Pmm
  import opened Sched
  import SchedRing
  import opened Vmm
  import opened Worlds

  /** What can be asked of the system. A command it has no memory for is passed over, and so
      is reaping something that is not a task or is running. */
  datatype Command = Load(image: seq<Elf.Byte>) | Fork | Yield | Quit | Collect(task: nat)

  /** The command starts no program that has bytes in its stack page. */
  ghost predicate Clean(c: Command) {
    c.Load? && Loadable(c.image) && HeaderOk(c.image) ==> !TouchesStack(Segments(c.image))
  }

  // ---- is there room? ----

  /** An upper bound for the bytes of the first `n` segments. */
  function Bytes(segs: seq<Segment>, n: nat): nat
    requires n <= |segs|
  {
    if n == 0 then 0 else Bytes(segs, n - 1) + segs[n - 1].memsz
  }

  lemma {:induction false} FewPaths(from: nat, n: nat)
    ensures |RangePaths(from, n)| <= 4 * n
  {
    if n > 0 {
      FewPaths(from, n - 1);
      AtMost(RangePaths(from, n - 1), PathsTo(from + n - 1), 4);
    }
  }

  /** A union with a set of at most `k` elements. */
  lemma AtMost<T>(a: set<T>, b: set<T>, k: nat)
    requires |b| <= k
    ensures |a + b| <= |a| + k
  {
    assert |a + b| == |a| + |b - a|;
    SubsetSize(b - a, b);
  }

  lemma {:induction false} FewImagePaths(segs: seq<Segment>, n: nat)
    requires n <= |segs|
    ensures |ImagePaths(segs, n)| <= 4 * Bytes(segs, n)
  {
    if n > 0 {
      FewImagePaths(segs, n - 1);
      FewSegmentPaths(segs[n - 1]);
      AtMost(ImagePaths(segs, n - 1), SegmentPaths(segs[n - 1]), 4 * segs[n - 1].memsz);
    }
  }

  lemma FewSegmentPaths(s: Segment)
    ensures |SegmentPaths(s)| <= 4 * s.memsz
  {
    FewPaths(s.vaddr, s.memsz);
  }

  /** Frames that are enough for a program: four for every byte, and a few for the stack. */
  function FramesFor(image: seq<Elf.Byte>): nat
    requires Loadable(image)
  {
    if HeaderOk(image) then 6 + 4 * Bytes(Segments(image), PhCount(image)) else 1
  }

  lemma FramesAreEnough(image: seq<Elf.Byte>)
    requires Loadable(image)
    ensures 1 + |Needs(image)| <= FramesFor(image)
  {
    if HeaderOk(image) {
      var segs := Segments(image);
      var paths, stack := ImagePaths(segs, |segs|), Prefixes(StackPage());
      FewImagePaths(segs, |segs|);
      FivePaths(paths, stack, {Spare()});
      NeedsAtMost(image, paths, stack);
      SubsetSize(Needs(image), paths + stack + {Spare()});
    }
  }

  lemma NeedsAtMost(image: seq<Elf.Byte>, paths: set<Path>, stack: set<Path>)
    requires Loadable(image) && HeaderOk(image)
    requires paths == ImagePaths(Segments(image), PhCount(image)) && stack == Prefixes(StackPage())
    ensures Needs(image) <= paths + stack + {Spare()}
  {}

  lemma FivePaths(a: set<Path>, b: set<Path>, c: set<Path>)
    requires |b| <= 4 && |c| <= 1
    ensures |a + b + c| <= |a| + 5
  {
    AtMost(a, b, 4);
    AtMost(a + b, c, 1);
  }

  /** A free block with room for both blocks of a task and the header between them. */
  const TASK_ROOM: nat := TASK_BYTES + HEADER_SIZE + STACK_SIZE

  lemma BigBlockServes(bs: seq<Block>, i: nat)
    requires i < |bs| && Fits(bs[i], TASK_ROOM)
    ensures HeapServes(bs)
  {
    var n, m := Align8(TASK_BYTES), Align8(STACK_SIZE);
    Align8Exact(TASK_BYTES);
    Align8Exact(STACK_SIZE);
    var j := FirstFit(bs, n, 0);
    assert Fits(bs[i], n);
    var c := MallocAt(bs, j, n);
    var shift := if Splits(bs[j], n) then 1 else 0;
    var k := if i == j then i + 1 else i + shift;
    MallocIndex(bs, j, n, j);
    MallocIndex(bs, j, n, k);
    assert Fits(c[k], m);
  }

  // ---- the commands ----

  /** The position of a task in the ring, if it is there. */
  method Locate(sched: Scheduler, t: nat) returns (found: bool, ghost i: nat)
    requires sched.Valid()
    ensures found ==> i < |sched.ring| && sched.ring[i] == t
    ensures found <==> t in sched.ring
  {
    var p := sched.taskList;
    i := 0;
    found := p == t;
    assert LinkOk(sched.next, sched.ring, 0);
    while !found && sched.next[p] != sched.taskList
      invariant i < |sched.ring| && p == sched.ring[i] && p in sched.next && found == (p == t)
      invariant !found ==> t !in sched.ring[..i + 1]
      decreases |sched.ring| - i
    {
      assert LinkOk(sched.next, sched.ring, i);
      p := sched.next[p];
      i := i + 1;
      found := p == t;
      assert LinkOk(sched.next, sched.ring, i);
    }
    if !found {
      assert LinkOk(sched.next, sched.ring, i) && i == |sched.ring| - 1;
      assert sched.ring[..i + 1] == sched.ring;
    }
  }

  /** Whether the heap can hold another task, by its largest free block. */
  method HeapHasRoom(heap: KernelHeap) returns (ok: bool)
    requires heap.Valid()
    ensures ok <==> exists i | 0 <= i < |heap.bs| :: Fits(heap.bs[i], TASK_ROOM)
    ensures ok ==> HeapServes(heap.bs)
  {
    var s := heap.GetStats();
    ok := s.largestFree >= TASK_ROOM;
    if ok {
      ghost var i :| 0 <= i < |heap.bs| && heap.bs[i].free && heap.bs[i].size == s.largestFree;
      BigBlockServes(heap.bs, i);
    }
  }

  /** There is room for a task and `frames` frames. */
  ghost predicate HasRoom(sys: System, frames: nat)
    reads sys.heap, sys.loader.vmm.pmm
  {
    && (exists i | 0 <= i < |sys.heap.bs| :: Fits(sys.heap.bs[i], TASK_ROOM))
    && frames <= sys.loader.vmm.pmm.FreeCount()
  }

  /** Spawn, if the image is loadable and there is room. */
  method DoLoad(sys: System, image: seq<Elf.Byte>) returns (t: nat, ghost leak: set<nat>)
    requires sys.Valid()
    modifies sys.loader`ram, sys.loader.vmm`mem, sys.loader.vmm`at, sys.loader.vmm.pmm, sys.loader.vmm.pmm.bitmap
    modifies sys.heap, sys.sched`tasks, sys.sched`next, sys.sched`nextId, sys.sched`ring
    ensures sys.Valid() && if t == 0 then sys.Now() == old(sys.Now()) && leak == {} else Spawned(old(sys.Now()), sys.Now(), leak)
    ensures t != 0 <==> Loadable(image) && HeaderOk(image) && Entry64(image) != 0 && old(HasRoom(sys, FramesFor(image)))
    ensures |leak| <= 1 && (Clean(Load(image)) ==> leak == {})
  {
    t, leak := 0, {};
    if !Loadable(image) { return; }
    var room := HeapHasRoom(sys.heap);
    var pmm := sys.loader.vmm.pmm;
    if !room || pmm.usedFrames + FramesFor(image) > pmm.totalFrames { return; }
    FramesAreEnough(image);
    ghost var h;
    t, h, leak := sys.Spawn(image);
  }

  /** A kernel task, if there is room. */
  method DoFork(sys: System) returns (t: nat)
    requires sys.Valid()
    modifies sys.loader.vmm`mem, sys.loader.vmm`at, sys.loader.vmm.pmm, sys.loader.vmm.pmm.bitmap
    modifies sys.heap, sys.sched`tasks, sys.sched`next, sys.sched`nextId, sys.sched`ring
    ensures sys.Valid() && if t == 0 then sys.Now() == old(sys.Now()) else Spawned(old(sys.Now()), sys.Now(), {})
    ensures t != 0 <==> old(HasRoom(sys, 1))
  {
    t := 0;
    var room := HeapHasRoom(sys.heap);
    var pmm := sys.loader.vmm.pmm;
    if !room || pmm.usedFrames + 1 > pmm.totalFrames { return; }
    ghost var h;
    t, h := sys.TaskCreate();
  }

  /** A reap, if there is such a task and it is not running. */
  method DoCollect(sys: System, t: nat) returns (ghost i: nat)
    requires sys.Valid()
    modifies sys.loader.vmm`mem, sys.loader.vmm`at, sys.loader.vmm.pmm, sys.loader.vmm.pmm.bitmap
    modifies sys.heap, sys.sched`tasks, sys.sched`next, sys.sched`ring, sys.sched`cur
    ensures sys.Valid()
    ensures if t != 0 && t in old(sys.sched.ring[1..]) && t != old(sys.sched.current) then Reaped(old(sys.Now()), sys.Now(), i)
            else sys.Now() == old(sys.Now())
  {
    var found;
    found, i := Locate(sys.sched, t);
    BootIsFirst(sys.sched.ring, t, i);
    if !found || t == sys.sched.current { return; }
    var frames := sys.Reap(t, i);
  }

  lemma BootIsFirst(ring: seq<nat>, t: nat, i: nat)
    requires |ring| > 0 && SchedRing.Distinct(ring) && (t in ring ==> i < |ring| && ring[i] == t)
    ensures t in ring[1..] <==> t in ring && t != ring[0]
    ensures t in ring[1..] ==> i > 0
  {}

  /** One command: a step of the world. */
  method Do(sys: System, c: Command) returns (ghost leak: set<nat>)
    requires sys.Valid()
    modifies sys.loader`ram, sys.loader.vmm`mem, sys.loader.vmm`at, sys.loader.vmm`cr3
    modifies sys.loader.vmm.pmm, sys.loader.vmm.pmm.bitmap, sys.heap
    modifies sys.sched`tasks, sys.sched`next, sys.sched`nextId, sys.sched`ring, sys.sched`current, sys.sched`rsp0, sys.sched`cur
    ensures sys.Valid() && Steps(old(sys.Now()), sys.Now(), leak)
    ensures |leak| <= 1 && (Clean(c) ==> leak == {})
  {
    leak := {};
    match c
    case Load(image) =>
      var t;
      t, leak := DoLoad(sys, image);
    case Fork =>
      var t := DoFork(sys);
    case Yield => sys.Tick();
    case Quit => sys.ExitCurrent();
    case Collect(t) =>
      ghost var i := DoCollect(sys, t);
  }

  /** Any script at all: what is left when every process is taken out never changes, but for
      frames that leak, one at most for each command and none if every program keeps off its
      stack page. So whenever only the boot task is left at the start and at the end,
      everything else is back. */
  method Play(sys: System, script: seq<Command>) returns (ghost leak: set<nat>)
    requires sys.Valid()
    modifies sys.loader`ram, sys.loader.vmm`mem, sys.loader.vmm`at, sys.loader.vmm`cr3
    modifies sys.loader.vmm.pmm, sys.loader.vmm.pmm.bitmap, sys.heap
    modifies sys.sched`tasks, sys.sched`next, sys.sched`nextId, sys.sched`ring, sys.sched`current, sys.sched`rsp0, sys.sched`cur
    ensures sys.Valid() && Net(sys.Now()) == Leaking(old(Net(sys.Now())), leak)
    ensures |leak| <= |script| && ((forall i | 0 <= i < |script| :: Clean(script[i])) ==> leak == {})
    ensures old(|sys.Now().held|) == 1 && |sys.Now().held| == 1 ==>
              sys.Now() == Leaking(old(sys.Now()), leak) && sys.heap.bs == old(sys.heap.bs)
  {
    ghost var w0, b0, k := sys.Now(), sys.heap.bs, sys.loader.vmm.kernelPml4;
    leak := {};
    NoLeak(Net(w0));
    for n := 0 to |script|
      invariant sys.Valid() && sys.loader.vmm.kernelPml4 == k && Net(sys.Now()) == Leaking(Net(w0), leak)
      invariant |leak| <= n && ((forall i | 0 <= i < n :: Clean(script[i])) ==> leak == {})
    {
      ghost var w := sys.Now();
      ghost var more := Do(sys, script[n]);
      StepKeepsNet(w, sys.Now(), k, more);
      LeakTwice(Net(w0), leak, more, leak + more);
      AtMost(leak, more, 1);
      leak := leak + more;
    }
    if |w0.held| == 1 && |sys.Now().held| == 1 {
      Canonical(sys.heap.bs, b0);
    }
  }
}
