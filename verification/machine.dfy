/** The kernel with its processor: tasks on kernel stacks from the heap, switched by
    context_switch (kernel/sched/sched.c, kernel/sched/context_switch.asm). */
module Machines {
  import opened Context
  import Elf
  import opened HeapBlocks
  import opened Lifecycle
  import SchedRing
  import opened Worlds

  // ---- kernel stacks ----

  /** The stack of the task at position `i`: the boot task's own, or 16 KB of the heap. */
  function StackOf(held: seq<Held>, boot: Stack, i: nat): Stack
    requires i < |held|
  {
    if i == 0 then boot else Stack(held[i].stack, held[i].stack + STACK_SIZE)
  }

  predicate OutsideHeap(s: Stack) {
    s.hi <= HEAP_START || HEAP_START + CAPACITY <= s.lo
  }

  predicate Clear(s: Stack, t: Stack) { s.hi <= t.lo || t.hi <= s.lo }

  /** A task's stack lies inside the payload of a live block. */
  lemma StackInBlock(bs: seq<Block>, w: World, i: nat) returns (b: Block)
    requires Wf(bs) && w.live == Live(bs) && 0 < i < |w.held| && HeldOk(w, i)
    ensures b in bs && !b.free && Payload(b) == w.held[i].stack && w.held[i].stack + STACK_SIZE <= End(b)
    ensures HEAP_START <= w.held[i].stack && w.held[i].stack + STACK_SIZE <= HEAP_START + CAPACITY
  {
    b :| b in w.live && Payload(b) == w.held[i].stack;
    var j :| 0 <= j < |bs| && bs[j] == b;
    WithinHeap(bs, j);
  }

  /** In a valid system no two tasks share a byte of stack. */
  lemma StacksApart(bs: seq<Block>, w: World, k: nat, boot: Stack, i: nat, j: nat)
    requires Wf(bs) && w.live == Live(bs) && Tenants(w, k) && OutsideHeap(boot) && i < j < |w.held|
    ensures Clear(StackOf(w.held, boot, i), StackOf(w.held, boot, j))
  {
    assert HeldOk(w, i) && HeldOk(w, j) && Apart(w.held[i], w.held[j]);
    var y := StackInBlock(bs, w, j);
    if i > 0 {
      var x := StackInBlock(bs, w, i);
      BlocksDisjoint(bs, x, y);
    }
  }

  /** The stacks by task. */
  ghost function StacksOf(w: World, k: nat, boot: Stack): map<nat, Stack>
    requires Tenants(w, k)
  {
    TasksDiffer(w, k);
    map i | 0 <= i < |w.held| :: w.held[i].task := StackOf(w.held, boot, i)
  }

  lemma TasksDiffer(w: World, k: nat)
    requires Tenants(w, k)
    ensures forall i, j | 0 <= i < |w.held| && 0 <= j < |w.held| && w.held[i].task == w.held[j].task :: i == j
  {
    forall i, j | 0 <= i < j < |w.held|
      ensures w.held[i].task != w.held[j].task
    {
      assert Apart(w.held[i], w.held[j]);
    }
  }

  lemma StackAt(w: World, k: nat, boot: Stack, i: nat)
    requires Tenants(w, k) && i < |w.held|
    ensures w.held[i].task in StacksOf(w, k, boot) && StacksOf(w, k, boot)[w.held[i].task] == StackOf(w.held, boot, i)
  {
    TasksDiffer(w, k);
  }

  lemma StacksDisjoint(bs: seq<Block>, w: World, k: nat, boot: Stack)
    requires Wf(bs) && w.live == Live(bs) && Tenants(w, k) && OutsideHeap(boot)
    ensures Disjoint(StacksOf(w, k, boot))
  {
    var stacks := StacksOf(w, k, boot);
    forall s, t | s in stacks && t in stacks && s != t
      ensures Clear(stacks[s], stacks[t])
    {
      var i :| 0 <= i < |w.held| && w.held[i].task == s;
      var j :| 0 <= j < |w.held| && w.held[j].task == t;
      StackAt(w, k, boot, i);
      StackAt(w, k, boot, j);
      StacksApart(bs, w, k, boot, if i < j then i else j, if i < j then j else i);
    }
  }

  // ---- suspended tasks ----

  /** Task `t` can be resumed: its saved stack pointer points to a frame on its own stack. */
  predicate Parked(mem: Words, saved: map<nat, nat>, t: nat, s: Stack) {
    t in saved && s.lo <= saved[t] && saved[t] + 56 <= s.hi && HasFrame(mem, saved[t])
  }

  ghost predicate ParkedAt(mem: Words, saved: map<nat, nat>, held: seq<Held>, boot: Stack, cur: nat, i: nat)
    requires i < |held|
  {
    held[i].task != cur ==> Parked(mem, saved, held[i].task, StackOf(held, boot, i))
  }

  /** Every task but the one that runs can be resumed. */
  ghost predicate AllParked(mem: Words, saved: map<nat, nat>, held: seq<Held>, boot: Stack, cur: nat) {
    forall i {:trigger ParkedAt(mem, saved, held, boot, cur, i)} ::
      0 <= i < |held| ==> ParkedAt(mem, saved, held, boot, cur, i)
  }

  /** The stack pointer of the running task, with room for six registers. */
  predicate OnStack(rsp: nat, mem: Words, s: Stack) {
    s.lo + 48 <= rsp && rsp + 8 <= s.hi && rsp in mem
  }

  /** A switch leaves the task that gives way resumable, and all others as they were. */
  lemma SwitchParks(m0: Machine, m1: Machine, held: seq<Held>, boot: Stack, prev: nat, next: nat, c: nat)
    requires AllParked(m0.mem, m0.savedRsp, held, boot, prev) && c < |held| && held[c].task == prev
    requires (forall i | 0 <= i < |held| && held[i].task == prev :: i == c) && OnStack(m0.view.rsp, m0.mem, StackOf(held, boot, c))
    requires next in m0.savedRsp && Switched(m0, prev, m0.savedRsp[next], m1)
    ensures AllParked(m1.mem, m1.savedRsp, held, boot, next)
  {
    forall i | 0 <= i < |held|
      ensures ParkedAt(m1.mem, m1.savedRsp, held, boot, next, i)
    {
      assert ParkedAt(m0.mem, m0.savedRsp, held, boot, prev, i);
    }
  }

  /** A new task with a primed stack is resumable, and all others stay so. */
  lemma PrimingParks(mem: Words, saved: map<nat, nat>, held: seq<Held>, boot: Stack, cur: nat,
                     h: Held, mem1: Words, top: nat, first: nat, second: nat, trampoline: nat)
    requires AllParked(mem, saved, held, boot, cur) && |held| > 0 && (forall a | a in mem :: a in mem1)
    requires (forall i | 0 <= i < |held| :: held[i].task != h.task) && h.top == top && TopOk(h.stack, top)
    requires Primed(mem1, top, first, second, trampoline)
    ensures AllParked(mem1, saved[h.task := top - 72], held + [h], boot, cur)
  {
    var saved1, held1 := saved[h.task := top - 72], held + [h];
    forall i | 0 <= i < |held1|
      ensures ParkedAt(mem1, saved1, held1, boot, cur, i)
    {
      if i < |held| {
        assert held1[i] == held[i];
        assert ParkedAt(mem, saved, held, boot, cur, i);
      }
    }
  }

  /** Reaping a task leaves the others resumable. */
  lemma ReapParks(mem: Words, saved: map<nat, nat>, held: seq<Held>, boot: Stack, cur: nat, i: nat)
    requires AllParked(mem, saved, held, boot, cur) && 0 < i < |held|
    ensures AllParked(mem, saved, Drop(held, i), boot, cur)
  {
    var rest := Drop(held, i);
    forall j | 0 <= j < |rest|
      ensures ParkedAt(mem, saved, rest, boot, cur, j)
    {
      var o := if j < i then j else j + 1;
      assert rest[j] == held[o];
      assert ParkedAt(mem, saved, held, boot, cur, o);
    }
  }

  // ---- the machine ----

  class Computer {
    const sys: System
    const cpu: Cpu
    const boot: Stack
    /** Addresses of code: the two trampolines and task_exit. */
    const userTrampoline: nat
    const taskTrampoline: nat
    const taskExit: nat

    ghost function Held(): seq<Held>
      reads sys.sched, sys.sched.vmm`cr3
      requires sys.sched.Valid()
    {
      HeldBy(sys.sched.Abs())
    }

    ghost predicate Parks()
      reads sys.sched, sys.sched.vmm`cr3, cpu
      requires sys.sched.Valid()
    {
      AllParked(cpu.mem, cpu.savedRsp, Held(), boot, sys.sched.current)
    }

    /** The system is valid and every task that does not run can be resumed. */
    ghost predicate Valid()
      reads sys, sys.loader, sys.loader.vmm, sys.loader.vmm.pmm, sys.loader.vmm.pmm.bitmap
      reads sys.heap, sys.sched, sys.sched.vmm`cr3, cpu
    {
      sys.Valid() && OutsideHeap(boot) && Parks()
    }

    ghost function Machine(): Context.Machine
      reads cpu
    {
      Context.Machine(cpu.mem, View(cpu.regs, cpu.rsp, cpu.rip), cpu.savedRsp)
    }

    /** The running task is on its own stack, with room to be switched away. */
    ghost predicate Running()
      reads sys.sched, sys.sched.vmm`cr3, cpu
      requires sys.sched.Valid()
    {
      OnStack(cpu.rsp, cpu.mem, StackOf(Held(), boot, sys.sched.cur))
    }

    constructor (sys: System, cpu: Cpu, boot: Stack, userTrampoline: nat, taskTrampoline: nat, taskExit: nat)
      requires sys.Valid() && |sys.sched.ring| == 1 && OutsideHeap(boot)
      ensures Valid() && this.sys == sys && this.cpu == cpu && this.boot == boot
      ensures this.userTrampoline == userTrampoline && this.taskTrampoline == taskTrampoline && this.taskExit == taskExit
    {
      this.sys, this.cpu, this.boot := sys, cpu, boot;
      this.userTrampoline, this.taskTrampoline, this.taskExit := userTrampoline, taskTrampoline, taskExit;
    }

    /** The end of schedule: if another task has become current, context_switch to it. */
    method SwitchTo(prev: nat, ghost c: nat)
      requires sys.sched.Valid() && c < |Held()| && Held()[c].task == prev
      requires AllParked(cpu.mem, cpu.savedRsp, Held(), boot, prev) && OnStack(cpu.rsp, cpu.mem, StackOf(Held(), boot, c))
      modifies cpu
      ensures sys.sched.current == prev ==> Machine() == old(Machine())
      ensures sys.sched.current != prev ==>
                sys.sched.current in old(cpu.savedRsp) &&
                Switched(old(Machine()), prev, old(cpu.savedRsp)[sys.sched.current], Machine())
      ensures Parks()
    {
      var next := sys.sched.current;
      if next == prev { return; }
      ghost var m, held := Machine(), Held();
      assert ParkedAt(cpu.mem, cpu.savedRsp, held, boot, prev, sys.sched.cur);
      cpu.ContextSwitch(prev, cpu.savedRsp[next]);
      SwitchParks(m, Machine(), held, boot, prev, next, c);
    }

    ghost function Moment(): Context.Moment
      reads sys.sched, cpu
    {
      Context.Moment(Machine(), sys.sched.current)
    }

    ghost function Stacks(): map<nat, Stack>
      reads sys, sys.loader, sys.loader.vmm, sys.loader.vmm.pmm, sys.heap, sys.sched, sys.sched.vmm`cr3
      requires sys.sched.Valid() && Tenants(sys.Now(), sys.loader.vmm.kernelPml4)
    {
      StacksOf(sys.Now(), sys.loader.vmm.kernelPml4, boot)
    }

    /** The switch, as a step of a run on disjoint stacks. */
    method Resume(prev: nat, ghost c: nat)
      requires sys.Valid() && OutsideHeap(boot) && c < |Held()| && Held()[c].task == prev
      requires AllParked(cpu.mem, cpu.savedRsp, Held(), boot, prev) && OnStack(cpu.rsp, cpu.mem, StackOf(Held(), boot, c))
      modifies cpu
      ensures Valid() && Disjoint(Stacks())
      ensures if sys.sched.current == prev then Machine() == old(Machine())
              else Happens(Stacks(), Context.Moment(old(Machine()), prev), Context.Event.Switch(sys.sched.current), Moment())
    {
      ghost var x, w, k := Context.Moment(Machine(), prev), sys.Now(), sys.loader.vmm.kernelPml4;
      StacksDisjoint(sys.heap.bs, w, k, boot);
      SwitchTo(prev, c);
      TurnHappens(w, k, boot, x, Moment(), c, sys.sched.cur);
    }

    /** A timer tick or a yield, with the switch of stacks: if another task runs afterwards,
        it is one step of a run of context switches on disjoint stacks. */
    method Tick()
      requires Valid() && Running()
      modifies sys.sched`tasks, sys.sched`current, sys.sched`rsp0, sys.sched`cur, sys.loader.vmm`cr3, cpu
      ensures Valid() && sys.Now() == old(sys.Now()) && sys.sched.Abs() == SchedRing.Schedule(old(sys.sched.Abs()))
      ensures Disjoint(Stacks())
      ensures if sys.sched.current == old(sys.sched.current) then Machine() == old(Machine())
              else Happens(Stacks(), old(Moment()), Context.Event.Switch(sys.sched.current), Moment())
    {
      ghost var c, w := sys.sched.cur, sys.Now();
      var prev := sys.sched.current;
      sys.Tick();
      assert sys.Now() == w;
      Resume(prev, c);
    }

    /** The running task exits; likewise. */
    method Exit()
      requires Valid() && Running()
      modifies sys.sched`tasks, sys.sched`current, sys.sched`rsp0, sys.sched`cur, sys.loader.vmm`cr3, cpu
      ensures Valid() && sys.Now() == old(sys.Now()) && sys.sched.Abs() == SchedRing.Exit(old(sys.sched.Abs()))
      ensures Disjoint(Stacks())
      ensures if sys.sched.current == old(sys.sched.current) then Machine() == old(Machine())
              else Happens(Stacks(), old(Moment()), Context.Event.Switch(sys.sched.current), Moment())
    {
      ghost var c, w := sys.sched.cur, sys.Now();
      var prev := sys.sched.current;
      sys.ExitCurrent();
      assert sys.Now() == w;
      Resume(prev, c);
    }

    /** A new task `h`, the last of the ring, gets its first stack frame and saved rsp. */
    method Prime(t: nat, ghost h: Held, ghost held: seq<Held>, first: nat, second: nat, trampoline: nat)
      requires sys.Valid() && OutsideHeap(boot) && Held() == held + [h] && h.task == t && |held| > 0
      requires AllParked(cpu.mem, cpu.savedRsp, held, boot, sys.sched.current) && TopOk(h.stack, h.top)
      modifies cpu`mem, cpu`savedRsp
      ensures Valid() && Primed(cpu.mem, h.top, first, second, trampoline)
      ensures cpu.savedRsp == old(cpu.savedRsp)[t := h.top - 72]
      ensures WritesIn(old(cpu.mem), cpu.mem, h.top - 72, h.top)
    {
      ghost var mem0, saved0 := cpu.mem, cpu.savedRsp;
      LastOfRing(sys.sched.Abs(), held, h);
      var top := sys.sched.tasks[t].kstackTop;
      var mem, sp := PrimeStack(cpu.mem, top, first, second, trampoline);
      cpu.mem := mem;
      cpu.savedRsp := cpu.savedRsp[t := sp];
      PrimingParks(mem0, saved0, held, boot, sys.sched.current, h, mem, top, first, second, trampoline);
    }

    /** `spawn_user_process` with all that task_create_user writes: the first resume will reach
        the trampoline, which pops the entry point and the top of the user stack. */
    method Spawn(image: seq<Elf.Byte>) returns (t: nat, ghost h: Held, ghost leak: set<nat>)
      requires Valid() && Elf.Loadable(image)
      requires 1 + |Needs(image)| <= sys.loader.vmm.pmm.FreeCount()
      requires Elf.HeaderOk(image) && Elf.Entry64(image) != 0 ==> HeapServes(sys.heap.bs)
      modifies sys.loader`ram, sys.loader.vmm`mem, sys.loader.vmm`at, sys.loader.vmm.pmm, sys.loader.vmm.pmm.bitmap
      modifies sys.heap, sys.sched`tasks, sys.sched`next, sys.sched`nextId, sys.sched`ring, cpu`mem, cpu`savedRsp
      ensures Valid()
      ensures t != 0 <==> Elf.HeaderOk(image) && Elf.Entry64(image) != 0
      ensures t == 0 ==> sys.Now() == old(sys.Now()) && Machine() == old(Machine())
      ensures t != 0 ==>
                && Spawned(old(sys.Now()), sys.Now(), leak) && sys.Now().held == old(sys.Now().held) + [h] && h.task == t
                && TopOk(h.stack, h.top) && t in sys.sched.tasks && sys.sched.tasks[t].kstackTop == h.top
                && Primed(cpu.mem, h.top, Elf.Entry64(image), USER_STACK_VADDR + 4096, userTrampoline)
                && cpu.savedRsp == old(cpu.savedRsp)[t := h.top - 72]
                && WritesIn(old(cpu.mem), cpu.mem, h.top - 72, h.top)
    {
      ghost var held := Held();
      t, h, leak := sys.Spawn(image);
      if t != 0 {
        Prime(t, h, held, Elf.Entry64(image), USER_STACK_VADDR + 4096, userTrampoline);
      }
    }

    /** `task_create` with all that it writes: the trampoline will pop the entry point, with
        task_exit below it. */
    method TaskCreate(entry: nat) returns (t: nat, ghost h: Held)
      requires Valid() && 1 <= sys.loader.vmm.pmm.FreeCount() && HeapServes(sys.heap.bs)
      modifies sys.loader.vmm`mem, sys.loader.vmm`at, sys.loader.vmm.pmm, sys.loader.vmm.pmm.bitmap
      modifies sys.heap, sys.sched`tasks, sys.sched`next, sys.sched`nextId, sys.sched`ring, cpu`mem, cpu`savedRsp
      ensures Valid() && t != 0
      ensures Spawned(old(sys.Now()), sys.Now(), {}) && sys.Now().held == old(sys.Now().held) + [h] && h.task == t
      ensures TopOk(h.stack, h.top) && t in sys.sched.tasks && sys.sched.tasks[t].kstackTop == h.top
      ensures Primed(cpu.mem, h.top, entry, taskExit, taskTrampoline)
      ensures cpu.savedRsp == old(cpu.savedRsp)[t := h.top - 72]
      ensures WritesIn(old(cpu.mem), cpu.mem, h.top - 72, h.top)
    {
      ghost var held := Held();
      t, h := sys.TaskCreate();
      Prime(t, h, held, entry, taskExit, taskTrampoline);
    }

    /** `task_reap`: the tasks that are left can still be resumed. */
    method Reap(t: nat, ghost i: nat) returns (frames: nat)
      requires Valid()
      requires t != 0 && t != sys.sched.taskList ==> 0 < i < |sys.sched.ring| && sys.sched.ring[i] == t && i != sys.sched.cur
      modifies sys.loader.vmm`mem, sys.loader.vmm`at, sys.loader.vmm.pmm, sys.loader.vmm.pmm.bitmap
      modifies sys.heap, sys.sched`tasks, sys.sched`next, sys.sched`ring, sys.sched`cur
      ensures Valid()
      ensures t == 0 || t == old(sys.sched.taskList) ==> sys.Now() == old(sys.Now())
      ensures t != 0 && t != old(sys.sched.taskList) ==> Reaped(old(sys.Now()), sys.Now(), i)
    {
      ghost var held := Held();
      if t != 0 && t != sys.sched.taskList {
        ReapParks(cpu.mem, cpu.savedRsp, held, boot, sys.sched.current, i);
      }
      frames := sys.Reap(t, i);
    }

    /** The running task executes: it may write anything but other tasks' stacks. */
    method Work(mem: Words, regs: Saved, rsp: nat, rip: nat)
      requires Valid() && Harmless(Stacks(), cpu.mem, mem, sys.sched.current)
      modifies cpu`mem, cpu`regs, cpu`rsp, cpu`rip
      ensures Valid() && Machine() == Context.Machine(mem, View(regs, rsp, rip), old(cpu.savedRsp))
      ensures Happens(Stacks(), old(Moment()), Context.Event.Work, Moment())
    {
      ghost var x, w, k := Moment(), sys.Now(), sys.loader.vmm.kernelPml4;
      WorkParks(cpu.mem, mem, cpu.savedRsp, Held(), boot, sys.sched.current);
      WorkHappens(w, k, boot, sys.sched.cur, x, Context.Moment(Context.Machine(mem, View(regs, rsp, rip), cpu.savedRsp), x.cur));
      cpu.mem, cpu.regs, cpu.rsp, cpu.rip := mem, regs, rsp, rip;
    }
  }

  /** No word is lost, and none on the stack of a task other than `cur` is written. */
  ghost predicate Harmless(stacks: map<nat, Stack>, m0: Words, m1: Words, cur: nat) {
    && (forall a | a in m0 :: a in m1)
    && (forall t, a | t in stacks && t != cur && stacks[t].lo <= a < stacks[t].hi && a in m1 :: a in m0 && m1[a] == m0[a])
  }

  lemma WorkHappens(w: World, k: nat, boot: Stack, c: nat, x: Context.Moment, y: Context.Moment)
    requires Tenants(w, k) && c < |w.held| && w.held[c].task == x.cur == y.cur && y.m.savedRsp == x.m.savedRsp
    requires Harmless(StacksOf(w, k, boot), x.m.mem, y.m.mem, x.cur)
    ensures Happens(StacksOf(w, k, boot), x, Context.Event.Work, y)
  {
    StackAt(w, k, boot, c);
  }

  lemma WorkParks(mem: Words, mem1: Words, saved: map<nat, nat>, held: seq<Held>, boot: Stack, cur: nat)
    requires AllParked(mem, saved, held, boot, cur) && forall a | a in mem :: a in mem1
    ensures AllParked(mem1, saved, held, boot, cur)
  {
    forall i | 0 <= i < |held|
      ensures ParkedAt(mem1, saved, held, boot, cur, i)
    {
      assert ParkedAt(mem, saved, held, boot, cur, i);
    }
  }

  lemma LastOfRing(q: SchedRing.Queue, held: seq<Held>, h: Held)
    requires SchedRing.Inv(q) && HeldBy(q) == held + [h]
    ensures h.task in q.tasks && q.tasks[h.task].stackBase == h.stack && q.tasks[h.task].kstackTop == h.top
    ensures forall i | 0 <= i < |held| :: held[i].task != h.task
  {
    var n := |held|;
    assert HeldBy(q)[n] == h;
    forall i | 0 <= i < n
      ensures held[i].task != h.task
    {
      assert HeldBy(q)[i] == held[i];
    }
  }

  /** The first turn of a new task, whatever runs in between: in a valid machine its stack is
      disjoint from all others, so the first switch to it lands in its trampoline with zero
      registers and its two words still on the stack. */
  lemma FirstTurn(bs: seq<Block>, w: World, k: nat, boot: Stack, i: nat, moments: seq<Context.Moment>, events: seq<Context.Event>, j: nat,
                  first: nat, second: nat, trampoline: nat)
    requires Wf(bs) && w.live == Live(bs) && Tenants(w, k) && OutsideHeap(boot) && 0 < i < |w.held|
    requires var t, top, m := w.held[i].task, w.held[i].top, moments;
             && 0 < j < |m| == |events| + 1 && Primed(m[0].m.mem, top, first, second, trampoline)
             && t in m[0].m.savedRsp && m[0].m.savedRsp[t] == top - 72
             && events[j - 1] == Context.Event.Switch(t) && forall n | 0 <= n < j :: m[n].cur != t
    requires forall n :: 0 <= n < |events| ==> Happens(StacksOf(w, k, boot), moments[n], events[n], moments[n + 1])
    ensures moments[j].m.view == View(Saved(0, 0, 0, 0, 0, 0), w.held[i].top - 16, trampoline)
    ensures Primed(moments[j].m.mem, w.held[i].top, first, second, trampoline)
  {
    StacksDisjoint(bs, w, k, boot);
    StackAt(w, k, boot, i);
    assert HeldOk(w, i);
    FirstResume(StacksOf(w, k, boot), moments, events, w.held[i].task, 0, j, w.held[i].top, first, second, trampoline);
  }

  /** A switch from a task on its own stack is a step of a run of context switches. */
  lemma TurnHappens(w: World, k: nat, boot: Stack, x: Context.Moment, y: Context.Moment, c: nat, n: nat)
    requires Tenants(w, k) && c < |w.held| && n < |w.held| && w.held[c].task == x.cur && w.held[n].task == y.cur
    requires OnStack(x.m.view.rsp, x.m.mem, StackOf(w.held, boot, c))
    requires y.cur != x.cur ==> y.cur in x.m.savedRsp && Switched(x.m, x.cur, x.m.savedRsp[y.cur], y.m)
    ensures y.cur != x.cur ==> Happens(StacksOf(w, k, boot), x, Context.Event.Switch(y.cur), y)
  {
    StackAt(w, k, boot, c);
    StackAt(w, k, boot, n);
  }
}
