/** The context switch (kernel/sched/context_switch.asm), the primed stacks of new tasks
    (kernel/sched/sched.c) and the trampolines that consume them
    (kernel/sched/task_entry.asm), over a memory of 8-byte stack words. */
module Context {

  /** Stack memory, one word per 8 bytes, by byte address. */
  type Words = map<nat, nat>

  /** The callee-saved registers. */
  datatype Saved = Saved(rbp: nat, rbx: nat, r12: nat, r13: nat, r14: nat, r15: nat)

  /** What a task sees when it runs: its registers, stack pointer and instruction pointer. */
  datatype View = View(regs: Saved, rsp: nat, rip: nat)

  predicate HasFrame(mem: Words, sp: nat) {
    sp in mem && sp + 8 in mem && sp + 16 in mem && sp + 24 in mem && sp + 32 in mem && sp + 40 in mem && sp + 48 in mem
  }

  /** What the six pops and the return make of the words at a saved stack pointer. */
  function FrameView(mem: Words, sp: nat): View
    requires HasFrame(mem, sp)
  {
    View(Saved(mem[sp + 40], mem[sp + 32], mem[sp + 24], mem[sp + 16], mem[sp + 8], mem[sp]), sp + 56, mem[sp + 48])
  }

  /** Only words in [lo, hi) were written, and none was taken away. */
  ghost predicate WritesIn(m0: Words, m1: Words, lo: nat, hi: nat) {
    && (forall a | a in m0 :: a in m1)
    && (forall a | a in m1 && !(lo <= a < hi) :: a in m0 && m1[a] == m0[a])
  }

  class Cpu {
    var mem: Words
    var regs: Saved
    var rsp: nat
    var rip: nat
    /** The rsp field of each task. */
    var savedRsp: map<nat, nat>

    constructor (mem: Words, regs: Saved, rsp: nat, rip: nat, savedRsp: map<nat, nat>)
      ensures this.mem == mem && this.regs == regs && this.rsp == rsp && this.rip == rip && this.savedRsp == savedRsp
    {
      this.mem, this.regs, this.rsp, this.rip, this.savedRsp := mem, regs, rsp, rip, savedRsp;
    }

    method Push(x: nat)
      requires rsp >= 8
      modifies this`mem, this`rsp
      ensures rsp == old(rsp) - 8 && mem == old(mem)[rsp := x]
    {
      rsp := rsp - 8;
      mem := mem[rsp := x];
    }

    method Pop() returns (x: nat)
      requires rsp in mem
      modifies this`rsp
      ensures x == mem[old(rsp)] && rsp == old(rsp) + 8
    {
      x := mem[rsp];
      rsp := rsp + 8;
    }

    /** The six pushes. */
    method PushAll()
      requires rsp >= 48 && rsp in mem
      modifies this`mem, this`rsp
      ensures rsp == old(rsp) - 48 && HasFrame(mem, rsp)
      ensures FrameView(mem, rsp) == View(regs, old(rsp) + 8, old(mem)[old(rsp)])
      ensures WritesIn(old(mem), mem, rsp, old(rsp))
    {
      Push(regs.rbp);
      Push(regs.rbx);
      Push(regs.r12);
      Push(regs.r13);
      Push(regs.r14);
      Push(regs.r15);
    }

    /** The six pops and the return. */
    method PopAll()
      requires HasFrame(mem, rsp)
      modifies this`regs, this`rsp, this`rip
      ensures View(regs, rsp, rip) == FrameView(mem, old(rsp))
    {
      var r15 := Pop();
      var r14 := Pop();
      var r13 := Pop();
      var r12 := Pop();
      var rbx := Pop();
      var rbp := Pop();
      regs := Saved(rbp, rbx, r12, r13, r14, r15);
      rip := Pop();
    }

    /** `context_switch(&prev->rsp, newRsp)`, entered with the return address on the stack. */
    method ContextSwitch(prev: nat, newRsp: nat)
      requires rsp >= 48 && rsp in mem && HasFrame(mem, newRsp)
      modifies this
      ensures Switched(old(Machine(mem, View(regs, rsp, rip), savedRsp)), prev, newRsp,
                       Machine(mem, View(regs, rsp, rip), savedRsp))
    {
      PushAll();
      savedRsp := savedRsp[prev := rsp];
      rsp := newRsp;
      PopAll();
    }
  }

  datatype Machine = Machine(mem: Words, view: View, savedRsp: map<nat, nat>)

  /** One switch: the task that leaves keeps its registers, the stack pointer past its return
      address and that address in a frame on its own stack; the other continues with what
      its frame holds. */
  ghost predicate Switched(m0: Machine, prev: nat, newRsp: nat, m1: Machine) {
    && m0.view.rsp >= 48 && m0.view.rsp in m0.mem
    && m1.savedRsp == m0.savedRsp[prev := m0.view.rsp - 48]
    && WritesIn(m0.mem, m1.mem, m0.view.rsp - 48, m0.view.rsp)
    && HasFrame(m1.mem, m0.view.rsp - 48)
    && FrameView(m1.mem, m0.view.rsp - 48) == View(m0.view.regs, m0.view.rsp + 8, m0.mem[m0.view.rsp])
    && HasFrame(m1.mem, newRsp) && m1.view == FrameView(m1.mem, newRsp)
  }

  // ---- whole runs ----

  /** A kernel stack: the bytes [lo, hi). */
  datatype Stack = Stack(lo: nat, hi: nat)

  predicate Disjoint(stacks: map<nat, Stack>) {
    forall s, t | s in stacks && t in stacks && s != t :: stacks[s].hi <= stacks[t].lo || stacks[t].hi <= stacks[s].lo
  }

  /** The machine and the task that runs on it. */
  datatype Moment = Moment(m: Machine, cur: nat)

  /** `Work`: the running task executes anything that writes no other task's stack.
      `Switch`: it calls context_switch to resume task `to`. */
  datatype Event = Work | Switch(to: nat)

  ghost predicate Happens(stacks: map<nat, Stack>, x: Moment, e: Event, y: Moment) {
    && x.cur in stacks
    && match e
       case Work =>
         && y.cur == x.cur && y.m.savedRsp == x.m.savedRsp
         && (forall a | a in x.m.mem :: a in y.m.mem)
         && (forall t, a | t in stacks && t != x.cur && stacks[t].lo <= a < stacks[t].hi && a in y.m.mem ::
               a in x.m.mem && y.m.mem[a] == x.m.mem[a])
       case Switch(to) =>
         && to in stacks && to != x.cur && y.cur == to && to in x.m.savedRsp
         && stacks[x.cur].lo + 48 <= x.m.view.rsp && x.m.view.rsp + 8 <= stacks[x.cur].hi
         && Switched(x.m, x.cur, x.m.savedRsp[to], y.m)
  }

  ghost predicate Run(stacks: map<nat, Stack>, moments: seq<Moment>, events: seq<Event>) {
    && Disjoint(stacks)
    && |moments| == |events| + 1
    && forall i :: 0 <= i < |events| ==> Happens(stacks, moments[i], events[i], moments[i + 1])
  }

  /** What a suspended task `t` has at moment `y` is what it had at `x`: its saved stack
      pointer and every word of its stack. */
  ghost predicate Kept(s: Stack, t: nat, x: Moment, y: Moment) {
    && (t in x.m.savedRsp <==> t in y.m.savedRsp)
    && (t in x.m.savedRsp ==> y.m.savedRsp[t] == x.m.savedRsp[t])
    && (forall a | s.lo <= a < s.hi && a in x.m.mem :: a in y.m.mem && y.m.mem[a] == x.m.mem[a])
  }

  lemma StepKeeps(stacks: map<nat, Stack>, x: Moment, e: Event, y: Moment, t: nat)
    requires Disjoint(stacks) && Happens(stacks, x, e, y) && t in stacks && t != x.cur
    ensures Kept(stacks[t], t, x, y)
  {}

  /** While a task is not running, nothing that happens touches its stack. */
  lemma {:induction false} SuspendedIsKept(stacks: map<nat, Stack>, moments: seq<Moment>, events: seq<Event>, t: nat, i: nat, j: nat)
    requires Run(stacks, moments, events) && t in stacks && i <= j < |moments|
    requires forall k | i <= k < j :: moments[k].cur != t
    ensures Kept(stacks[t], t, moments[i], moments[j])
    decreases j
  {
    if i < j {
      SuspendedIsKept(stacks, moments, events, t, i, j - 1);
      assert Happens(stacks, moments[j - 1], events[j - 1], moments[j]);
      StepKeeps(stacks, moments[j - 1], events[j - 1], moments[j], t);
    }
  }

  /** A task that left at moment `i` and is resumed by the step to moment `j`, with any
      interleaving of other tasks in between, finds the registers it had, its stack pointer
      past the return address, and continues at that address. */
  lemma ResumesWhereItLeft(stacks: map<nat, Stack>, moments: seq<Moment>, events: seq<Event>, i: nat, j: nat)
    requires Run(stacks, moments, events) && i < j - 1 && j < |moments|
    requires events[i].Switch? && events[j - 1] == Switch(moments[i].cur)
    requires forall k | i < k < j :: moments[k].cur != moments[i].cur
    ensures var v := moments[i].m.view;
            v.rsp in moments[i].m.mem && moments[j].m.view == View(v.regs, v.rsp + 8, moments[i].m.mem[v.rsp])
  {
    var t, x, y, z := moments[i].cur, moments[i], moments[i + 1], moments[j - 1];
    assert Happens(stacks, x, events[i], y);
    assert Happens(stacks, z, events[j - 1], moments[j]);
    SuspendedIsKept(stacks, moments, events, t, i + 1, j - 1);
    LeaveAndReturn(stacks, x, events[i], y, z, events[j - 1], moments[j]);
  }

  lemma LeaveAndReturn(stacks: map<nat, Stack>, x: Moment, e: Event, y: Moment, z: Moment, f: Event, w: Moment)
    requires Disjoint(stacks) && Happens(stacks, x, e, y) && e.Switch? && Happens(stacks, z, f, w) && f == Switch(x.cur)
    requires x.cur in stacks && Kept(stacks[x.cur], x.cur, y, z)
    ensures x.m.view.rsp in x.m.mem
    ensures w.m.view == View(x.m.view.regs, x.m.view.rsp + 8, x.m.mem[x.m.view.rsp])
  {
    var t, sp := x.cur, x.m.view.rsp - 48;
    StepKeeps(stacks, z, f, w, t);
    FrameCarries(stacks[t], t, y, z, sp);
    FrameCarries(stacks[t], t, z, w, sp);
  }

  /** A frame inside a kept stack stays what it was. */
  lemma FrameCarries(s: Stack, t: nat, x: Moment, y: Moment, sp: nat)
    requires Kept(s, t, x, y) && s.lo <= sp && sp + 56 <= s.hi && HasFrame(x.m.mem, sp)
    ensures HasFrame(y.m.mem, sp) && FrameView(y.m.mem, sp) == FrameView(x.m.mem, sp)
  {}

  // ---- new tasks ----

  /** A stack on which a first resume will land in `trampoline` with zero registers, and on
      which the next two pops give `first` and `second`. */
  ghost predicate Primed(mem: Words, top: nat, first: nat, second: nat, trampoline: nat) {
    && top >= 72 && HasFrame(mem, top - 72)
    && FrameView(mem, top - 72) == View(Saved(0, 0, 0, 0, 0, 0), top - 16, trampoline)
    && top - 16 in mem && mem[top - 16] == first && top - 8 in mem && mem[top - 8] == second
  }

  /** The stores that prime the stack of a new task, from the top down: nothing but the 72
      bytes below `top` is written. */
  method PrimeStack(mem: Words, top: nat, first: nat, second: nat, trampoline: nat) returns (primed: Words, sp: nat)
    requires top >= 72
    ensures Primed(primed, top, first, second, trampoline) && sp == top - 72
    ensures WritesIn(mem, primed, top - 72, top)
  {
    sp := top - 8;
    primed := mem[sp := second];
    sp := sp - 8;
    primed := primed[sp := first];
    sp := sp - 8;
    primed := primed[sp := trampoline];
    sp := sp - 8;
    primed := primed[sp := 0];
    sp := sp - 8;
    primed := primed[sp := 0];
    sp := sp - 8;
    primed := primed[sp := 0];
    sp := sp - 8;
    primed := primed[sp := 0];
    sp := sp - 8;
    primed := primed[sp := 0];
    sp := sp - 8;
    primed := primed[sp := 0];
  }

  /** The first resume of a new task, after any interleaving, lands in its trampoline with
      zero registers; popping then yields `first` (the entry point) and `second` (the user
      stack top, or task_exit for a kernel task), in that order. */
  lemma FirstResume(stacks: map<nat, Stack>, moments: seq<Moment>, events: seq<Event>, t: nat, i: nat, j: nat,
                    top: nat, first: nat, second: nat, trampoline: nat)
    requires Run(stacks, moments, events) && t in stacks && i < j < |moments|
    requires stacks[t].lo + 72 <= top <= stacks[t].hi
    requires Primed(moments[i].m.mem, top, first, second, trampoline)
    requires t in moments[i].m.savedRsp && moments[i].m.savedRsp[t] == top - 72
    requires events[j - 1] == Switch(t) && forall k | i <= k < j :: moments[k].cur != t
    ensures moments[j].m.view == View(Saved(0, 0, 0, 0, 0, 0), top - 16, trampoline)
    ensures Primed(moments[j].m.mem, top, first, second, trampoline)
  {
    assert Happens(stacks, moments[j - 1], events[j - 1], moments[j]);
    SuspendedIsKept(stacks, moments, events, t, i, j - 1);
    SuspendedIsKept(stacks, moments, events, t, i, j);
    FrameCarries(stacks[t], t, moments[i], moments[j], top - 72);
  }
}
