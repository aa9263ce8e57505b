/** What the kernel has handed out, as one value: address spaces, frames, heap blocks, and
    the tasks that hold them. Spawning and reaping are inverse to one another on it, whatever
    happens to other tasks in between. */
module Worlds {
  import opened Elf
  import opened HeapBlocks
  import opened SchedRing

  /** What a task holds: its struct and its kernel stack in the heap, with the stack's top, and
      a space. */
  datatype Held = Held(task: nat, stack: nat, top: nat, pml4: nat)

  /** `held` lists the tasks in ring order, the boot task first. */
  datatype World = World(spaces: map<nat, Space>, used: set<nat>, live: set<Block>, held: seq<Held>)

  const TASK_BYTES: nat := 48
  const STACK_SIZE: nat := 16384

  function Payload(b: Block): nat { b.addr + HEADER_SIZE }

  ghost function Payloads(live: set<Block>): set<nat> {
    set b | b in live :: Payload(b)
  }

  /** The live blocks other than those with the given payloads. */
  ghost function Without(live: set<Block>, gone: set<nat>): set<Block> {
    set b | b in live && Payload(b) !in gone
  }

  /** A live block with this payload has room for `n` bytes. */
  ghost predicate Roomy(live: set<Block>, p: nat, n: nat) {
    forall b | b in live && Payload(b) == p :: b.size >= n
  }

  /** `top` is the end of a 16 KB stack, aligned down to 16 bytes. */
  predicate TopOk(stack: nat, top: nat) {
    top % 16 == 0 && stack + STACK_SIZE - 16 < top <= stack + STACK_SIZE
  }

  // ---- what the tasks of the run queue hold ----

  function HeldAt(q: Queue, i: nat): Held
    requires i < |q.ring| && q.ring[i] in q.tasks
  {
    Held(q.ring[i], TaskAt(q, i).stackBase, TaskAt(q, i).kstackTop, TaskAt(q, i).pml4)
  }

  function HeldBy(q: Queue): (h: seq<Held>)
    requires SchedRing.Inv(q)
    ensures |h| == |q.ring| && forall i | 0 <= i < |h| :: h[i] == HeldAt(q, i)
  {
    seq(|q.ring|, i requires 0 <= i < |q.ring| => HeldAt(q, i))
  }

  /** Switching changes nobody's holdings. */
  lemma ScheduleHolds(q: Queue)
    requires SchedRing.Inv(q)
    ensures SchedRing.Inv(Schedule(q)) && HeldBy(Schedule(q)) == HeldBy(q)
  {
    ScheduleInv(q);
    if NextAt(q) != q.cur {
      forall i | 0 <= i < |q.ring|
        ensures HeldBy(Schedule(q))[i] == HeldBy(q)[i]
      {
        SwitchTasks(q, i);
      }
    }
  }

  /** Neither does exiting. */
  lemma ExitHolds(q: Queue)
    requires SchedRing.Inv(q)
    ensures SchedRing.Inv(Exit(q)) && HeldBy(Exit(q)) == HeldBy(q)
  {
    var m := MarkDone(q);
    forall i | 0 <= i < |q.ring|
      ensures HeldBy(m)[i] == HeldBy(q)[i]
    {
      assert i == q.cur || TaskAt(m, i) == TaskAt(q, i);
    }
    assert HeldBy(m) == HeldBy(q);
    ScheduleHolds(m);
  }

  lemma CreateHolds(q: Queue, t: nat, task: Task)
    requires SchedRing.Inv(q) && t !in q.ring && task.state == Ready
    ensures SchedRing.Inv(Create(q, t, task))
    ensures HeldBy(Create(q, t, task)) == HeldBy(q) + [Held(t, task.stackBase, task.kstackTop, task.pml4)]
  {
    CreateInv(q, t, task);
    var c := Create(q, t, task);
    forall i | 0 <= i < |q.ring|
      ensures HeldBy(c)[i] == HeldBy(q)[i]
    {
      assert c.ring[i] == q.ring[i] && q.ring[i] in q.ring;
    }
  }

  lemma ReapHolds(q: Queue, i: nat)
    requires SchedRing.Inv(q) && i < |q.ring| && i != q.cur
    ensures SchedRing.Inv(Reap(q, i)) && HeldBy(Reap(q, i)) == Drop(HeldBy(q), i)
  {
    ReapInv(q, i);
    var r := Reap(q, i);
    forall j | 0 <= j < |r.ring|
      ensures HeldBy(r)[j] == Drop(HeldBy(q), i)[j]
    {
      var o := if j < i then j else j + 1;
      assert r.ring[j] == q.ring[o] && q.ring[o] != q.ring[i];
    }
  }

  // ---- taking a task out of the world ----

  function Drop(h: seq<Held>, i: nat): seq<Held>
    requires i < |h|
  {
    h[..i] + h[i + 1..]
  }

  ghost predicate HasSpace(w: World, i: nat) {
    i < |w.held| && w.held[i].pml4 in w.spaces
  }

  /** The world without the task at position `i` and all that it holds. */
  ghost function Minus(w: World, i: nat): World
    requires HasSpace(w, i)
  {
    var h := w.held[i];
    World(w.spaces - {h.pml4}, w.used - w.spaces[h.pml4].owned, Without(w.live, {h.task, h.stack}), Drop(w.held, i))
  }

  /** Two tasks share neither space nor heap blocks. */
  predicate Apart(x: Held, y: Held) {
    x.pml4 != y.pml4 && x.task != y.task && x.stack != y.stack && x.task != y.stack && x.stack != y.task
  }

  ghost predicate HeldOk(w: World, i: nat)
    requires i < |w.held|
  {
    && w.held[i].pml4 in w.spaces
    && w.held[i].task in Payloads(w.live)
    && (i > 0 ==>
          && w.held[i].stack in Payloads(w.live) && w.held[i].stack != w.held[i].task
          && Roomy(w.live, w.held[i].stack, STACK_SIZE) && TopOk(w.held[i].stack, w.held[i].top))
  }

  /** Different spaces own different frames, all of them in use. */
  ghost predicate Tidy(w: World) {
    && (forall q | q in w.spaces :: w.spaces[q].owned <= w.used)
    && (forall q, s | q in w.spaces && s in w.spaces && q != s :: w.spaces[q].owned !! w.spaces[s].owned)
  }

  /** Every task has its own struct, stack and space. Only the boot task, which comes first,
      has the kernel's space `k`, and its stack is not in the heap. */
  ghost predicate Tenants(w: World, k: nat) {
    && Tidy(w) && |w.held| > 0 && w.held[0].pml4 == k && w.held[0].stack == 0
    && (forall i {:trigger HeldOk(w, i)} :: 0 <= i < |w.held| ==> HeldOk(w, i))
    && (forall i, j {:trigger Apart(w.held[i], w.held[j])} :: 0 <= i < j < |w.held| ==> Apart(w.held[i], w.held[j]))
  }

  /** Taking a task out leaves all others what they hold. */
  lemma MinusTenants(w: World, k: nat, i: nat)
    requires Tenants(w, k) && 0 < i < |w.held|
    ensures HasSpace(w, i) && Tenants(Minus(w, i), k)
  {
    assert HeldOk(w, i);
    var m, h := Minus(w, i), w.held[i];
    forall j | 0 <= j < |m.held|
      ensures HeldOk(m, j)
    {
      var o := if j < i then j else j + 1;
      assert m.held[j] == w.held[o];
      assert HeldOk(w, o);
      assert Apart(w.held[if o < i then o else i], w.held[if o < i then i else o]);
      StillThere(w.live, {h.task, h.stack}, m.held[j].task);
      if j > 0 { StillThere(w.live, {h.task, h.stack}, m.held[j].stack); }
    }
    forall a, b | 0 <= a < b < |m.held|
      ensures Apart(m.held[a], m.held[b])
    {
      var x, y := if a < i then a else a + 1, if b < i then b else b + 1;
      assert m.held[a] == w.held[x] && m.held[b] == w.held[y];
      assert Apart(w.held[x], w.held[y]);
    }
    assert m.held[0] == w.held[0];
  }

  lemma StillThere(live: set<Block>, gone: set<nat>, p: nat)
    requires p in Payloads(live) && p !in gone
    ensures p in Payloads(Without(live, gone))
  {
    var b :| b in live && Payload(b) == p;
    assert b in Without(live, gone);
  }

  // ---- steps ----

  /** `w` with some more frames in use that belong to nobody. */
  ghost function Leaking(w: World, leak: set<nat>): World {
    w.(used := w.used + leak)
  }

  /** A task joins at the end; without it the world is as before, but for `leak`: frames that
      are in use from now on and belong to nobody. */
  ghost predicate Spawned(w0: World, w1: World, leak: set<nat>) {
    && |w1.held| == |w0.held| + 1 && HasSpace(w1, |w0.held|)
    && Minus(w1, |w0.held|) == Leaking(w0, leak) && leak !! w0.used
  }

  ghost predicate Reaped(w0: World, w1: World, i: nat) {
    0 < i < |w0.held| && HasSpace(w0, i) && w1 == Minus(w0, i)
  }

  /** One step of the system. Switches, exits and refused programs leave the world alone. */
  ghost predicate Steps(w0: World, w1: World, leak: set<nat>) {
    Spawned(w0, w1, leak) || (leak == {} && (w1 == w0 || exists i :: Reaped(w0, w1, i)))
  }

  // ---- what is left when every process is taken out ----

  /** The world with every task but the boot task taken out, the last one first. */
  ghost function Net(w: World): World
    decreases |w.held|
  {
    if |w.held| <= 1 || !HasSpace(w, |w.held| - 1) then w else Net(Minus(w, |w.held| - 1))
  }

  /** Two tasks can be taken out in either order. */
  lemma MinusCommutes(w: World, k: nat, i: nat, last: nat)
    requires Tenants(w, k) && 0 < i < last == |w.held| - 1
    ensures HasSpace(w, i) && HasSpace(w, last)
    ensures HasSpace(Minus(w, i), last - 1) && HasSpace(Minus(w, last), i)
    ensures Minus(Minus(w, i), last - 1) == Minus(Minus(w, last), i)
  {
    assert HeldOk(w, i) && HeldOk(w, last) && Apart(w.held[i], w.held[last]);
    var x, y := Minus(Minus(w, i), last - 1), Minus(Minus(w, last), i);
    assert x.spaces == y.spaces;
    assert x.used == y.used;
    assert x.live == y.live;
    assert x.held == y.held;
  }

  lemma NetUnfold(w: World, last: nat, m: World)
    requires last == |w.held| - 1 && last > 0 && HasSpace(w, last) && m == Minus(w, last)
    ensures Net(w) == Net(m)
  {}

  /** Reaping any task, in whatever order, does not change what is left in the end. */
  lemma {:induction false} NetAfterReap(w: World, k: nat, i: nat)
    requires Tenants(w, k) && 0 < i < |w.held|
    ensures HasSpace(w, i) && Net(Minus(w, i)) == Net(w)
    decreases |w.held|
  {
    assert HeldOk(w, i);
    var last := |w.held| - 1;
    if i == last {
      NetUnfold(w, i, Minus(w, i));
    } else {
      MinusTenants(w, k, last);
      NetAfterReap(Minus(w, last), k, i);
      MinusCommutes(w, k, i, last);
      NetSwap(w, Minus(w, i), Minus(w, last), Minus(Minus(w, last), i), i, last);
    }
  }

  lemma NetSwap(w: World, x: World, y: World, z: World, i: nat, last: nat)
    requires 0 < i < last == |w.held| - 1 && HasSpace(w, last) && y == Minus(w, last)
    requires |x.held| == last && HasSpace(x, last - 1) && z == Minus(x, last - 1) && Net(z) == Net(y)
    ensures Net(x) == Net(w)
  {
    NetUnfold(w, last, y);
    NetUnfold(x, last - 1, z);
  }

  /** Frames that belong to nobody stay in use whoever is taken out. */
  lemma {:induction false} NetAfterLeak(w: World, k: nat, leak: set<nat>)
    requires Tenants(w, k) && leak !! w.used
    ensures Net(Leaking(w, leak)) == Leaking(Net(w), leak)
    decreases |w.held|
  {
    var last := |w.held| - 1;
    if last > 0 {
      MinusTenants(w, k, last);
      var m := Minus(w, last);
      assert Minus(Leaking(w, leak), last) == Leaking(m, leak);
      NetAfterLeak(m, k, leak);
    }
  }

  lemma NoLeak(w: World)
    ensures Leaking(w, {}) == w
  {
    assert w.used + {} == w.used;
  }

  /** Every step keeps what is left in the end, up to the leak. */
  lemma StepKeepsNet(w0: World, w1: World, k: nat, leak: set<nat>)
    requires Tenants(w0, k) && Steps(w0, w1, leak)
    ensures Net(w1) == Leaking(Net(w0), leak)
  {
    if Spawned(w0, w1, leak) {
      assert HeldOk(w0, 0);
      NetAfterLeak(w0, k, leak);
    } else {
      NoLeak(Net(w0));
      if w1 != w0 {
        var i :| Reaped(w0, w1, i);
        NetAfterReap(w0, k, i);
      }
    }
  }

  // ---- whole runs ----

  ghost predicate Run(ws: seq<World>, leaks: seq<set<nat>>, k: nat) {
    && |ws| == |leaks| + 1
    && (forall i :: 0 <= i < |ws| ==> Tenants(ws[i], k))
    && (forall i :: 0 <= i < |leaks| ==> Steps(ws[i], ws[i + 1], leaks[i]))
  }

  ghost function Leaked(leaks: seq<set<nat>>, n: nat): set<nat>
    requires n <= |leaks|
  {
    if n == 0 then {} else Leaked(leaks, n - 1) + leaks[n - 1]
  }

  lemma {:induction false} RunKeepsNet(ws: seq<World>, leaks: seq<set<nat>>, k: nat, n: nat)
    requires Run(ws, leaks, k) && n <= |leaks|
    ensures Net(ws[n]) == Leaking(Net(ws[0]), Leaked(leaks, n))
  {
    if n == 0 {
      NoLeak(Net(ws[0]));
    } else {
      RunKeepsNet(ws, leaks, k, n - 1);
      StepOfRun(ws, leaks, k, n - 1);
      LeakTwice(Net(ws[0]), Leaked(leaks, n - 1), leaks[n - 1], Leaked(leaks, n));
    }
  }

  lemma StepOfRun(ws: seq<World>, leaks: seq<set<nat>>, k: nat, n: nat)
    requires Run(ws, leaks, k) && n < |leaks|
    ensures Net(ws[n + 1]) == Leaking(Net(ws[n]), leaks[n])
  {
    StepKeepsNet(ws[n], ws[n + 1], k, leaks[n]);
  }

  lemma LeakTwice(w: World, x: set<nat>, y: set<nat>, both: set<nat>)
    requires both == x + y
    ensures Leaking(Leaking(w, x), y) == Leaking(w, both)
  {
    assert w.used + x + y == w.used + both;
  }

  /** Over every interleaving of spawns, switches, exits and reaps: whenever only the boot
      task is left, the world is the one before the first spawn, plus what leaked. */
  lemma RunReturnsEverything(ws: seq<World>, leaks: seq<set<nat>>, k: nat)
    requires Run(ws, leaks, k) && |ws[0].held| == 1 && |ws[|leaks|].held| == 1
    ensures ws[|leaks|] == Leaking(ws[0], Leaked(leaks, |leaks|))
  {
    RunKeepsNet(ws, leaks, k, |leaks|);
  }
}
