/** The scheduler object: `struct task` nodes by address, linked in a circle through their
    next pointers and walked and relinked in place (kernel/sched/sched.c). */
module Sched {
  import opened SchedRing
  import opened Vmm

  /** Following the links from the task at position `i` leads to the next position. */
  predicate LinkOk(next: map<nat, nat>, ring: seq<nat>, i: nat)
    requires i < |ring|
  {
    ring[i] in next && next[ring[i]] == ring[Adv(|ring|, i, 1)]
  }

  ghost predicate Circle(next: map<nat, nat>, ring: seq<nat>) {
    forall i {:trigger LinkOk(next, ring, i)} :: 0 <= i < |ring| ==> LinkOk(next, ring, i)
  }

  /** Appending at the end of the circle. */
  lemma AppendCircle(next: map<nat, nat>, ring: seq<nat>, t: nat)
    requires |ring| > 0 && Distinct(ring) && t !in ring && Circle(next, ring)
    ensures Circle(next[ring[|ring| - 1] := t][t := ring[0]], ring + [t])
  {
    var n, m := |ring|, next[ring[|ring| - 1] := t][t := ring[0]];
    forall i | 0 <= i < n + 1
      ensures LinkOk(m, ring + [t], i)
    {
      if i < n {
        assert LinkOk(next, ring, i);
        assert (ring + [t])[i] == ring[i];
      }
    }
  }

  /** Splicing the task at position `i` out of the circle. */
  lemma SpliceCircle(next: map<nat, nat>, ring: seq<nat>, i: nat)
    requires 0 < i < |ring| && Distinct(ring) && Circle(next, ring)
    ensures ring[i] in next
    ensures Circle(next[ring[i - 1] := next[ring[i]]], ring[..i] + ring[i + 1..])
  {
    assert LinkOk(next, ring, i);
    var m, r := next[ring[i - 1] := next[ring[i]]], ring[..i] + ring[i + 1..];
    forall j | 0 <= j < |r|
      ensures LinkOk(m, r, j)
    {
      var o := if j < i then j else j + 1;
      assert r[j] == ring[o] && LinkOk(next, ring, o);
    }
  }

  class Scheduler {
    const vmm: AddressSpaces
    /** The fields of each task, and its link, by the task's address. */
    var tasks: map<nat, Task>
    var next: map<nat, nat>
    var current: nat
    var taskList: nat
    var nextId: nat
    var rsp0: nat
    ghost var ring: seq<nat>
    ghost var cur: nat

    ghost function Abs(): Queue
      reads this, vmm`cr3
    {
      Queue(ring, tasks, cur, vmm.cr3, rsp0)
    }

    ghost predicate Valid()
      reads this, vmm`cr3
    {
      && Inv(Abs()) && Circle(next, ring)
      && current == ring[cur] && taskList == ring[0]
    }

    /** `sched_init`: the boot context becomes a ring of one. */
    constructor (vmm: AddressSpaces, boot: nat, rsp0: nat)
      requires vmm.cr3 == vmm.kernelPml4
      ensures Valid() && this.vmm == vmm && ring == [boot] && nextId == 1
      ensures Abs() == Queue([boot], map[boot := Task(0, Running, vmm.kernelPml4, rsp0, 0)], 0, vmm.kernelPml4, rsp0)
    {
      this.vmm := vmm;
      this.rsp0 := rsp0;
      tasks := map[boot := Task(0, Running, vmm.kernelPml4, rsp0, 0)];
      next := map[boot := boot];
      current, taskList, nextId := boot, boot, 1;
      ring, cur := [boot], 0;
      new;
      assert StateOk(Abs(), 0);
    }

    /** The skip loop of `schedule`: the next task that is not done, or the current one. It
        ends because each step is one place further round the ring. */
    method PickNext() returns (nxt: nat)
      requires Valid()
      ensures nxt == ring[NextAt(Abs())]
    {
      ghost var live, n := LiveOf(Abs()), |ring|;
      assert LinkOk(next, ring, cur);
      nxt := next[current];
      ghost var d := 1;
      while tasks[nxt].state == Done && nxt != current
        invariant 1 <= d <= n && nxt == ring[Adv(n, cur, d)] && Hop(live, cur, 1) == Hop(live, cur, d)
        decreases n - d
      {
        assert LinkOk(next, ring, Adv(n, cur, d));
        nxt := next[nxt];
        d := d + 1;
      }
      assert live[Adv(n, cur, d)] == (tasks[nxt].state != Done);
    }

    /** `schedule`. */
    method Schedule()
      requires Valid()
      modifies this`tasks, this`current, this`rsp0, this`cur, vmm`cr3
      ensures Valid() && Abs() == SchedRing.Schedule(old(Abs()))
    {
      ghost var s := Abs();
      ScheduleInv(s);
      var prev := current;
      var nxt := PickNext();
      if nxt == prev { return; }
      if tasks[prev].state == Running { tasks := tasks[prev := tasks[prev].(state := Ready)]; }
      tasks := tasks[nxt := tasks[nxt].(state := Running)];
      current := nxt;
      cur := NextAt(s);
      if tasks[nxt].pml4 != tasks[prev].pml4 { vmm.cr3 := tasks[nxt].pml4; }
      rsp0 := tasks[nxt].kstackTop;
      assert Abs() == SchedRing.Schedule(s);
    }

    /** `task_exit`, up to the switch away. */
    method TaskExit()
      requires Valid()
      modifies this`tasks, this`current, this`rsp0, this`cur, vmm`cr3
      ensures Valid() && Abs() == Exit(old(Abs()))
    {
      ghost var s := Abs();
      tasks := tasks[current := tasks[current].(state := Done)];
      assert Abs() == MarkDone(s);
      Schedule();
    }

    /** `sched_has_other_runnable`. */
    method HasOtherRunnable() returns (yes: bool)
      requires Valid()
      ensures yes <==> exists i | 0 <= i < |ring| :: i != cur && TaskAt(Abs(), i).state != Done
    {
      ghost var n := |ring|;
      assert LinkOk(next, ring, cur);
      var p := next[current];
      ghost var d := 1;
      while p != current
        invariant 1 <= d <= n && p == ring[Adv(n, cur, d)]
        invariant forall e: nat :: 1 <= e < d ==> tasks[ring[Adv(n, cur, e)]].state == Done
        decreases n - d
      {
        if tasks[p].state != Done {
          assert TaskAt(Abs(), Adv(n, cur, d)).state != Done;
          return true;
        }
        assert LinkOk(next, ring, Adv(n, cur, d));
        p := next[p];
        d := d + 1;
      }
      forall i | 0 <= i < n && i != cur
        ensures tasks[ring[i]].state == Done
      {
        var e := if i > cur then i - cur else i - cur + n;
        assert Adv(n, cur, e) == i;
      }
      return false;
    }

    /** The end of task_create and task_create_user: a ready task joins the ring. */
    method Append(t: nat, pml4: nat, kstackTop: nat, stackBase: nat)
      requires Valid() && t !in ring
      modifies this`tasks, this`next, this`nextId, this`ring
      ensures Valid() && nextId == old(nextId) + 1
      ensures Abs() == Create(old(Abs()), t, Task(old(nextId), Ready, pml4, kstackTop, stackBase))
    {
      ghost var s, n := Abs(), |ring|;
      var task := Task(nextId, Ready, pml4, kstackTop, stackBase);
      CreateInv(s, t, task);
      AppendCircle(next, ring, t);
      var p := taskList;
      ghost var i := 0;
      assert LinkOk(next, ring, 0);
      while next[p] != taskList
        invariant i < n && p == ring[i] && p in next
        invariant unchanged(this)
        decreases n - i
      {
        assert LinkOk(next, ring, i);
        p := next[p];
        i := i + 1;
        assert LinkOk(next, ring, i);
      }
      assert LinkOk(next, ring, i) && i == n - 1;
      next := next[p := t];
      next := next[t := taskList];
      tasks := tasks[t := task];
      nextId := nextId + 1;
      ring := ring + [t];
    }

    /** The splice of `task_reap`: the boot task is refused, any other task leaves the ring. */
    method Unlink(t: nat, ghost i: nat)
      requires Valid() && 0 < i < |ring| && ring[i] == t && i != cur
      modifies this`tasks, this`next, this`ring, this`cur
      ensures Valid() && Abs() == Reap(old(Abs()), i)
    {
      ghost var s, n := Abs(), |ring|;
      ReapInv(s, i);
      SpliceCircle(next, ring, i);
      var p := taskList;
      ghost var j := 0;
      assert LinkOk(next, ring, 0);
      while next[p] != t && next[p] != taskList
        invariant 0 <= j < i && p == ring[j] && p in next
        invariant unchanged(this)
        decreases i - j
      {
        assert LinkOk(next, ring, j);
        p := next[p];
        j := j + 1;
        assert LinkOk(next, ring, j);
      }
      assert LinkOk(next, ring, j) && j == i - 1;
      if next[p] == t { next := next[p := next[t]]; }
      tasks := tasks - {t};
      ring := ring[..i] + ring[i + 1..];
      cur := if i < cur then cur - 1 else cur;
    }
  }
}
