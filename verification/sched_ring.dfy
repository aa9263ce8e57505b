/** The scheduler (kernel/sched/sched.c) as a machine over a ring of tasks: what every
    sequence of its operations keeps, and round-robin fairness. `schedule` is one atomic
    step; interrupts inside it are not modelled. */
module SchedRing {

  datatype TaskState = Ready | Running | Done

  /** The fields of `struct task` other than its link. */
  datatype Task = Task(id: nat, state: TaskState, pml4: nat, kstackTop: nat, stackBase: nat)

  /** The run queue from the boot task on, the index of the current task, and the two
      registers the scheduler loads. */
  datatype Queue = Queue(ring: seq<nat>, tasks: map<nat, Task>, cur: nat, cr3: nat, rsp0: nat)

  predicate Distinct(ring: seq<nat>) {
    forall i, j :: 0 <= i < j < |ring| ==> ring[i] != ring[j]
  }

  /** The task at ring position `i`. */
  function TaskAt(s: Queue, i: nat): Task
    requires i < |s.ring| && s.ring[i] in s.tasks
  {
    s.tasks[s.ring[i]]
  }

  predicate StateOk(s: Queue, i: nat)
    requires i < |s.ring| && s.ring[i] in s.tasks
  {
    TaskAt(s, i).state == Done || TaskAt(s, i).state == if i == s.cur then Running else Ready
  }

  /** The queue is one ring; the current task is running or done and every other task is
      ready or done; CR3 and TSS.rsp0 are the current task's. */
  predicate Inv(s: Queue) {
    && s.cur < |s.ring| && Distinct(s.ring)
    && (forall i | 0 <= i < |s.ring| :: s.ring[i] in s.tasks)
    && (forall i {:trigger StateOk(s, i)} :: 0 <= i < |s.ring| ==> StateOk(s, i))
    && s.cr3 == TaskAt(s, s.cur).pml4
    && s.rsp0 == TaskAt(s, s.cur).kstackTop
  }

  function Current(s: Queue): nat
    requires s.cur < |s.ring|
  {
    s.ring[s.cur]
  }

  // ---- going round the ring ----

  /** `d` places on from `c` in a ring of `n`. */
  function Adv(n: nat, c: nat, d: nat): nat
    requires c < n && d <= n
  {
    if c + d < n then c + d else c + d - n
  }

  /** How far schedule looks: the distance to the next task that is not done, trying `d`
      first; `n` when it comes back to where it started. */
  function Hop(live: seq<bool>, c: nat, d: nat): (h: nat)
    requires c < |live| && 1 <= d <= |live|
    ensures d <= h <= |live|
    ensures h < |live| ==> live[Adv(|live|, c, h)]
    ensures forall e :: d <= e < h ==> !live[Adv(|live|, c, e)]
    decreases |live| - d
  {
    if d == |live| || live[Adv(|live|, c, d)] then d else Hop(live, c, d + 1)
  }

  function LiveOf(s: Queue): (live: seq<bool>)
    requires forall i | 0 <= i < |s.ring| :: s.ring[i] in s.tasks
    ensures |live| == |s.ring|
  {
    seq(|s.ring|, i requires 0 <= i < |s.ring| && s.ring[i] in s.tasks => TaskAt(s, i).state != Done)
  }

  /** The position schedule moves to. */
  function NextAt(s: Queue): nat
    requires Inv(s)
  {
    Adv(|s.ring|, s.cur, Hop(LiveOf(s), s.cur, 1))
  }

  // ---- the operations ----

  function SetState(s: Queue, i: nat, st: TaskState): map<nat, Task>
    requires i < |s.ring| && s.ring[i] in s.tasks
  {
    s.tasks[s.ring[i] := TaskAt(s, i).(state := st)]
  }

  /** `schedule`: move on to the next task that is not done, if there is another one. */
  function Schedule(s: Queue): Queue
    requires Inv(s)
  {
    var n := NextAt(s);
    if n == s.cur then s
    else
      var left := if TaskAt(s, s.cur).state == Running then SetState(s, s.cur, Ready) else s.tasks;
      var tasks := left[s.ring[n] := left[s.ring[n]].(state := Running)];
      var cr3 := if tasks[s.ring[n]].pml4 != TaskAt(s, s.cur).pml4 then tasks[s.ring[n]].pml4 else s.cr3;
      Queue(s.ring, tasks, n, cr3, tasks[s.ring[n]].kstackTop)
  }

  function MarkDone(s: Queue): (t: Queue)
    requires Inv(s)
    ensures Inv(t) && t.ring == s.ring && TaskAt(t, s.cur) == TaskAt(s, s.cur).(state := Done)
    ensures forall i | 0 <= i < |s.ring| && i != s.cur :: TaskAt(t, i) == TaskAt(s, i)
  {
    var t := s.(tasks := SetState(s, s.cur, Done));
    assert forall i | 0 <= i < |s.ring| && i != s.cur :: TaskAt(t, i) == TaskAt(s, i);
    assert forall i | 0 <= i < |s.ring| :: StateOk(s, i) ==> StateOk(t, i);
    t
  }

  /** `task_exit`: the current task is done, and schedule leaves it for good. */
  function Exit(s: Queue): Queue
    requires Inv(s)
  {
    Schedule(MarkDone(s))
  }

  /** `task_create` and `task_create_user`: a ready task joins at the end of the ring. */
  function Create(s: Queue, t: nat, task: Task): Queue {
    s.(ring := s.ring + [t], tasks := s.tasks[t := task])
  }

  /** `task_reap`: the task at position `i` leaves the ring. */
  function Reap(s: Queue, i: nat): Queue
    requires i < |s.ring|
  {
    s.(ring := s.ring[..i] + s.ring[i + 1..],
       tasks := s.tasks - {s.ring[i]},
       cur := if i < s.cur then s.cur - 1 else s.cur)
  }

  // ---- what every step keeps ----

  /** A switch changes the two tasks involved and no other. */
  lemma SwitchTasks(s: Queue, i: nat)
    requires Inv(s) && NextAt(s) != s.cur && i < |s.ring|
    ensures s.ring[i] in Schedule(s).tasks
    ensures TaskAt(s, NextAt(s)).state == Ready
    ensures TaskAt(Schedule(s), i) ==
            if i == NextAt(s) then TaskAt(s, i).(state := Running)
            else if i == s.cur && TaskAt(s, i).state == Running then TaskAt(s, i).(state := Ready)
            else TaskAt(s, i)
  {
    assert LiveOf(s)[NextAt(s)];
    assert StateOk(s, NextAt(s));
  }

  lemma ScheduleInv(s: Queue)
    requires Inv(s)
    ensures Inv(Schedule(s)) && LiveOf(Schedule(s)) == LiveOf(s)
    ensures Schedule(s).cur == NextAt(s) && Schedule(s).ring == s.ring
    ensures Schedule(s).cur != s.cur ==> TaskAt(s, NextAt(s)).state == Ready && TaskAt(Schedule(s), NextAt(s)).state == Running
    ensures Schedule(s).cur == s.cur ==> Schedule(s) == s
  {
    if NextAt(s) != s.cur {
      var t := Schedule(s);
      forall i | 0 <= i < |s.ring|
        ensures s.ring[i] in t.tasks && StateOk(t, i)
        ensures (TaskAt(t, i).state == Done) == (TaskAt(s, i).state == Done)
      {
        SwitchTasks(s, i);
        assert StateOk(s, i);
      }
      SwitchTasks(s, NextAt(s));
      assert LiveOf(t) == LiveOf(s);
    }
  }

  lemma ExitInv(s: Queue)
    requires Inv(s)
    ensures Inv(Exit(s)) && Exit(s).ring == s.ring && TaskAt(Exit(s), s.cur).state == Done
    ensures Exit(s).cur != s.cur ==> TaskAt(Exit(s), Exit(s).cur).state == Running
    ensures Exit(s).cur == s.cur <==> forall i | 0 <= i < |s.ring| && i != s.cur :: TaskAt(s, i).state == Done
  {
    var e := MarkDone(s);
    ScheduleInv(e);
    if NextAt(e) != e.cur {
      SwitchTasks(e, e.cur);
    }
    StaysIffAlone(e);
  }

  /** schedule stays where it is exactly when every other task is done. */
  lemma StaysIffAlone(s: Queue)
    requires Inv(s)
    ensures NextAt(s) == s.cur <==> forall i | 0 <= i < |s.ring| && i != s.cur :: TaskAt(s, i).state == Done
  {
    var h := Hop(LiveOf(s), s.cur, 1);
    if h == |s.ring| {
      forall i | 0 <= i < |s.ring| && i != s.cur
        ensures TaskAt(s, i).state == Done
      {
        var d := if i > s.cur then i - s.cur else i - s.cur + |s.ring|;
        assert !LiveOf(s)[Adv(|s.ring|, s.cur, d)];
      }
    } else {
      assert LiveOf(s)[NextAt(s)];
    }
  }

  lemma CreateInv(s: Queue, t: nat, task: Task)
    requires Inv(s) && t !in s.ring && task.state == Ready
    ensures Inv(Create(s, t, task))
  {
    var c := Create(s, t, task);
    forall i | 0 <= i < |s.ring|
      ensures c.ring[i] in c.tasks && TaskAt(c, i) == TaskAt(s, i) && StateOk(c, i)
    {
      assert s.ring[i] in s.ring && StateOk(s, i);
    }
  }

  lemma ReapInv(s: Queue, i: nat)
    requires Inv(s) && i < |s.ring| && i != s.cur
    ensures Inv(Reap(s, i)) && Current(Reap(s, i)) == Current(s)
  {
    var r := Reap(s, i);
    forall j | 0 <= j < |r.ring|
      ensures r.ring[j] in r.tasks && TaskAt(r, j) == TaskAt(s, if j < i then j else j + 1) && StateOk(r, j)
    {
      assert r.ring[j] == s.ring[if j < i then j else j + 1];
      assert StateOk(s, if j < i then j else j + 1);
    }
  }

  /** A task that is not current and has a page table of its own never has the active one,
      so destroying its address space is not refused. */
  lemma ReapNotRefused(s: Queue, i: nat)
    requires Inv(s) && i < |s.ring| && i != s.cur
    requires forall j | 0 <= j < |s.ring| && j != i :: TaskAt(s, j).pml4 != TaskAt(s, i).pml4
    ensures TaskAt(s, i).pml4 != s.cr3
  {
    assert TaskAt(s, s.cur).pml4 != TaskAt(s, i).pml4;
  }

  // ---- ids ----

  /** Ids rise along the ring, which so keeps the order of creation, and `next` is unused. */
  ghost predicate IdsRise(s: Queue, next: nat)
    requires Inv(s)
  {
    && (forall i, j :: 0 <= i < j < |s.ring| ==> TaskAt(s, i).id < TaskAt(s, j).id)
    && (forall i :: 0 <= i < |s.ring| ==> TaskAt(s, i).id < next)
  }

  /** Switches and exits change no id, a new task takes the next one, and reaping keeps the
      order. */
  lemma IdsKeepRising(s: Queue, next: nat)
    requires Inv(s) && IdsRise(s, next)
    ensures Inv(Schedule(s)) && IdsRise(Schedule(s), next) && Inv(Exit(s)) && IdsRise(Exit(s), next)
  {
    ScheduleIds(s, next);
    var e := MarkDone(s);
    assert forall i | 0 <= i < |s.ring| :: TaskAt(e, i).id == TaskAt(s, i).id;
    ScheduleIds(e, next);
  }

  lemma ScheduleIds(s: Queue, next: nat)
    requires Inv(s) && IdsRise(s, next)
    ensures Inv(Schedule(s)) && IdsRise(Schedule(s), next)
  {
    ScheduleInv(s);
    forall i | 0 <= i < |s.ring|
      ensures TaskAt(Schedule(s), i).id == TaskAt(s, i).id
    {
      if NextAt(s) != s.cur { SwitchTasks(s, i); }
    }
  }

  lemma CreateIds(s: Queue, t: nat, task: Task, next: nat)
    requires Inv(s) && IdsRise(s, next) && t !in s.ring && task.state == Ready && task.id == next
    ensures Inv(Create(s, t, task)) && IdsRise(Create(s, t, task), next + 1)
  {
    CreateInv(s, t, task);
    var c := Create(s, t, task);
    forall i | 0 <= i < |s.ring|
      ensures TaskAt(c, i) == TaskAt(s, i)
    {
      assert c.ring[i] == s.ring[i] && s.ring[i] in s.ring;
    }
  }

  lemma ReapIds(s: Queue, i: nat, next: nat)
    requires Inv(s) && IdsRise(s, next) && i < |s.ring| && i != s.cur
    ensures Inv(Reap(s, i)) && IdsRise(Reap(s, i), next)
  {
    ReapInv(s, i);
    var r := Reap(s, i);
    forall j | 0 <= j < |r.ring|
      ensures TaskAt(r, j) == TaskAt(s, if j < i then j else j + 1)
    {
      assert r.ring[j] == s.ring[if j < i then j else j + 1];
    }
  }

  // ---- whole runs ----

  datatype Op = DoSchedule | DoExit | DoCreate(t: nat, task: Task) | DoReap(i: nat)

  predicate Enabled(s: Queue, op: Op) {
    match op
    case DoSchedule => true
    case DoExit => true
    case DoCreate(t, task) => t !in s.ring && task.state == Ready
    case DoReap(i) => 0 < i < |s.ring| && i != s.cur
  }

  function Apply(s: Queue, op: Op): Queue
    requires Inv(s) && Enabled(s, op)
  {
    match op
    case DoSchedule => Schedule(s)
    case DoExit => Exit(s)
    case DoCreate(t, task) => Create(s, t, task)
    case DoReap(i) => Reap(s, i)
  }

  ghost predicate Run(states: seq<Queue>, ops: seq<Op>) {
    && |states| == |ops| + 1
    && Inv(states[0])
    && forall i :: 0 <= i < |ops| ==> Steps(states[i], ops[i], states[i + 1])
  }

  predicate Steps(s: Queue, op: Op, t: Queue) {
    Inv(s) ==> Enabled(s, op) && t == Apply(s, op)
  }

  /** Safety over every run: the invariant holds throughout, the boot task stays at the head
      of the ring, and a step that changes the current task never picks one that is done. */
  lemma {:induction false} RunIsSafe(states: seq<Queue>, ops: seq<Op>, n: nat)
    requires Run(states, ops) && n <= |ops|
    ensures Inv(states[n]) && states[n].ring[0] == states[0].ring[0]
    ensures n > 0 ==> Inv(states[n - 1])
    ensures n > 0 && Current(states[n]) != Current(states[n - 1]) ==>
              TaskAt(states[n], states[n].cur).state == Running
  {
    if n > 0 {
      RunIsSafe(states, ops, n - 1);
      assert Steps(states[n - 1], ops[n - 1], states[n]);
      ApplyIsSafe(states[n - 1], ops[n - 1]);
    }
  }

  lemma ApplyIsSafe(s: Queue, op: Op)
    requires Inv(s) && Enabled(s, op)
    ensures var t := Apply(s, op);
            && Inv(t) && t.ring[0] == s.ring[0]
            && (Current(t) != Current(s) ==> TaskAt(t, t.cur).state == Running)
  {
    match op
    case DoSchedule => ScheduleInv(s);
    case DoExit => ExitInv(s);
    case DoCreate(t, task) => CreateInv(s, t, task);
    case DoReap(i) => ReapInv(s, i);
  }

  // ---- round robin ----

  /** The position after `k` schedule steps over a fixed pattern of live tasks. */
  function Pos(live: seq<bool>, c: nat, k: nat): (p: nat)
    requires c < |live|
    ensures p < |live|
    decreases k
  {
    if k == 0 then c else Pos(live, Adv(|live|, c, Hop(live, c, 1)), k - 1)
  }

  /** The distance travelled in those steps. */
  function Travelled(live: seq<bool>, c: nat, k: nat): nat
    requires c < |live|
    decreases k
  {
    if k == 0 then 0 else Hop(live, c, 1) + Travelled(live, Adv(|live|, c, Hop(live, c, 1)), k - 1)
  }

  lemma {:induction false} TravelledMonotone(live: seq<bool>, c: nat, k: nat, m: nat)
    requires c < |live| && k <= m
    ensures k <= Travelled(live, c, k) <= Travelled(live, c, m)
    decreases m
  {
    if k > 0 {
      TravelledMonotone(live, Adv(|live|, c, Hop(live, c, 1)), k - 1, m - 1);
    }
  }

  lemma {:induction false} PosIsTravelled(live: seq<bool>, c: nat, k: nat)
    requires c < |live| && Travelled(live, c, k) <= |live|
    ensures Pos(live, c, k) == Adv(|live|, c, Travelled(live, c, k))
    decreases k
  {
    if k > 0 {
      var h := Hop(live, c, 1);
      PosIsTravelled(live, Adv(|live|, c, h), k - 1);
    }
  }

  /** Going round never jumps over a live task. */
  lemma {:induction false} Reaches(live: seq<bool>, c: nat, x: nat) returns (k: nat)
    requires c < |live| && 1 <= x <= |live| && live[Adv(|live|, c, x)]
    ensures 1 <= k <= x && Travelled(live, c, k) == x && Pos(live, c, k) == Adv(|live|, c, x)
    decreases x
  {
    var h := Hop(live, c, 1);
    assert h <= x;
    var d := Adv(|live|, c, h);
    if h == x {
      k := 1;
      assert Pos(live, d, 0) == d && Travelled(live, d, 0) == 0;
    } else {
      var m := Reaches(live, d, x - h);
      k := m + 1;
    }
  }

  /** Within n steps on a ring of n, every task that is not done gets to run. */
  lemma EveryLiveTaskRuns(live: seq<bool>, c: nat, j: nat)
    requires c < |live| && j < |live| && live[j]
    ensures exists k :: 1 <= k <= |live| && Pos(live, c, k) == j
  {
    var x := if j > c then j - c else j - c + |live|;
    var k := Reaches(live, c, x);
  }

  lemma {:induction false} PosFrom(live: seq<bool>, c: nat, a: nat, k: nat)
    requires c < |live|
    ensures Pos(live, c, a + k) == Pos(live, Pos(live, c, a), k)
    decreases a
  {
    if a > 0 {
      PosFrom(live, Adv(|live|, c, Hop(live, c, 1)), a - 1, k);
    }
  }

  /** Coming back to the same position takes at least a full round. */
  lemma BackAgain(live: seq<bool>, p: nat, m: nat)
    requires p < |live| && m > 0 && Pos(live, p, m) == p
    ensures Travelled(live, p, m) >= |live|
  {
    TravelledMonotone(live, p, m, m);
    if Travelled(live, p, m) < |live| {
      PosIsTravelled(live, p, m);
    }
  }

  /** Between two turns of one task, every other live task has a turn. */
  lemma NoSecondTurnBeforeOthers(live: seq<bool>, c: nat, a: nat, b: nat, j: nat) returns (k: nat)
    requires c < |live| && a < b && Pos(live, c, a) == Pos(live, c, b)
    requires j < |live| && live[j] && j != Pos(live, c, a)
    ensures a < k < b && Pos(live, c, k) == j
  {
    var p, round := Pos(live, c, a), b - a;
    PosFrom(live, c, a, round);
    var m := TurnBefore(live, p, round, j);
    PosFrom(live, c, a, m);
    k := a + m;
  }

  lemma TurnBefore(live: seq<bool>, p: nat, round: nat, j: nat) returns (m: nat)
    requires p < |live| && round > 0 && Pos(live, p, round) == p
    requires j < |live| && live[j] && j != p
    ensures 0 < m < round && Pos(live, p, m) == j
  {
    var x := if j > p then j - p else j - p + |live|;
    m := Reaches(live, p, x);
    BackAgain(live, p, round);
    if round <= m {
      TravelledMonotone(live, p, round, m);
    }
  }

  lemma {:induction false} PosNext(live: seq<bool>, c: nat, k: nat)
    requires c < |live|
    ensures Pos(live, c, k + 1) == Adv(|live|, Pos(live, c, k), Hop(live, Pos(live, c, k), 1))
    decreases k
  {
    if k > 0 {
      PosNext(live, Adv(|live|, c, Hop(live, c, 1)), k - 1);
    }
  }

  /** Successive schedule steps visit the positions Pos describes. */
  lemma {:induction false} SchedulesFollowPos(states: seq<Queue>, n: nat)
    requires n < |states| && Inv(states[0])
    requires forall i :: 0 <= i < |states| - 1 ==> Steps(states[i], DoSchedule, states[i + 1])
    ensures Inv(states[n]) && LiveOf(states[n]) == LiveOf(states[0]) && states[n].ring == states[0].ring
    ensures states[n].cur == Pos(LiveOf(states[0]), states[0].cur, n)
  {
    if n > 0 {
      SchedulesFollowPos(states, n - 1);
      assert Steps(states[n - 1], DoSchedule, states[n]);
      ScheduleInv(states[n - 1]);
      PosNext(LiveOf(states[0]), states[0].cur, n - 1);
    }
  }

  /** Round robin, on the machine itself: over n successive schedule steps on a ring of n
      tasks, every task that is not done becomes current at some step; and whenever one
      task is current at two moments, every other live task is current in between. */
  lemma RoundRobin(states: seq<Queue>, j: nat)
    requires |states| > 0 && Inv(states[0])
    requires forall i :: 0 <= i < |states| - 1 ==> Steps(states[i], DoSchedule, states[i + 1])
    requires j < |states[0].ring| && LiveOf(states[0])[j]
    ensures |states| > |states[0].ring| ==> exists k :: 1 <= k <= |states[0].ring| && states[k].cur == j
    ensures forall a, b :: 0 <= a < b < |states| && states[a].cur == states[b].cur != j ==>
              exists k :: a < k < b && states[k].cur == j
  {
    var live, c := LiveOf(states[0]), states[0].cur;
    forall n: nat | n < |states|
      ensures states[n].cur == Pos(live, c, n)
    {
      SchedulesFollowPos(states, n);
    }
    EveryLiveTaskRuns(live, c, j);
    forall a, b | 0 <= a < b < |states| && states[a].cur == states[b].cur != j
      ensures exists k :: a < k < b && states[k].cur == j
    {
      var k := NoSecondTurnBeforeOthers(live, c, a, b, j);
      assert states[k].cur == j;
    }
  }
}
