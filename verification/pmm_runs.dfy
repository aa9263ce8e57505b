/** Whole runs of the frame allocator: what any sequence of allocations, refusals
    and returns of held frames keeps true. */
module PmmRuns {
  import opened Pmm

  /** `held` are the frames handed out and not yet returned. */
  datatype Book = Book(used: set<nat>, held: set<nat>)

  datatype Event =
    | Take(first: nat, count: nat)
    | Refuse(count: nat)
    | Give(frame: nat)

  /** One call, as the contracts of AllocFrame, AllocContig and FreeFrame describe it. */
  ghost predicate Step(total: nat, s: Book, e: Event, t: Book) {
    match e
    case Take(first, count) =>
      && count != 0 && LowestRun(s.used, total, first, count)
      && t == Book(s.used + Frames(first, count), s.held + Frames(first, count))
    case Refuse(count) =>
      t == s && (count == 0 || forall g: nat :: 1 <= g ==> !FreeRun(s.used, total, g, count))
    case Give(f) =>
      f in s.held && t == Book(s.used - {f}, s.held - {f})
  }

  ghost predicate Run(total: nat, states: seq<Book>, events: seq<Event>) {
    && |states| == |events| + 1
    && forall i :: 0 <= i < |events| ==> Step(total, states[i], events[i], states[i + 1])
  }

  /** Over every run that starts with nothing handed out, the used frames are the
      boot-time ones plus those held, the two are disjoint, frame 0 is never held,
      and every allocation is disjoint from all that is held at that moment. */
  lemma {:induction false} RunKeepsBooks(total: nat, states: seq<Book>, events: seq<Event>)
    requires Run(total, states, events) && states[0].held == {}
    ensures forall i :: 0 <= i < |states| ==>
              && states[i].used == states[0].used + states[i].held
              && states[i].held !! states[0].used
              && 0 !in states[i].held
    ensures forall i :: 0 <= i < |events| && events[i].Take? ==>
              Frames(events[i].first, events[i].count) !! states[i].used
    decreases |events|
  {
    if |events| != 0 {
      var n := |events| - 1;
      RunKeepsBooks(total, states[..n + 1], events[..n]);
      var s, e := states[n], events[n];
      assert s == states[..n + 1][n] && Step(total, s, e, states[n + 1]);
      if e.Take? {
        forall f | f in Frames(e.first, e.count)
          ensures f !in s.used && 1 <= f
        {
          assert IsFree(s.used, total, f);
        }
      }
      forall i | 0 <= i < |events| && events[i].Take?
        ensures Frames(events[i].first, events[i].count) !! states[i].used
      {
        if i < n {
          assert events[i] == events[..n][i];
        }
      }
    }
  }

  /** A run that gives back all it took ends with the used frames it began with. */
  lemma RunReturnsAll(total: nat, states: seq<Book>, events: seq<Event>)
    requires Run(total, states, events) && states[0].held == {} && states[|events|].held == {}
    ensures states[|events|].used == states[0].used
  {
    RunKeepsBooks(total, states, events);
  }
}
