/** The tree of an address space by paths: subtrees, their disjoint branches, removing a
    subtree, and the agreement of ownership with the walk. */
module PagingTree {
  import opened Paging

  /** `q` is `p` or lies below it. */
  predicate Under(p: Path, q: Path) {
    q == p || (q.Step? && Under(p, q.up))
  }

  /** Which child of `p` the path `q` runs through. */
  function Branch(p: Path, q: Path): nat
    requires Under(p, q) && q != p
  {
    if q.up == p then q.index else Branch(p, q.up)
  }

  lemma {:induction false} UnderChild(p: Path, q: Path)
    requires Under(p, q) && q != p
    ensures Under(Step(p, Branch(p, q)), q)
    decreases q
  {
    if q.up != p {
      UnderChild(p, q.up);
    }
  }

  lemma {:induction false} ChildUnder(p: Path, i: nat, q: Path)
    requires Under(Step(p, i), q)
    ensures Under(p, q) && q != p && Branch(p, q) == i
    ensures Depth(p) < Depth(q)
    decreases q
  {
    if q != Step(p, i) {
      ChildUnder(p, i, q.up);
    } else {
      assert Under(p, q.up) && Depth(q) == Depth(p) + 1;
    }
  }

  lemma {:induction false} UnderDepth(p: Path, q: Path)
    requires Under(p, q)
    ensures Depth(p) <= Depth(q) && (Depth(p) == Depth(q) ==> p == q)
    decreases q
  {
    if q != p {
      UnderDepth(p, q.up);
    }
  }

  lemma {:induction false} UnderTop(q: Path)
    ensures Under(Top, q)
  {
    if q.Step? {
      UnderTop(q.up);
    }
  }

  /** The owned frames at or below path `p` of space `r`. */
  ghost function Sub(at: Places, r: nat, p: Path): set<nat> {
    set f | f in at && at[f].root == r && Under(p, at[f].path)
  }

  /** Those strictly below `p`, through its children 0 to i - 1. */
  ghost function Slice(at: Places, r: nat, p: Path, i: nat): set<nat> {
    set f | f in at && at[f].root == r && Under(p, at[f].path) && at[f].path != p && Branch(p, at[f].path) < i
  }

  lemma SliceEmpty(at: Places, r: nat, p: Path)
    ensures Slice(at, r, p, 0) == {}
  {}

  /** No two frames of a space share a path. */
  lemma {:induction false} PlaceUnique(mem: Memory, at: Places, k: nat, f: nat, g: nat)
    requires Inv(mem, at, k) && f in at && g in at
    requires at[f].root == at[g].root && at[f].path == at[g].path
    ensures f == g
    decreases at[f].path
  {
    assert PlaceOk(mem, at, k, f);
    assert PlaceOk(mem, at, k, g);
    if at[f].path.Step? {
      PlaceUnique(mem, at, k, at[f].up, at[g].up);
    }
  }

  /** Below a path there is nothing unless there is a frame at the path. */
  lemma {:induction false} AncestorAt(mem: Memory, at: Places, k: nat, f: nat, p: Path) returns (g: nat)
    requires Inv(mem, at, k) && f in at && Under(p, at[f].path)
    ensures g in at && at[g].root == at[f].root && at[g].path == p
    decreases at[f].path
  {
    assert PlaceOk(mem, at, k, f);
    if at[f].path == p {
      g := f;
    } else {
      g := AncestorAt(mem, at, k, at[f].up, p);
    }
  }

  /** A table's absent entry has nothing below it; a present one has its child's subtree. */
  lemma SliceNext(mem: Memory, at: Places, k: nat, t: nat, i: nat)
    requires Inv(mem, at, k) && t in at && Depth(at[t].path) <= 3 && at[t].root != k && Private(at, k, t, i)
    ensures var r, p, e := at[t].root, at[t].path, Ent(mem, t, i);
            && Slice(at, r, p, i + 1) == Slice(at, r, p, i) + Sub(at, r, Step(p, i))
            && Slice(at, r, p, i) !! Sub(at, r, Step(p, i))
            && (!e.present ==> Sub(at, r, Step(p, i)) == {})
            && (e.present ==> !e.huge && e.frame in at && at[e.frame] == Place(r, Step(p, i), t))
  {
    var r, p, e := at[t].root, at[t].path, Ent(mem, t, i);
    assert EntryOk(mem, at, k, t, i);
    forall f | f in at && at[f].root == r
      ensures f in Slice(at, r, p, i + 1) <==> f in Slice(at, r, p, i) || f in Sub(at, r, Step(p, i))
      ensures f in Sub(at, r, Step(p, i)) ==> f !in Slice(at, r, p, i) && e.present
    {
      if Under(Step(p, i), at[f].path) {
        ChildUnder(p, i, at[f].path);
        var g := AncestorAt(mem, at, k, f, Step(p, i));
        assert PlaceOk(mem, at, k, g);
        PlaceUnique(mem, at, k, at[g].up, t);
      } else if f in Slice(at, r, p, i + 1) {
        UnderChild(p, at[f].path);
      }
    }
  }

  /** A subtree is its top frame and all its branches. */
  lemma SubSplits(mem: Memory, at: Places, k: nat, t: nat)
    requires Inv(mem, at, k) && t in at
    ensures var r, p := at[t].root, at[t].path;
            Sub(at, r, p) == Slice(at, r, p, 512) + {t} && t !in Slice(at, r, p, 512)
  {
    var r, p := at[t].root, at[t].path;
    forall f | f in at && at[f].root == r && Under(p, at[f].path)
      ensures f == t || f in Slice(at, r, p, 512)
    {
      if at[f].path == p {
        PlaceUnique(mem, at, k, f, t);
      } else {
        UnderChild(p, at[f].path);
        var g := AncestorAt(mem, at, k, f, Step(p, Branch(p, at[f].path)));
        assert PlaceOk(mem, at, k, g);
      }
    }
  }

  lemma BelowIsSub(at: Places, r: nat, p: Path, i: nat)
    ensures Sub(at, r, Step(p, i)) <= Sub(at, r, p)
  {
    forall f | f in Sub(at, r, Step(p, i))
      ensures f in Sub(at, r, p)
    {
      ChildUnder(p, i, at[f].path);
    }
  }

  /** A leaf page is a whole subtree. */
  lemma LeafAlone(mem: Memory, at: Places, k: nat, f: nat)
    requires Inv(mem, at, k) && f in at && Depth(at[f].path) == 4
    ensures Sub(at, at[f].root, at[f].path) == {f}
  {
    forall g | g in at && at[g].root == at[f].root && Under(at[f].path, at[g].path)
      ensures g == f
    {
      assert PlaceOk(mem, at, k, g);
      UnderDepth(at[f].path, at[g].path);
      PlaceUnique(mem, at, k, f, g);
    }
  }

  // ---- removing a subtree ----

  ghost predicate CanPrune(mem: Memory, at: Places, k: nat, t: nat, i: nat) {
    && Inv(mem, at, k) && t in at && Depth(at[t].path) <= 3 && at[t].root != k && Private(at, k, t, i)
    && t in mem && |mem[t]| == 512
  }

  lemma PrunePlaceOk(mem: Memory, at: Places, k: nat, t: nat, i: nat, f: nat)
    requires CanPrune(mem, at, k, t, i)
    requires f in at && f !in Sub(at, at[t].root, Step(at[t].path, i))
    ensures PlaceOk(Write(mem, t, i, ABSENT), at - Sub(at, at[t].root, Step(at[t].path, i)), k, f)
  {
    var s := Sub(at, at[t].root, Step(at[t].path, i));
    assert PlaceOk(mem, at, k, f);
    assert PlaceOk(mem, at, k, at[f].root);
    if at[f].path.Step? {
      assert PlaceOk(mem, at, k, at[f].up);
    }
  }

  lemma PruneEntryOk(mem: Memory, at: Places, k: nat, t: nat, i: nat, u: nat, j: nat)
    requires CanPrune(mem, at, k, t, i)
    requires IsTable(at, u) && u !in Sub(at, at[t].root, Step(at[t].path, i)) && j < 512
    ensures EntryOk(Write(mem, t, i, ABSENT), at - Sub(at, at[t].root, Step(at[t].path, i)), k, u, j)
  {
    assert EntryOk(mem, at, k, u, j);
    assert PlaceOk(mem, at, k, u);
    assert PlaceOk(mem, at, k, t);
    assert PlaceOk(mem, at, k, k);
    if Step(at[u].path, j) == Step(at[t].path, i) && at[u].root == at[t].root {
      PlaceUnique(mem, at, k, u, t);
    }
  }

  /** Clearing the pointer to a subtree and disowning it keeps the invariant. */
  lemma PruneInv(mem: Memory, at: Places, k: nat, t: nat, i: nat)
    requires CanPrune(mem, at, k, t, i)
    ensures Inv(Write(mem, t, i, ABSENT), at - Sub(at, at[t].root, Step(at[t].path, i)), k)
  {
    var m, a := Write(mem, t, i, ABSENT), at - Sub(at, at[t].root, Step(at[t].path, i));
    forall f | f in a
      ensures PlaceOk(m, a, k, f)
    {
      PrunePlaceOk(mem, at, k, t, i, f);
    }
    forall u, j: nat | IsTable(a, u) && j < 512
      ensures EntryOk(m, a, k, u, j)
    {
      PruneEntryOk(mem, at, k, t, i, u, j);
    }
    assert PlaceOk(mem, at, k, k);
  }

  /** Clearing a slot of one PML4 changes no other space's translations. */
  lemma ClearSlotLookup(mem: Memory, at: Places, k: nat, t: nat, i: nat, q: nat, p: Page)
    requires Inv(mem, at, k) && IsRoot(at, t) && t in mem && |mem[t]| == 512 && i < 512
    requires IsRoot(at, q) && q != t && InRange(p)
    ensures Lookup(Write(mem, t, i, ABSENT), q, p) == Lookup(mem, q, p)
  {
    Walk(mem, at, k, q, p);
    if PtOf(mem, q, p).Table? {
      WalkPt(mem, at, k, q, p);
    }
  }

  /** A space that owns only its PML4 can be dropped. */
  lemma DropRootInv(mem: Memory, at: Places, k: nat, t: nat)
    requires Inv(mem, at, k) && IsRoot(at, t) && t != k && Owned(at, t) == {t}
    ensures Inv(mem, at - {t}, k)
  {
    var a := at - {t};
    forall f | f in a
      ensures PlaceOk(mem, a, k, f)
    {
      assert PlaceOk(mem, at, k, f);
      assert f !in Owned(at, t);
    }
    forall u, j: nat | IsTable(a, u) && j < 512
      ensures EntryOk(mem, a, k, u, j)
    {
      assert EntryOk(mem, at, k, u, j);
      assert PlaceOk(mem, at, k, u);
    }
  }

  // ---- ownership is exactly what the walk meets ----

  /** The frames a walk for page `p` from `r` meets, leaf page included. */
  function Met(mem: Memory, r: nat, p: Page): set<nat> {
    var e4 := Ent(mem, r, p.i4);
    var e3 := Ent(mem, e4.frame, p.i3);
    var e2 := Ent(mem, e3.frame, p.i2);
    var e1 := Ent(mem, e2.frame, p.i1);
    if !e4.present then {r}
    else if !e3.present then {r, e4.frame}
    else if !e2.present then {r, e4.frame, e3.frame}
    else if !e1.present then {r, e4.frame, e3.frame, e2.frame}
    else {r, e4.frame, e3.frame, e2.frame, e1.frame}
  }

  /** A process owns exactly its PML4 and the frames met by walks in its user half. */
  lemma OwnedIsMet(mem: Memory, at: Places, k: nat, r: nat, f: nat)
    requires Inv(mem, at, k) && IsRoot(at, r) && r != k
    ensures f in Owned(at, r) <==> exists p :: PrivatePage(k, r, p) && f in Met(mem, r, p)
  {
    if f in Owned(at, r) {
      var p := PageThrough(mem, at, k, r, f);
    }
    forall p | PrivatePage(k, r, p) && f in Met(mem, r, p)
      ensures f in Owned(at, r)
    {
      MetIsOwned(mem, at, k, r, p);
    }
  }

  lemma MetIsOwned(mem: Memory, at: Places, k: nat, r: nat, p: Page)
    requires Inv(mem, at, k) && IsRoot(at, r) && r != k && PrivatePage(k, r, p)
    ensures Met(mem, r, p) <= Owned(at, r)
  {
    Walk(mem, at, k, r, p);
    assert PlaceOk(mem, at, k, r);
    NoHugeInProcess(mem, at, k, r, p);
    NodesAreWalked(mem, at, k, r, p);
    if PtOf(mem, r, p).Table? {
      WalkPt(mem, at, k, r, p);
    }
  }

  /** A page whose walk meets the owned frame `f`. */
  lemma PageThrough(mem: Memory, at: Places, k: nat, r: nat, f: nat) returns (p: Page)
    requires Inv(mem, at, k) && IsRoot(at, r) && r != k && f in at && at[f].root == r
    ensures PrivatePage(k, r, p) && f in Met(mem, r, p)
  {
    assert PlaceOk(mem, at, k, f);
    var a := at[f].path;
    if a == Top {
      p := Page(0, 0, 0, 0);
      return;
    }
    var f1 := at[f].up;
    assert PlaceOk(mem, at, k, f1);
    if a.up == Top {
      p := Page(a.index, 0, 0, 0);
      FrameAtPath(mem, at, k, r, p, f);
      return;
    }
    var f2 := at[f1].up;
    assert PlaceOk(mem, at, k, f2);
    if a.up.up == Top {
      p := Page(a.up.index, a.index, 0, 0);
      FrameAtPath(mem, at, k, r, p, f);
      return;
    }
    var f3 := at[f2].up;
    assert PlaceOk(mem, at, k, f3);
    if a.up.up.up == Top {
      p := Page(a.up.up.index, a.up.index, a.index, 0);
      FrameAtPath(mem, at, k, r, p, f);
      return;
    }
    assert PlaceOk(mem, at, k, at[f3].up);
    DeepPath(a);
    p := Page(a.up.up.up.index, a.up.up.index, a.up.index, a.index);
    FrameAtPath(mem, at, k, r, p, f);
  }

  lemma DeepPath(a: Path)
    requires Depth(a) <= 4 && a != Top && a.up != Top && a.up.up != Top && a.up.up.up != Top
    ensures a.up.up.up.up == Top
  {
    assert Depth(a.up.up) == Depth(a) - 2;
    assert Depth(a.up.up.up.up) == Depth(a.up.up) - 2;
  }

  // ---- the outer loop of the teardown ----

  /** Taking away the first `i` slots leaves the next one whole. */
  lemma SlotsDisjoint(a0: Places, at: Places, r: nat, i: nat, done: set<nat>)
    requires done == Slice(a0, r, Top, i) && at == a0 - done
    ensures done !! Sub(a0, r, Step(Top, i))
    ensures Sub(at, r, Step(Top, i)) == Sub(a0, r, Step(Top, i))
    ensures Slice(a0, r, Top, i + 1) == done + Sub(a0, r, Step(Top, i))
  {
    forall f | f in a0 && a0[f].root == r
      ensures f in Slice(a0, r, Top, i + 1) <==> f in done || f in Sub(a0, r, Step(Top, i))
      ensures f in Sub(a0, r, Step(Top, i)) ==> f !in done
    {
      if Under(Step(Top, i), a0[f].path) {
        ChildUnder(Top, i, a0[f].path);
      } else if f in Slice(a0, r, Top, i + 1) {
        UnderChild(Top, a0[f].path);
      }
    }
  }

  /** The user half's 256 slots hold everything a process owns except its PML4. */
  lemma WholeUserHalf(mem: Memory, at: Places, k: nat, r: nat)
    requires Inv(mem, at, k) && IsRoot(at, r) && r != k
    ensures r in Owned(at, r) && Slice(at, r, Top, 256) == Owned(at, r) - {r}
  {
    assert PlaceOk(mem, at, k, r);
    forall f | f in at && at[f].root == r && f != r
      ensures f in Slice(at, r, Top, 256)
    {
      assert PlaceOk(mem, at, k, f);
      UnderTop(at[f].path);
      UnderChild(Top, at[f].path);
      var g := AncestorAt(mem, at, k, f, Step(Top, Branch(Top, at[f].path)));
      assert PlaceOk(mem, at, k, g);
      assert PlaceOk(mem, at, k, at[g].up);
    }
  }
}
