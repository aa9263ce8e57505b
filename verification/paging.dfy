/** Four-level page tables as values: entries, the hardware walk, the ownership
    invariant, and what each kind of table write does to every translation
    (kernel/mm/vmm.c; the walk is sections 4.5 and 4.6 of the Intel SDM, Volume 3A). */
module Paging {

  /** A page-table entry: bits 51:12 as a frame number, and the flag bits in use. */
  datatype Entry = Entry(frame: nat, present: bool, writable: bool, user: bool, huge: bool)

  const ABSENT := Entry(0, false, false, false, false)

  /** The frames that hold tables, by frame number. */
  type Memory = map<nat, seq<Entry>>

  function EmptyTable(): (t: seq<Entry>)
    ensures |t| == 512 && forall i :: 0 <= i < 512 ==> t[i] == ABSENT
  {
    seq(512, i => ABSENT)
  }

  /** The four 9-bit indices of a virtual address. */
  datatype Page = Page(i4: nat, i3: nat, i2: nat, i1: nat)

  predicate InRange(p: Page) {
    p.i4 < 512 && p.i3 < 512 && p.i2 < 512 && p.i1 < 512
  }

  function PageOf(virt: nat): (p: Page)
    ensures InRange(p)
  {
    Page(virt / 0x80_0000_0000 % 512, virt / 0x4000_0000 % 512, virt / 0x20_0000 % 512, virt / 0x1000 % 512)
  }

  /** Entry `i` of table `t`; reading outside any table gives an absent entry. */
  function Ent(mem: Memory, t: nat, i: nat): Entry {
    if t in mem && i < |mem[t]| then mem[t][i] else ABSENT
  }

  // ---- the hardware walk ----

  datatype Mapping = Unmapped | Mapped(frame: nat, writable: bool, user: bool)

  /** The frame that backs a page and the rights that all four levels together grant. */
  function Lookup(mem: Memory, root: nat, p: Page): Mapping {
    var e4 := Ent(mem, root, p.i4);
    if !e4.present then Unmapped else
    var e3 := Ent(mem, e4.frame, p.i3);
    if !e3.present then Unmapped else
    if e3.huge then
      Mapped(e3.frame + p.i2 * 512 + p.i1, e4.writable && e3.writable, e4.user && e3.user)
    else
    var e2 := Ent(mem, e3.frame, p.i2);
    if !e2.present then Unmapped else
    if e2.huge then
      Mapped(e2.frame + p.i1, e4.writable && e3.writable && e2.writable, e4.user && e3.user && e2.user)
    else
    var e1 := Ent(mem, e2.frame, p.i1);
    if !e1.present then Unmapped else
    Mapped(e1.frame,
           e4.writable && e3.writable && e2.writable && e1.writable,
           e4.user && e3.user && e2.user && e1.user)
  }

  /** A leaf's own rights. */
  function LeafMapping(e: Entry): Mapping {
    if e.present then Mapped(e.frame, e.writable, e.user) else Unmapped
  }

  // ---- ownership ----

  /** Where a frame hangs in the tree of its address space: the indices from the root down. */
  datatype Path = Top | Step(up: Path, index: nat)

  function Depth(p: Path): nat {
    match p
    case Top => 0
    case Step(up, _) => Depth(up) + 1
  }

  function Path1(p: Page): Path { Step(Top, p.i4) }
  function Path2(p: Page): Path { Step(Path1(p), p.i3) }
  function Path3(p: Page): Path { Step(Path2(p), p.i2) }
  function Path4(p: Page): Path { Step(Path3(p), p.i1) }

  lemma Depths(p: Page)
    ensures Depth(Path1(p)) == 1 && Depth(Path2(p)) == 2 && Depth(Path3(p)) == 3 && Depth(Path4(p)) == 4
  {
    assert Depth(Path1(p)) == 1;
    assert Depth(Path2(p)) == 2;
    assert Depth(Path3(p)) == 3;
  }

  /** A frame's one place: its space, its path there, and the table that points to it. */
  datatype Place = Place(root: nat, path: Path, up: nat)

  type Places = map<nat, Place>

  /** Depths 0 to 3 are tables (PML4, PDPT, PD, PT); depth 4 is a leaf page. */
  predicate IsTable(at: Places, t: nat) {
    t in at && Depth(at[t].path) <= 3
  }

  predicate IsRoot(at: Places, r: nat) {
    r in at && at[r].path == Top
  }

  /** An index that belongs to the space itself: for a process the user half of its
      PML4, since slots 256-511 only borrow the kernel's tables. */
  predicate Private(at: Places, k: nat, t: nat, i: nat)
    requires t in at
  {
    i < 512 && (at[t].path == Top && t != k ==> i < 256)
  }

  /** Frame `f` is where `at` says it is: its parent's entry points to it. */
  ghost predicate PlaceOk(mem: Memory, at: Places, k: nat, f: nat)
    requires f in at
  {
    var p := at[f];
    && IsRoot(at, p.root)
    && Depth(p.path) <= (if p.root == k then 3 else 4)
    && (Depth(p.path) <= 3 ==> f in mem && |mem[f]| == 512)
    && (p.path == Top <==> p.root == f)
    && (p.path.Step? ==>
          && p.up in at && at[p.up].root == p.root && at[p.up].path == p.path.up
          && Private(at, k, p.up, p.path.index)
          && var e := Ent(mem, p.up, p.path.index);
             e.present && !e.huge && e.frame == f)
  }

  /** Entry `i` of table `t` is absent, a borrowed kernel slot, a kernel leaf (small or
      2 MB), or the one pointer to an owned frame. Pointers to tables grant every right. */
  ghost predicate EntryOk(mem: Memory, at: Places, k: nat, t: nat, i: nat)
    requires t in at
  {
    var e := Ent(mem, t, i);
    var p := at[t];
    e.present ==>
      if !Private(at, k, t, i) then e == Ent(mem, k, i)
      else if e.huge then p.root == k && Depth(p.path) == 2
      else
        && (Depth(p.path) < 3 ==> e.writable && e.user)
        && (Depth(p.path) < 3 || p.root != k ==>
              e.frame in at && at[e.frame] == Place(p.root, Step(p.path, i), t))
  }

  /** Every owned frame has exactly one place, in exactly one space. */
  ghost predicate Inv(mem: Memory, at: Places, k: nat) {
    && IsRoot(at, k)
    && (forall f {:trigger PlaceOk(mem, at, k, f)} :: f in at ==> PlaceOk(mem, at, k, f))
    && (forall t, i: nat {:trigger EntryOk(mem, at, k, t, i)} ::
          IsTable(at, t) && i < 512 ==> EntryOk(mem, at, k, t, i))
  }

  /** The space whose tables translate page `p` for `r`. */
  function Owner(k: nat, r: nat, p: Page): nat {
    if p.i4 < 256 then r else k
  }

  /** The PT that the walk for `p` from `r` reaches. */
  datatype Reach = NoTable | Table(frame: nat)

  function PtOf(mem: Memory, r: nat, p: Page): Reach {
    var e4 := Ent(mem, r, p.i4);
    var e3 := Ent(mem, e4.frame, p.i3);
    var e2 := Ent(mem, e3.frame, p.i2);
    if e4.present && e3.present && !e3.huge && e2.present && !e2.huge then Table(e2.frame) else NoTable
  }

  /** Every table the walk visits is owned, at the place the page's indices name. */
  lemma Walk(mem: Memory, at: Places, k: nat, r: nat, p: Page)
    requires Inv(mem, at, k) && IsRoot(at, r) && InRange(p)
    ensures r in mem && |mem[r]| == 512
    ensures var e4 := Ent(mem, r, p.i4);
            e4.present ==>
              && !e4.huge && e4.writable && e4.user
              && e4.frame in at && IsTable(at, e4.frame) && e4.frame in mem && |mem[e4.frame]| == 512
              && at[e4.frame].path == Path1(p) && at[e4.frame].root == Owner(k, r, p)
              && var e3 := Ent(mem, e4.frame, p.i3);
                 e3.present ==>
                   && !e3.huge && e3.writable && e3.user
                   && e3.frame in at && IsTable(at, e3.frame) && e3.frame in mem && |mem[e3.frame]| == 512
                   && at[e3.frame].path == Path2(p) && at[e3.frame].root == Owner(k, r, p)
                   && at[e3.frame].up == e4.frame
  {
    assert PlaceOk(mem, at, k, r);
    assert EntryOk(mem, at, k, r, p.i4);
    var e4 := Ent(mem, r, p.i4);
    if e4.present {
      assert PlaceOk(mem, at, k, k);
      assert EntryOk(mem, at, k, k, p.i4);
      assert PlaceOk(mem, at, k, e4.frame);
      assert EntryOk(mem, at, k, e4.frame, p.i3);
      var e3 := Ent(mem, e4.frame, p.i3);
      if e3.present {
        assert PlaceOk(mem, at, k, e3.frame);
      }
    }
  }

  /** The PT a walk reaches is owned, at the page's path; so two pages that reach the
      same PT agree in their upper three indices and in the owner of their tables. */
  lemma WalkPt(mem: Memory, at: Places, k: nat, r: nat, p: Page)
    requires Inv(mem, at, k) && IsRoot(at, r) && InRange(p) && PtOf(mem, r, p).Table?
    ensures var pt := PtOf(mem, r, p).frame;
            && pt in at && IsTable(at, pt) && pt in mem && |mem[pt]| == 512
            && at[pt].path == Path3(p) && at[pt].root == Owner(k, r, p)
            && Lookup(mem, r, p) == LeafMapping(Ent(mem, pt, p.i1))
    ensures var e2 := Ent(mem, Ent(mem, Ent(mem, r, p.i4).frame, p.i3).frame, p.i2);
            e2.writable && e2.user
  {
    Walk(mem, at, k, r, p);
    Depths(p);
    var e3 := Ent(mem, Ent(mem, r, p.i4).frame, p.i3);
    assert EntryOk(mem, at, k, e3.frame, p.i2);
    assert PlaceOk(mem, at, k, Ent(mem, e3.frame, p.i2).frame);
  }

  /** No walk visits a frame that nobody owns. */
  lemma WalkAvoids(mem: Memory, at: Places, k: nat, r: nat, p: Page, f: nat)
    requires Inv(mem, at, k) && IsRoot(at, r) && InRange(p) && f !in at
    ensures r != f
    ensures Ent(mem, r, p.i4).present ==>
              var t3 := Ent(mem, r, p.i4).frame;
              t3 != f && (Ent(mem, t3, p.i3).present ==> Ent(mem, t3, p.i3).frame != f)
    ensures PtOf(mem, r, p) != Table(f)
  {
    Walk(mem, at, k, r, p);
    if PtOf(mem, r, p).Table? {
      WalkPt(mem, at, k, r, p);
    }
  }

  // ---- adding an empty table (next_level with create) ----

  function PointTo(f: nat): Entry { Entry(f, true, true, true, false) }

  function Write(mem: Memory, t: nat, i: nat, e: Entry): Memory
    requires t in mem && i < |mem[t]|
  {
    mem[t := mem[t][i := e]]
  }

  /** Hang the zeroed frame `f` under entry `i` of table `t`. */
  function AddTable(mem: Memory, t: nat, i: nat, f: nat): Memory
    requires t in mem && i < |mem[t]| && f != t
  {
    Write(mem[f := EmptyTable()], t, i, PointTo(f))
  }

  function AddTablePlace(at: Places, t: nat, i: nat, f: nat): Places
    requires t in at
  {
    at[f := Place(at[t].root, Step(at[t].path, i), t)]
  }

  ghost predicate CanAddTable(mem: Memory, at: Places, k: nat, t: nat, i: nat, f: nat) {
    && Inv(mem, at, k)
    && t in at && Depth(at[t].path) < 3 && Private(at, k, t, i)
    && t in mem && |mem[t]| == 512 && !mem[t][i].present
    && f !in at
  }

  lemma AddTablePlaceOk(mem: Memory, at: Places, k: nat, t: nat, i: nat, f: nat, g: nat)
    requires CanAddTable(mem, at, k, t, i, f) && g in AddTablePlace(at, t, i, f)
    ensures PlaceOk(AddTable(mem, t, i, f), AddTablePlace(at, t, i, f), k, g)
  {
    assert PlaceOk(mem, at, k, t);
    if g != f {
      assert PlaceOk(mem, at, k, g);
    }
  }

  lemma AddTableEntryOk(mem: Memory, at: Places, k: nat, t: nat, i: nat, f: nat, u: nat, j: nat)
    requires CanAddTable(mem, at, k, t, i, f) && IsTable(AddTablePlace(at, t, i, f), u) && j < 512
    ensures EntryOk(AddTable(mem, t, i, f), AddTablePlace(at, t, i, f), k, u, j)
  {
    assert PlaceOk(mem, at, k, t);
    if u != f {
      assert EntryOk(mem, at, k, u, j);
      assert PlaceOk(mem, at, k, u);
    }
  }

  lemma AddTableInv(mem: Memory, at: Places, k: nat, t: nat, i: nat, f: nat)
    requires CanAddTable(mem, at, k, t, i, f)
    ensures Inv(AddTable(mem, t, i, f), AddTablePlace(at, t, i, f), k)
  {
    var m, a := AddTable(mem, t, i, f), AddTablePlace(at, t, i, f);
    forall g | g in a
      ensures PlaceOk(m, a, k, g)
    {
      AddTablePlaceOk(mem, at, k, t, i, f, g);
    }
    forall u, j: nat | IsTable(a, u) && j < 512
      ensures EntryOk(m, a, k, u, j)
    {
      AddTableEntryOk(mem, at, k, t, i, f, u, j);
    }
  }

  /** An empty table changes no translation in any space. */
  lemma AddTableLookup(mem: Memory, at: Places, k: nat, t: nat, i: nat, f: nat, r: nat, p: Page)
    requires CanAddTable(mem, at, k, t, i, f) && IsRoot(at, r) && InRange(p)
    ensures Lookup(AddTable(mem, t, i, f), r, p) == Lookup(mem, r, p)
    ensures PtOf(mem, r, p).Table? ==> PtOf(AddTable(mem, t, i, f), r, p) == PtOf(mem, r, p)
  {
    Walk(mem, at, k, r, p);
    Depths(p);
    WalkAvoids(mem, at, k, r, p, f);
    if PtOf(mem, r, p).Table? {
      WalkPt(mem, at, k, r, p);
    }
  }

  // ---- writing a leaf ----

  ghost predicate CanSetLeaf(mem: Memory, at: Places, k: nat, pt: nat, i: nat, e: Entry) {
    && Inv(mem, at, k)
    && pt in at && Depth(at[pt].path) == 3 && i < 512
    && pt in mem && |mem[pt]| == 512
    && (e.present ==> !e.huge)
    && (e.present && at[pt].root != k ==> e.frame !in at)
  }

  /** A process leaf owns its frame; the frame it displaces is owned no more. */
  function SetLeafPlace(mem: Memory, at: Places, k: nat, pt: nat, i: nat, e: Entry): Places
    requires pt in at
  {
    var old_ := Ent(mem, pt, i);
    var kept := if old_.present && at[pt].root != k then at - {old_.frame} else at;
    if e.present && at[pt].root != k then kept[e.frame := Place(at[pt].root, Step(at[pt].path, i), pt)] else kept
  }

  lemma SetLeafPlaceOk(mem: Memory, at: Places, k: nat, pt: nat, i: nat, e: Entry, g: nat)
    requires CanSetLeaf(mem, at, k, pt, i, e) && g in SetLeafPlace(mem, at, k, pt, i, e)
    ensures PlaceOk(Write(mem, pt, i, e), SetLeafPlace(mem, at, k, pt, i, e), k, g)
  {
    assert PlaceOk(mem, at, k, pt);
    assert EntryOk(mem, at, k, pt, i);
    if g in at && at[g] == SetLeafPlace(mem, at, k, pt, i, e)[g] {
      assert PlaceOk(mem, at, k, g);
      if at[g].path.Step? {
        assert PlaceOk(mem, at, k, at[g].up);
      }
    }
  }

  lemma SetLeafEntryOk(mem: Memory, at: Places, k: nat, pt: nat, i: nat, e: Entry, u: nat, j: nat)
    requires CanSetLeaf(mem, at, k, pt, i, e) && IsTable(SetLeafPlace(mem, at, k, pt, i, e), u) && j < 512
    ensures EntryOk(Write(mem, pt, i, e), SetLeafPlace(mem, at, k, pt, i, e), k, u, j)
  {
    assert PlaceOk(mem, at, k, pt);
    assert PlaceOk(mem, at, k, k);
    assert EntryOk(mem, at, k, pt, i);
    if u in at && at[u] == SetLeafPlace(mem, at, k, pt, i, e)[u] {
      assert EntryOk(mem, at, k, u, j);
      assert PlaceOk(mem, at, k, u);
    }
  }

  lemma SetLeafInv(mem: Memory, at: Places, k: nat, pt: nat, i: nat, e: Entry)
    requires CanSetLeaf(mem, at, k, pt, i, e)
    ensures Inv(Write(mem, pt, i, e), SetLeafPlace(mem, at, k, pt, i, e), k)
  {
    var m, a := Write(mem, pt, i, e), SetLeafPlace(mem, at, k, pt, i, e);
    forall g | g in a
      ensures PlaceOk(m, a, k, g)
    {
      SetLeafPlaceOk(mem, at, k, pt, i, e, g);
    }
    forall u, j: nat | IsTable(a, u) && j < 512
      ensures EntryOk(m, a, k, u, j)
    {
      SetLeafEntryOk(mem, at, k, pt, i, e, u, j);
    }
    assert PlaceOk(mem, at, k, pt);
    assert EntryOk(mem, at, k, pt, i);
  }

  /** A leaf write changes the translation of exactly the pages whose walk ends at it. */
  lemma SetLeafLookup(mem: Memory, at: Places, k: nat, pt: nat, i: nat, e: Entry, r: nat, p: Page)
    requires CanSetLeaf(mem, at, k, pt, i, e) && IsRoot(at, r) && InRange(p)
    ensures Lookup(Write(mem, pt, i, e), r, p) ==
            if PtOf(mem, r, p) == Table(pt) && p.i1 == i then LeafMapping(e) else Lookup(mem, r, p)
  {
    Walk(mem, at, k, r, p);
    Depths(p);
    if PtOf(mem, r, p).Table? {
      WalkPt(mem, at, k, r, p);
    }
  }

  // ---- a new address space ----

  /** User half empty, kernel half copied from the template `k`. */
  function NewRoot(mem: Memory, k: nat): (t: seq<Entry>)
    requires k in mem && |mem[k]| == 512
    ensures |t| == 512
  {
    seq(512, i requires 0 <= i < 512 => if i < 256 then ABSENT else mem[k][i])
  }

  lemma AddRootInv(mem: Memory, at: Places, k: nat, n: nat)
    requires Inv(mem, at, k) && n !in at && k in mem && |mem[k]| == 512
    ensures Inv(mem[n := NewRoot(mem, k)], at[n := Place(n, Top, n)], k)
  {
    var m, a := mem[n := NewRoot(mem, k)], at[n := Place(n, Top, n)];
    forall g | g in a
      ensures PlaceOk(m, a, k, g)
    {
      if g != n {
        assert PlaceOk(mem, at, k, g);
      }
    }
    forall u, j: nat | IsTable(a, u) && j < 512
      ensures EntryOk(m, a, k, u, j)
    {
      if u != n {
        assert EntryOk(mem, at, k, u, j);
        assert PlaceOk(mem, at, k, u);
      }
    }
  }

  /** A new space changes no existing translation, maps nothing in the user half, and
      translates the kernel half as the template does. */
  lemma AddRootLookup(mem: Memory, at: Places, k: nat, n: nat, r: nat, p: Page)
    requires Inv(mem, at, k) && n !in at && k in mem && |mem[k]| == 512 && InRange(p)
    ensures IsRoot(at, r) ==> Lookup(mem[n := NewRoot(mem, k)], r, p) == Lookup(mem, r, p)
    ensures Lookup(mem[n := NewRoot(mem, k)], n, p) == if p.i4 < 256 then Unmapped else Lookup(mem, k, p)
  {
    if IsRoot(at, r) {
      WalkAvoids(mem, at, k, r, p, n);
    }
    WalkAvoids(mem, at, k, k, p, n);
  }

  // ---- address arithmetic ----

  /** A page is the low 36 bits of the address divided by the page size. */
  function PageNumber(virt: nat): nat { virt / 4096 % 0x10_0000_0000 }

  function Number(p: Page): nat { ((p.i4 * 512 + p.i3) * 512 + p.i2) * 512 + p.i1 }

  lemma PageNumbers(virt: nat)
    ensures Number(PageOf(virt)) == PageNumber(virt)
  {
    Shift21(virt);
    Shift30(virt);
    Shift39(virt);
    Digits(virt / 4096);
  }

  lemma Shift21(v: nat)
    ensures v / 0x20_0000 == v / 4096 / 512
  {}

  lemma Shift30(v: nat)
    ensures v / 0x4000_0000 == v / 0x20_0000 / 512
  {}

  lemma Shift39(v: nat)
    ensures v / 0x80_0000_0000 == v / 0x4000_0000 / 512
  {}

  /** The last four digits of a number to the base 512. */
  lemma Digits(n: nat)
    ensures var a := n / 512;
            var b := a / 512;
            var c := b / 512;
            Number(Page(c % 512, b % 512, a % 512, n % 512)) == n % 0x10_0000_0000
  {
    var a := n / 512;
    var b := a / 512;
    var c := b / 512;
    Remainder(n, c / 512, Number(Page(c % 512, b % 512, a % 512, n % 512)));
  }

  lemma Remainder(n: nat, q: nat, r: nat)
    requires n == q * 0x10_0000_0000 + r && r < 0x10_0000_0000
    ensures n % 0x10_0000_0000 == r
  {}

  lemma NumberInjective(p: Page, q: Page)
    requires InRange(p) && InRange(q) && Number(p) == Number(q)
    ensures p == q
  {
    SameDigits((p.i4 * 512 + p.i3) * 512 + p.i2, p.i1, (q.i4 * 512 + q.i3) * 512 + q.i2, q.i1);
    SameDigits(p.i4 * 512 + p.i3, p.i2, q.i4 * 512 + q.i3, q.i2);
    SameDigits(p.i4, p.i3, q.i4, q.i3);
  }

  lemma SameDigits(a: nat, x: nat, b: nat, y: nat)
    requires x < 512 && y < 512 && a * 512 + x == b * 512 + y
    ensures a == b && x == y
  {}

  /** Two addresses have the same indices exactly when bits 12 to 47 agree. */
  lemma SamePage(v: nat, w: nat)
    ensures PageOf(v) == PageOf(w) <==> PageNumber(v) == PageNumber(w)
  {
    PageNumbers(v);
    PageNumbers(w);
    if PageNumber(v) == PageNumber(w) {
      NumberInjective(PageOf(v), PageOf(w));
    }
  }

  /** In the user half the page number is the address divided by the page size. */
  lemma UserPage(v: nat)
    requires v < 0x8000_0000_0000
    ensures PageOf(v).i4 < 256 && PageNumber(v) == v / 4096
  {}

  // ---- the tree of one space ----

  /** The frames a space owns: its PML4, its tables and, for a process, its leaf pages. */
  ghost function Owned(at: Places, r: nat): set<nat> {
    set f | f in at && at[f].root == r
  }

  /** The same, as paths. */
  ghost function Nodes(at: Places, r: nat): set<Path> {
    set f | f in at && at[f].root == r :: at[f].path
  }

  function Tables(p: Page): set<Path> { {Path1(p), Path2(p), Path3(p)} }
  function Prefixes(p: Page): set<Path> { {Path1(p), Path2(p), Path3(p), Path4(p)} }

  /** The page's tables and leaf live in space `r` itself. */
  predicate PrivatePage(k: nat, r: nat, p: Page) {
    InRange(p) && (r == k || p.i4 < 256)
  }

  /** The owned frame at a prefix of a page's path is the one the walk for that page meets. */
  lemma FrameAtPath(mem: Memory, at: Places, k: nat, r: nat, p: Page, f: nat)
    requires Inv(mem, at, k) && IsRoot(at, r) && PrivatePage(k, r, p)
    requires f in at && at[f].root == r
    ensures at[f].path == Path1(p) ==> Ent(mem, r, p.i4).present && Ent(mem, r, p.i4).frame == f
    ensures at[f].path == Path2(p) ==>
              && Ent(mem, r, p.i4).present
              && Ent(mem, Ent(mem, r, p.i4).frame, p.i3).present
              && Ent(mem, Ent(mem, r, p.i4).frame, p.i3).frame == f
    ensures at[f].path == Path3(p) ==> PtOf(mem, r, p) == Table(f)
    ensures at[f].path == Path4(p) ==>
              && PtOf(mem, r, p).Table?
              && Ent(mem, PtOf(mem, r, p).frame, p.i1).present
              && Ent(mem, PtOf(mem, r, p).frame, p.i1).frame == f
  {
    assert PlaceOk(mem, at, k, f);
    var g := at[f].up;
    if at[f].path == Path1(p) {
      assert PlaceOk(mem, at, k, g);
    } else if at[f].path == Path2(p) {
      FrameAtPath1(mem, at, k, r, p, g);
    } else if at[f].path == Path3(p) {
      FrameAtPath2(mem, at, k, r, p, g);
    } else if at[f].path == Path4(p) {
      assert PlaceOk(mem, at, k, g);
      FrameAtPath2(mem, at, k, r, p, at[g].up);
    }
  }

  lemma FrameAtPath1(mem: Memory, at: Places, k: nat, r: nat, p: Page, f: nat)
    requires Inv(mem, at, k) && IsRoot(at, r) && PrivatePage(k, r, p)
    requires f in at && at[f].root == r && at[f].path == Path1(p)
    ensures Ent(mem, r, p.i4).present && Ent(mem, r, p.i4).frame == f
  {
    assert PlaceOk(mem, at, k, f);
    assert PlaceOk(mem, at, k, at[f].up);
  }

  lemma FrameAtPath2(mem: Memory, at: Places, k: nat, r: nat, p: Page, f: nat)
    requires Inv(mem, at, k) && IsRoot(at, r) && PrivatePage(k, r, p)
    requires f in at && at[f].root == r && at[f].path == Path2(p)
    ensures Ent(mem, r, p.i4).present
    ensures var e3 := Ent(mem, Ent(mem, r, p.i4).frame, p.i3); e3.present && e3.frame == f
    ensures var e3 := Ent(mem, Ent(mem, r, p.i4).frame, p.i3); !e3.huge
  {
    assert PlaceOk(mem, at, k, f);
    FrameAtPath1(mem, at, k, r, p, at[f].up);
  }

  /** How many tables next_level has to allocate on the way to a page's PT. */
  function Missing(mem: Memory, r: nat, p: Page): nat {
    var e4 := Ent(mem, r, p.i4);
    var e3 := Ent(mem, e4.frame, p.i3);
    var e2 := Ent(mem, e3.frame, p.i2);
    if !e4.present then 3 else if !e3.present then 2 else if !e2.present then 1 else 0
  }

  /** No 2 MB page covers `p`, so the walk may treat its PD entry as a pointer to a PT. */
  predicate NoHuge(mem: Memory, r: nat, p: Page) {
    var e4 := Ent(mem, r, p.i4);
    var e3 := Ent(mem, e4.frame, p.i3);
    var e2 := Ent(mem, e3.frame, p.i2);
    e4.present && e3.present && e2.present ==> !e2.huge
  }

  /** Process spaces never hold huge pages. */
  lemma NoHugeInProcess(mem: Memory, at: Places, k: nat, r: nat, p: Page)
    requires Inv(mem, at, k) && IsRoot(at, r) && r != k && PrivatePage(k, r, p)
    ensures NoHuge(mem, r, p)
  {
    Walk(mem, at, k, r, p);
    Depths(p);
    var e4 := Ent(mem, r, p.i4);
    var e3 := Ent(mem, e4.frame, p.i3);
    if e4.present && e3.present {
      assert EntryOk(mem, at, k, e3.frame, p.i2);
    }
  }

  /** A node of the tree is present in memory exactly when its path is a node of the space. */
  lemma NodesAreWalked(mem: Memory, at: Places, k: nat, r: nat, p: Page)
    requires Inv(mem, at, k) && IsRoot(at, r) && PrivatePage(k, r, p) && NoHuge(mem, r, p)
    ensures Path1(p) in Nodes(at, r) <==> Missing(mem, r, p) < 3
    ensures Path2(p) in Nodes(at, r) <==> Missing(mem, r, p) < 2
    ensures Path3(p) in Nodes(at, r) <==> Missing(mem, r, p) == 0
    ensures r != k ==> (Path4(p) in Nodes(at, r) <==> Lookup(mem, r, p).Mapped?)
    ensures r != k && Lookup(mem, r, p).Mapped? ==>
              var f := Lookup(mem, r, p).frame;
              f in at && at[f].root == r && at[f].path == Path4(p) && PtOf(mem, r, p) == Table(at[f].up)
  {
    Walk(mem, at, k, r, p);
    forall f | f in at && at[f].root == r
      ensures at[f].path == Path1(p) ==> Missing(mem, r, p) < 3
      ensures at[f].path == Path2(p) ==> Missing(mem, r, p) < 2
      ensures at[f].path == Path3(p) ==> Missing(mem, r, p) == 0
      ensures at[f].path == Path4(p) ==> PtOf(mem, r, p).Table? && Ent(mem, PtOf(mem, r, p).frame, p.i1).present
    {
      FrameAtPath(mem, at, k, r, p, f);
    }
    if PtOf(mem, r, p).Table? {
      WalkPt(mem, at, k, r, p);
      Depths(p);
      assert EntryOk(mem, at, k, PtOf(mem, r, p).frame, p.i1);
    }
  }

  /** So the frames a page still needs are counted by the paths that are not yet nodes. */
  lemma MissingCounts(mem: Memory, at: Places, k: nat, r: nat, p: Page)
    requires Inv(mem, at, k) && IsRoot(at, r) && PrivatePage(k, r, p) && NoHuge(mem, r, p)
    ensures |Tables(p) - Nodes(at, r)| == Missing(mem, r, p)
  {
    NodesAreWalked(mem, at, k, r, p);
    var n := Nodes(at, r);
    var m := Missing(mem, r, p);
    assert Tables(p) - n ==
           if m == 0 then {} else if m == 1 then {Path3(p)} else if m == 2 then {Path2(p), Path3(p)} else Tables(p);
  }

  // ---- what operations promise about all spaces at once ----

  /** The kernel slots that processes borrow are never rewritten. */
  ghost predicate BorrowedKept(m0: Memory, a0: Places, m1: Memory, k: nat) {
    forall q, i: nat :: IsRoot(a0, q) && q != k && 256 <= i < 512 ==> Ent(m1, q, i) == Ent(m0, q, i)
  }

  /** The tree of `r` grew by tables and nothing else happened: no place changed, no
      space appeared, no other space's tables changed, no translation changed. */
  ghost predicate Grew(m0: Memory, a0: Places, m1: Memory, a1: Places, k: nat, r: nat) {
    && BorrowedKept(m0, a0, m1, k)
    && (forall t | t in a0 && t in m0 && a0[t].root != r :: t in m1 && m1[t] == m0[t])
    && (forall g | g in a0 :: g in a1 && a1[g] == a0[g])
    && (forall g | g in a1 && g !in a0 :: a1[g].root == r && a1[g].path.Step?)
    && (forall q, p :: IsRoot(a0, q) && InRange(p) ==> Lookup(m1, q, p) == Lookup(m0, q, p))
  }

  lemma AddTableGrew(mem: Memory, at: Places, k: nat, t: nat, i: nat, f: nat)
    requires CanAddTable(mem, at, k, t, i, f)
    ensures Grew(mem, at, AddTable(mem, t, i, f), AddTablePlace(at, t, i, f), k, at[t].root)
    ensures Nodes(AddTablePlace(at, t, i, f), at[t].root) == Nodes(at, at[t].root) + {Step(at[t].path, i)}
  {
    forall q, p | IsRoot(at, q) && InRange(p)
      ensures Lookup(AddTable(mem, t, i, f), q, p) == Lookup(mem, q, p)
    {
      AddTableLookup(mem, at, k, t, i, f, q, p);
    }
    var a, r := AddTablePlace(at, t, i, f), at[t].root;
    NodesGrow(at, a, r, f);
  }

  lemma NodesGrow(at: Places, a: Places, r: nat, f: nat)
    requires f !in at && f in a && a[f].root == r && a == at[f := a[f]]
    ensures Nodes(a, r) == Nodes(at, r) + {a[f].path}
  {
    forall n | n in Nodes(at, r) + {a[f].path}
      ensures n in Nodes(a, r)
    {
      if n in Nodes(at, r) {
        var g :| g in at && at[g].root == r && at[g].path == n;
        assert g in a && a[g].root == r && a[g].path == n;
      }
    }
  }

  /** Space `r'` translates page `p` through the tables of space `r`. */
  predicate Sees(mem: Memory, k: nat, r: nat, p: Page, r': nat) {
    r' == r || (r == k && p.i4 >= 256 && Ent(mem, r', p.i4).present)
  }

  /** Page `p` of space `r` now translates to `m`, for every space that shares the tables
      and for no other, and no other page of any space translates differently. */
  ghost predicate Remapped(m0: Memory, a0: Places, m1: Memory, k: nat, r: nat, p: Page, m: Mapping) {
    forall q, s :: IsRoot(a0, q) && InRange(s) ==>
      Lookup(m1, q, s) == if s == p && Sees(m0, k, r, p, q) then m else Lookup(m0, q, s)
  }

  /** Walks that end at the same entry are walks for the same page, from a space that sees it. */
  lemma SameLeaf(mem: Memory, at: Places, k: nat, r: nat, p: Page, q: nat, s: Page)
    requires Inv(mem, at, k) && IsRoot(at, r) && PrivatePage(k, r, p) && PtOf(mem, r, p).Table?
    requires IsRoot(at, q) && InRange(s)
    ensures PtOf(mem, q, s) == PtOf(mem, r, p) && s.i1 == p.i1 <==> s == p && Sees(mem, k, r, p, q)
  {
    WalkPt(mem, at, k, r, p);
    if PtOf(mem, q, s) == PtOf(mem, r, p) {
      WalkPt(mem, at, k, q, s);
    }
    if s == p && Sees(mem, k, r, p, q) && q != r {
      assert EntryOk(mem, at, k, q, p.i4);
      assert PlaceOk(mem, at, k, q);
    }
  }

  lemma SetLeafRemaps(mem: Memory, at: Places, k: nat, r: nat, p: Page, e: Entry)
    requires Inv(mem, at, k) && IsRoot(at, r) && PrivatePage(k, r, p) && PtOf(mem, r, p).Table?
    requires CanSetLeaf(mem, at, k, PtOf(mem, r, p).frame, p.i1, e)
    ensures Remapped(mem, at, Write(mem, PtOf(mem, r, p).frame, p.i1, e), k, r, p, LeafMapping(e))
    ensures BorrowedKept(mem, at, Write(mem, PtOf(mem, r, p).frame, p.i1, e), k)
  {
    var pt := PtOf(mem, r, p).frame;
    forall q, s | IsRoot(at, q) && InRange(s)
      ensures Lookup(Write(mem, pt, p.i1, e), q, s) ==
              if s == p && Sees(mem, k, r, p, q) then LeafMapping(e) else Lookup(mem, q, s)
    {
      SetLeafLookup(mem, at, k, pt, p.i1, e, q, s);
      SameLeaf(mem, at, k, r, p, q, s);
    }
  }

  /** The frame a leaf write takes away from the space. */
  function Displaced(m: Mapping): set<nat> {
    if m.Mapped? then {m.frame} else {}
  }

  lemma SetLeafOwned(mem: Memory, at: Places, k: nat, pt: nat, i: nat, e: Entry)
    requires CanSetLeaf(mem, at, k, pt, i, e)
    ensures var a, r := SetLeafPlace(mem, at, k, pt, i, e), at[pt].root;
            && (r == k ==> a == at)
            && (r != k ==>
                  && Owned(a, r) == Owned(at, r) - Displaced(LeafMapping(Ent(mem, pt, i))) + Displaced(LeafMapping(e))
                  && (e.present ==> Nodes(a, r) == Nodes(at, r) + {Step(at[pt].path, i)}))
            && (forall q | q != r :: Owned(a, q) == Owned(at, q))
            && (forall q :: IsRoot(a, q) <==> IsRoot(at, q))
            && (forall f | f in a :: f in at || f == e.frame)
  {
    var a, r := SetLeafPlace(mem, at, k, pt, i, e), at[pt].root;
    var o := Ent(mem, pt, i);
    assert EntryOk(mem, at, k, pt, i);
    assert PlaceOk(mem, at, k, pt);
    if r != k && e.present {
      var n := Step(at[pt].path, i);
      assert a[e.frame].path == n && a[e.frame].root == r;
      forall x | x in Nodes(at, r) + {n}
        ensures x in Nodes(a, r)
      {
        if x != n {
          var g :| g in at && at[g].root == r && at[g].path == x;
          assert g in a && a[g] == at[g];
        }
      }
      assert Nodes(a, r) == Nodes(at, r) + {n};
    }
  }

  // ---- going down one level ----

  function Index(p: Page, d: nat): nat {
    if d == 0 then p.i4 else if d == 1 then p.i3 else if d == 2 then p.i2 else p.i1
  }

  function PathAt(p: Page, d: nat): Path {
    if d == 0 then Top else if d == 1 then Path1(p) else if d == 2 then Path2(p)
    else if d == 3 then Path3(p) else Path4(p)
  }

  /** `t` is the table at depth `d` on the walk for `p` in its own space `r`. */
  ghost predicate OnWay(mem: Memory, at: Places, r: nat, p: Page, d: nat, t: nat) {
    var e4 := Ent(mem, r, p.i4);
    var e3 := Ent(mem, e4.frame, p.i3);
    && t in at && at[t].root == r && at[t].path == PathAt(p, d)
    && (d == 0 ==> t == r)
    && (d == 1 ==> e4.present && t == e4.frame)
    && (d == 2 ==> e4.present && e3.present && !e3.huge && t == e3.frame)
    && (d == 3 ==> PtOf(mem, r, p) == Table(t))
  }

  /** A present entry on the way leads to the next table on the way. */
  lemma WayDown(mem: Memory, at: Places, k: nat, r: nat, p: Page, d: nat, t: nat)
    requires Inv(mem, at, k) && IsRoot(at, r) && PrivatePage(k, r, p) && NoHuge(mem, r, p)
    requires d < 3 && OnWay(mem, at, r, p, d, t)
    ensures t in mem && |mem[t]| == 512 && Depth(at[t].path) == d && Private(at, k, t, Index(p, d))
    ensures var e := Ent(mem, t, Index(p, d));
            if e.present then !e.huge && OnWay(mem, at, r, p, d + 1, e.frame)
            else Missing(mem, r, p) == 3 - d
  {
    Depths(p);
    assert PlaceOk(mem, at, k, t);
    assert PlaceOk(mem, at, k, r);
    assert EntryOk(mem, at, k, t, Index(p, d));
  }

  /** A table added on the way is the next table on the way, and one less is missing. */
  lemma WayGrows(mem: Memory, at: Places, k: nat, r: nat, p: Page, d: nat, t: nat, f: nat)
    requires Inv(mem, at, k) && IsRoot(at, r) && PrivatePage(k, r, p) && NoHuge(mem, r, p)
    requires d < 3 && OnWay(mem, at, r, p, d, t)
    requires CanAddTable(mem, at, k, t, Index(p, d), f)
    ensures var m, a := AddTable(mem, t, Index(p, d), f), AddTablePlace(at, t, Index(p, d), f);
            OnWay(m, a, r, p, d + 1, f) && NoHuge(m, r, p) && Missing(m, r, p) == 2 - d
  {
    Depths(p);
    Walk(mem, at, k, r, p);
    WalkAvoids(mem, at, k, r, p, f);
  }

  /** Growing the tables first and writing the leaf then remaps just the leaf. */
  lemma GrewThenRemapped(m0: Memory, a0: Places, m1: Memory, a1: Places, m2: Memory, k: nat, r: nat, p: Page, m: Mapping)
    requires Inv(m0, a0, k) && IsRoot(a0, r) && Grew(m0, a0, m1, a1, k, r)
    requires Remapped(m1, a1, m2, k, r, p, m)
    ensures Remapped(m0, a0, m2, k, r, p, m)
    ensures BorrowedKept(m1, a1, m2, k) ==> BorrowedKept(m0, a0, m2, k)
  {
    forall q, s | IsRoot(a0, q) && InRange(s)
      ensures Lookup(m2, q, s) == if s == p && Sees(m0, k, r, p, q) then m else Lookup(m0, q, s)
    {
      assert PlaceOk(m0, a0, k, q);
      assert IsRoot(a1, q);
      assert Lookup(m1, q, s) == Lookup(m0, q, s);
    }
  }

  /** What mapping frame `f` at page `p` of `r` does to ownership: the space gains the
      new tables and `f` and loses the frame it displaced; other spaces are untouched. */
  ghost predicate Charged(m0: Memory, a0: Places, used0: set<nat>, a1: Places, used1: set<nat>, k: nat, r: nat, p: Page, f: nat) {
    && used0 <= used1
    && (forall q :: IsRoot(a1, q) <==> IsRoot(a0, q))
    && (forall q | q != r :: Owned(a1, q) == Owned(a0, q))
    && (r == k ==> Nodes(a1, r) == Nodes(a0, r) + Tables(p))
    && (r != k ==>
          && Nodes(a1, r) == Nodes(a0, r) + Prefixes(p)
          && used1 - Owned(a1, r) == used0 - Owned(a0, r) - {f} + Displaced(Lookup(m0, r, p)))
  }

  lemma GrewThenCharged(m0: Memory, a0: Places, u0: set<nat>, m1: Memory, a1: Places, u1: set<nat>, k: nat, r: nat, p: Page, e: Entry)
    requires Inv(m0, a0, k) && IsRoot(a0, r) && PrivatePage(k, r, p) && Grew(m0, a0, m1, a1, k, r)
    requires u0 <= u1 && u1 - a1.Keys == u0 - a0.Keys && a0.Keys <= u0 && a1.Keys <= u1
    requires Nodes(a1, r) == Nodes(a0, r) + Tables(p)
    requires Inv(m1, a1, k) && IsRoot(a1, r) && PtOf(m1, r, p).Table?
    requires e.present && CanSetLeaf(m1, a1, k, PtOf(m1, r, p).frame, p.i1, e)
    requires r != k ==> e.frame in u1
    ensures Charged(m0, a0, u0, SetLeafPlace(m1, a1, k, PtOf(m1, r, p).frame, p.i1, e), u1, k, r, p, e.frame)
  {
    var pt := PtOf(m1, r, p).frame;
    var a2 := SetLeafPlace(m1, a1, k, pt, p.i1, e);
    SetLeafOwned(m1, a1, k, pt, p.i1, e);
    WalkPt(m1, a1, k, r, p);
    GrewOwned(m0, a0, m1, a1, k, r);
    assert Lookup(m1, r, p) == Lookup(m0, r, p);
    if r != k {
      var d := Displaced(Lookup(m0, r, p));
      NodesAreWalkedLeaf(m1, a1, k, r, p);
      assert Owned(a2, r) == Owned(a1, r) - d + {e.frame};
      SlackKept(m0, a0, u0, m1, a1, u1, k, r);
      assert d <= Owned(a1, r) && d <= u1;
    }
  }

  /** Tables that grew belong to `r`, so what `r` does not own stays what it was. */
  lemma SlackKept(m0: Memory, a0: Places, u0: set<nat>, m1: Memory, a1: Places, u1: set<nat>, k: nat, r: nat)
    requires Grew(m0, a0, m1, a1, k, r)
    requires u0 <= u1 && u1 - a1.Keys == u0 - a0.Keys && a0.Keys <= u0 && a1.Keys <= u1
    ensures u1 - Owned(a1, r) == u0 - Owned(a0, r)
  {
    forall x
      ensures x in u1 - Owned(a1, r) <==> x in u0 - Owned(a0, r)
    {
      assert x in u1 - a1.Keys <==> x in u0 - a0.Keys;
    }
  }

  lemma GrewTransitive(m0: Memory, a0: Places, m1: Memory, a1: Places, m2: Memory, a2: Places, k: nat, r: nat)
    requires Grew(m0, a0, m1, a1, k, r) && Grew(m1, a1, m2, a2, k, r)
    ensures Grew(m0, a0, m2, a2, k, r)
  {
    forall q, p | IsRoot(a0, q) && InRange(p)
      ensures Lookup(m2, q, p) == Lookup(m0, q, p)
    {
      assert Lookup(m1, q, p) == Lookup(m0, q, p);
    }
  }

  lemma GrewOwned(m0: Memory, a0: Places, m1: Memory, a1: Places, k: nat, r: nat)
    requires Grew(m0, a0, m1, a1, k, r)
    ensures Owned(a1, r) == Owned(a0, r) + (a1.Keys - a0.Keys)
    ensures forall q | q != r :: Owned(a1, q) == Owned(a0, q)
    ensures forall q :: IsRoot(a1, q) <==> IsRoot(a0, q)
  {}

  /** A mapped leaf of a process space is owned by it. */
  lemma NodesAreWalkedLeaf(mem: Memory, at: Places, k: nat, r: nat, p: Page)
    requires Inv(mem, at, k) && IsRoot(at, r) && r != k && PrivatePage(k, r, p)
    ensures Displaced(Lookup(mem, r, p)) <= Owned(at, r)
  {
    NoHugeInProcess(mem, at, k, r, p);
    NodesAreWalked(mem, at, k, r, p);
  }

  /** Spaces that see a page translate it alike. */
  lemma SeesAlike(mem: Memory, at: Places, k: nat, r: nat, p: Page, q: nat)
    requires Inv(mem, at, k) && IsRoot(at, r) && IsRoot(at, q) && InRange(p) && Sees(mem, k, r, p, q)
    ensures Lookup(mem, q, p) == Lookup(mem, r, p)
  {
    assert EntryOk(mem, at, k, q, p.i4);
  }

  lemma AlreadyUnmapped(mem: Memory, at: Places, k: nat, r: nat, p: Page)
    requires Inv(mem, at, k) && IsRoot(at, r) && InRange(p) && Lookup(mem, r, p) == Unmapped
    ensures Remapped(mem, at, mem, k, r, p, Unmapped)
  {
    forall q, s | IsRoot(at, q) && InRange(s) && s == p && Sees(mem, k, r, p, q)
      ensures Lookup(mem, q, s) == Unmapped
    {
      SeesAlike(mem, at, k, r, p, q);
    }
  }

  /** No translation in any space but `r` changed. */
  ghost predicate SameElsewhere(m0: Memory, a0: Places, m1: Memory, r: nat) {
    forall q, p :: IsRoot(a0, q) && q != r && InRange(p) ==> Lookup(m1, q, p) == Lookup(m0, q, p)
  }
}
