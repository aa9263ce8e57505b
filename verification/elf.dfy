/** The ELF64 loader (kernel/user/elf.c): program headers read from the image, pages mapped
    on demand in the target space, and bytes stored through the direct map of physical
    memory (System V gABI, chapter 5, Program Header). */
module Elf {
  import opened Packed
  import opened Paging
  import opened Pmm
  import opened Vmm

  type Byte = Packed.Byte

  // ---- the image ----

  const EHDR_SIZE: nat := 64
  const PHDR_SIZE: nat := 56

  /** What elf_load checks before it trusts the header. */
  predicate HeaderOk(image: seq<Byte>) {
    && |image| >= EHDR_SIZE
    && image[0] == 0x7F && image[1] == 0x45 && image[2] == 0x4C && image[3] == 0x46
    && image[4] == 2
    && Le(image, 16, 2) == 2
    && Le(image, 18, 2) == 0x3E
  }

  function Entry64(image: seq<Byte>): nat
    requires HeaderOk(image)
  {
    Le(image, 24, 8)
  }

  function PhCount(image: seq<Byte>): nat
    requires HeaderOk(image)
  {
    Le(image, 56, 2)
  }

  function PhOffset(image: seq<Byte>, i: nat): nat
    requires HeaderOk(image)
  {
    Le(image, 32, 8) + PHDR_SIZE * i
  }

  /** The program header table lies inside the image. */
  predicate HeadersInside(image: seq<Byte>)
    requires HeaderOk(image)
  {
    PhOffset(image, PhCount(image)) <= |image|
  }

  datatype Segment = Segment(load: bool, offset: nat, vaddr: nat, filesz: nat, memsz: nat)

  function SegmentAt(image: seq<Byte>, i: nat): Segment
    requires HeaderOk(image) && HeadersInside(image) && i < PhCount(image)
  {
    var o := PhOffset(image, i);
    Segment(Le(image, o, 4) == 1, Le(image, o + 8, 8), Le(image, o + 16, 8), Le(image, o + 32, 8), Le(image, o + 40, 8))
  }

  /** A PT_LOAD segment lies in the user half and takes its file bytes from inside the image. */
  predicate SegmentOk(image: seq<Byte>, s: Segment) {
    s.load ==>
      && s.vaddr + s.memsz <= USER_SPACE_END
      && s.offset + (if s.filesz < s.memsz then s.filesz else s.memsz) <= |image|
  }

  function Segments(image: seq<Byte>): (segs: seq<Segment>)
    requires HeaderOk(image) && HeadersInside(image)
    ensures |segs| == PhCount(image) && forall i | 0 <= i < |segs| :: segs[i] == SegmentAt(image, i)
  {
    seq(PhCount(image), i requires 0 <= i < PhCount(image) => SegmentAt(image, i))
  }

  predicate SegmentsOk(image: seq<Byte>, segs: seq<Segment>) {
    forall i | 0 <= i < |segs| :: SegmentOk(image, segs[i])
  }

  /** What the loader demands of an image whose header it accepts. */
  predicate Loadable(image: seq<Byte>) {
    HeaderOk(image) ==> HeadersInside(image) && SegmentsOk(image, Segments(image))
  }

  /** Byte `b` of a segment: from the file below p_filesz, zero from there on. */
  function SegmentByte(image: seq<Byte>, s: Segment, b: nat): Byte
    requires s.load && SegmentOk(image, s) && b < s.memsz
  {
    if b < s.filesz then image[s.offset + b] else 0
  }

  datatype Maybe = Nothing | Just(byte: Byte)

  predicate Covers(s: Segment, v: nat) {
    s.load && s.vaddr <= v < s.vaddr + s.memsz
  }

  /** What the first `n` segments put at address `v`: the byte of the last one that covers it. */
  function ByteAt(image: seq<Byte>, segs: seq<Segment>, n: nat, v: nat): Maybe
    requires SegmentsOk(image, segs) && n <= |segs|
  {
    if n == 0 then Nothing
    else
      var s := segs[n - 1];
      if Covers(s, v) then Just(SegmentByte(image, s, v - s.vaddr)) else ByteAt(image, segs, n - 1, v)
  }

  /** No two PT_LOAD segments overlap. */
  ghost predicate DisjointSegments(segs: seq<Segment>) {
    forall i, j, v: nat :: 0 <= i < j < |segs| ==> !(Covers(segs[i], v) && Covers(segs[j], v))
  }

  /** With disjoint segments the byte at an address is its own segment's byte. */
  lemma {:induction false} ByteOfSegment(image: seq<Byte>, segs: seq<Segment>, n: nat, i: nat, v: nat)
    requires SegmentsOk(image, segs) && n <= |segs| && DisjointSegments(segs)
    requires i < n && Covers(segs[i], v)
    ensures ByteAt(image, segs, n, v) == Just(SegmentByte(image, segs[i], v - segs[i].vaddr))
  {
    if i < n - 1 {
      assert !Covers(segs[n - 1], v);
      ByteOfSegment(image, segs, n - 1, i, v);
    }
  }

  // ---- the frames an image needs ----

  /** The tree nodes above the byte at `v`. */
  function PathsTo(v: nat): set<Path> { Prefixes(PageOf(v)) }

  /** The tree nodes above the `n` bytes from `v`. */
  ghost function RangePaths(v: nat, n: nat): set<Path> {
    if n == 0 then {} else RangePaths(v, n - 1) + PathsTo(v + n - 1)
  }

  ghost function SegmentPaths(s: Segment): set<Path> {
    if s.load then RangePaths(s.vaddr, s.memsz) else {}
  }

  /** The nodes the first `n` segments need. */
  ghost function ImagePaths(segs: seq<Segment>, n: nat): set<Path>
    requires n <= |segs|
  {
    if n == 0 then {} else ImagePaths(segs, n - 1) + SegmentPaths(segs[n - 1])
  }

  lemma {:induction false} RangePathsNext(from: nat, b: nat, n: nat, v: nat)
    requires b < n && v == from + b
    ensures RangePaths(from, b + 1) == RangePaths(from, b) + PathsTo(v)
    ensures PathsTo(v) <= RangePaths(from, n)
    decreases n
  {
    if b < n - 1 {
      RangePathsNext(from, b, n - 1, v);
    }
  }

  lemma {:induction false} ImagePathsGrow(segs: seq<Segment>, m: nat, n: nat)
    requires m <= n <= |segs|
    ensures ImagePaths(segs, m) <= ImagePaths(segs, n)
  {
    if m < n {
      ImagePathsGrow(segs, m, n - 1);
    }
  }

  lemma SegmentInImage(segs: seq<Segment>, n: nat)
    requires n < |segs| && segs[n].load
    ensures RangePaths(segs[n].vaddr, segs[n].memsz) <= ImagePaths(segs, |segs|)
  {
    ImagePathsGrow(segs, n + 1, |segs|);
  }

  // ---- reading through an address space ----

  type Ram = map<nat, Byte>

  /** What an access to `v` in space `r` reads. */
  function Read(mem: Memory, ram: Ram, r: nat, v: nat): Maybe {
    match Lookup(mem, r, PageOf(v))
    case Unmapped => Nothing
    case Mapped(f, _, _) =>
      var pa := f * FRAME_SIZE + v % FRAME_SIZE;
      if pa in ram then Just(ram[pa]) else Nothing
  }

  /** Different user addresses of one process never share a physical byte. */
  lemma BytesApart(mem: Memory, at: Places, k: nat, r: nat, v: nat, w: nat)
    requires Inv(mem, at, k) && IsRoot(at, r) && r != k && v != w && v < USER_SPACE_END && w < USER_SPACE_END
    requires Lookup(mem, r, PageOf(v)).Mapped? && Lookup(mem, r, PageOf(w)).Mapped?
    ensures Translate(mem, r, v) != Translate(mem, r, w)
  {
    UserPage(v);
    UserPage(w);
    SamePage(v, w);
    NoHugeInProcess(mem, at, k, r, PageOf(v));
    NoHugeInProcess(mem, at, k, r, PageOf(w));
    NodesAreWalked(mem, at, k, r, PageOf(v));
    NodesAreWalked(mem, at, k, r, PageOf(w));
  }

  /** Every mapped user page of `r` is writable and accessible to Ring 3. */
  ghost predicate AllUserRw(mem: Memory, r: nat) {
    forall p :: InRange(p) && p.i4 < 256 && Lookup(mem, r, p).Mapped? ==>
      Lookup(mem, r, p).writable && Lookup(mem, r, p).user
  }

  /** The nodes a page still lacks, one by one: its missing tables and its leaf. */
  lemma PageNeeds(mem: Memory, at: Places, k: nat, r: nat, p: Page)
    requires Inv(mem, at, k) && IsRoot(at, r) && r != k && PrivatePage(k, r, p)
    ensures NoHuge(mem, r, p)
    ensures |Prefixes(p) - Nodes(at, r)| == if Lookup(mem, r, p).Mapped? then 0 else Missing(mem, r, p) + 1
  {
    NoHugeInProcess(mem, at, k, r, p);
    NodesAreWalked(mem, at, k, r, p);
    MissingCounts(mem, at, k, r, p);
    Depths(p);
    var n := Nodes(at, r);
    if Lookup(mem, r, p).Mapped? {
      assert Prefixes(p) - n == {};
    } else {
      assert Prefixes(p) - n == (Tables(p) - n) + {Path4(p)};
      assert Path4(p) !in Tables(p);
    }
  }

  /** The same while segment `n` is being copied and `b` of its bytes are in place. */
  function ByteSoFar(image: seq<Byte>, segs: seq<Segment>, n: nat, b: nat, v: nat): Maybe
    requires SegmentsOk(image, segs) && n < |segs| && segs[n].load && b <= segs[n].memsz
  {
    if segs[n].vaddr <= v < segs[n].vaddr + b then Just(SegmentByte(image, segs[n], v - segs[n].vaddr))
    else ByteAt(image, segs, n, v)
  }

  /** Every address the first `n` segments define reads, through space `r`, as they say. */
  ghost predicate Loaded(mem: Memory, ram: Ram, r: nat, image: seq<Byte>, segs: seq<Segment>, n: nat)
    requires SegmentsOk(image, segs) && n <= |segs|
  {
    forall v: nat :: v < USER_SPACE_END && ByteAt(image, segs, n, v).Just? ==>
      Read(mem, ram, r, v) == ByteAt(image, segs, n, v)
  }

  ghost predicate LoadedSoFar(mem: Memory, ram: Ram, r: nat, image: seq<Byte>, segs: seq<Segment>, n: nat, b: nat)
    requires SegmentsOk(image, segs) && n < |segs| && segs[n].load && b <= segs[n].memsz
  {
    forall v: nat :: v < USER_SPACE_END && ByteSoFar(image, segs, n, b, v).Just? ==>
      Read(mem, ram, r, v) == ByteSoFar(image, segs, n, b, v)
  }

  /** A byte that was readable reads as before. */
  predicate Unchanged(m0: Memory, ram0: Ram, mem: Memory, ram: Ram, r: nat, w: nat) {
    Read(m0, ram0, r, w).Just? ==> Read(mem, ram, r, w) == Read(m0, ram0, r, w)
  }

  /** One stored byte: `v` reads as `x` and nothing that was readable reads differently. */
  ghost predicate Stored(m0: Memory, ram0: Ram, mem: Memory, ram: Ram, r: nat, v: nat, x: Byte) {
    && Read(mem, ram, r, v) == Just(x)
    && forall w: nat {:trigger Unchanged(m0, ram0, mem, ram, r, w)} ::
         w < USER_SPACE_END && w != v ==> Unchanged(m0, ram0, mem, ram, r, w)
  }

  /** The file in memory, byte by byte: below p_filesz a PT_LOAD segment reads as the bytes of
      the image from p_offset on, and from there to p_memsz as zero, at every address that no
      later segment covers. */
  ghost predicate FileInMemory(mem: Memory, ram: Ram, r: nat, image: seq<Byte>, segs: seq<Segment>)
    requires SegmentsOk(image, segs)
  {
    forall i, v: nat :: 0 <= i < |segs| && LastAt(segs, i, v) ==>
      var b := v - segs[i].vaddr;
      Read(mem, ram, r, v) == Just(if b < segs[i].filesz then image[segs[i].offset + b] else 0)
  }

  /** Segment `i` is the last one that covers `v`. With disjoint segments, the only one. */
  ghost predicate LastAt(segs: seq<Segment>, i: nat, v: nat)
    requires i < |segs|
  {
    Covers(segs[i], v) && forall j | i < j < |segs| :: !Covers(segs[j], v)
  }

  /** The last segment that covers an address decides its byte. */
  lemma {:induction false} ByteOfLast(image: seq<Byte>, segs: seq<Segment>, n: nat, i: nat, v: nat)
    requires SegmentsOk(image, segs) && i < n <= |segs| && LastAt(segs, i, v)
    ensures ByteAt(image, segs, n, v) == Just(SegmentByte(image, segs[i], v - segs[i].vaddr))
  {
    if i < n - 1 {
      ByteOfLast(image, segs, n - 1, i, v);
    }
  }

  lemma LoadedIsFile(mem: Memory, ram: Ram, r: nat, image: seq<Byte>, segs: seq<Segment>)
    requires SegmentsOk(image, segs) && Loaded(mem, ram, r, image, segs, |segs|)
    ensures FileInMemory(mem, ram, r, image, segs)
  {
    forall i, v: nat | 0 <= i < |segs| && LastAt(segs, i, v)
      ensures Read(mem, ram, r, v) == Just(SegmentByte(image, segs[i], v - segs[i].vaddr))
    {
      ByteOfLast(image, segs, |segs|, i, v);
    }
  }

  lemma StoredNext(m0: Memory, ram0: Ram, mem: Memory, ram: Ram, r: nat, image: seq<Byte>, segs: seq<Segment>, n: nat, b: nat,
                   v: nat, x: Byte)
    requires SegmentsOk(image, segs) && n < |segs| && segs[n].load && b < segs[n].memsz
    requires LoadedSoFar(m0, ram0, r, image, segs, n, b)
    requires v == segs[n].vaddr + b && x == SegmentByte(image, segs[n], b)
    requires Stored(m0, ram0, mem, ram, r, v, x)
    ensures LoadedSoFar(mem, ram, r, image, segs, n, b + 1)
  {
    forall w: nat | w < USER_SPACE_END && ByteSoFar(image, segs, n, b + 1, w).Just?
      ensures Read(mem, ram, r, w) == ByteSoFar(image, segs, n, b + 1, w)
    {
      if w != v {
        assert ByteSoFar(image, segs, n, b, w) == ByteSoFar(image, segs, n, b + 1, w);
        assert Read(m0, ram0, r, w).Just? && Unchanged(m0, ram0, mem, ram, r, w);
      }
    }
  }

  lemma SegmentDone(mem: Memory, ram: Ram, r: nat, image: seq<Byte>, segs: seq<Segment>, n: nat)
    requires SegmentsOk(image, segs) && n < |segs|
    ensures segs[n].load && Loaded(mem, ram, r, image, segs, n) ==> LoadedSoFar(mem, ram, r, image, segs, n, 0)
    ensures segs[n].load && LoadedSoFar(mem, ram, r, image, segs, n, segs[n].memsz) ==>
              Loaded(mem, ram, r, image, segs, n + 1)
    ensures !segs[n].load && Loaded(mem, ram, r, image, segs, n) ==> Loaded(mem, ram, r, image, segs, n + 1)
  {
    forall v: nat | v < USER_SPACE_END && segs[n].load
      ensures ByteSoFar(image, segs, n, 0, v) == ByteAt(image, segs, n, v)
      ensures ByteSoFar(image, segs, n, segs[n].memsz, v) == ByteAt(image, segs, n + 1, v)
    {}
  }

  /** Free memory covers the nodes of `goal` still to come. */
  ghost predicate Room(goal: set<Path>, nodes: set<Path>, free: int) {
    |goal - nodes| <= free
  }

  lemma RoomFor(goal: set<Path>, nodes: set<Path>, free: int, paths: set<Path>)
    requires Room(goal, nodes, free) && paths <= goal
    ensures |paths - nodes| <= free
    ensures Room(goal, nodes + paths, free - |paths - nodes|)
  {
    var now, later := paths - nodes, goal - (nodes + paths);
    assert goal - nodes == now + later;
    assert now !! later;
  }

  /** The page tables, their owners and the used frames at some moment. */
  datatype Mark = Mark(mem: Memory, at: Places, used: set<nat>)

  /** One space from outside: the frames it owns and how it translates every page. */
  datatype Space = Space(owned: set<nat>, view: imap<Page, Mapping>)

  ghost function SpaceOf(m: Mark, q: nat): Space {
    Space(Owned(m.at, q), imap p: Page | InRange(p) :: Lookup(m.mem, q, p))
  }

  /** All that is not space `r`: the other spaces and the used frames `r` does not own. */
  datatype Rest = Rest(spaces: map<nat, Space>, slack: set<nat>)

  ghost function RestOf(m: Mark, r: nat): Rest {
    Rest(map q | q in m.at && m.at[q].path == Top && q != r :: SpaceOf(m, q), m.used - Owned(m.at, r))
  }

  /** The same with some more frames that are used and owned by no space. */
  ghost function WithSlack(x: Rest, more: set<nat>): Rest {
    Rest(x.spaces, x.slack + more)
  }

  lemma NoSlack(x: Rest)
    ensures WithSlack(x, {}) == x
  {
    assert x.slack + {} == x.slack;
  }

  /** In space `r` at most page `p` translates differently. */
  ghost predicate OnlyPage(m0: Memory, mem: Memory, r: nat, p: Page) {
    forall q :: InRange(q) && q != p ==> Lookup(mem, r, q) == Lookup(m0, r, q)
  }

  /** `r` is a process space whose mapped pages are all accessible to Ring 3. */
  ghost predicate Process(m: Mark, k: nat, r: nat) {
    IsRoot(m.at, r) && r != k && AllUserRw(m.mem, r)
  }

  /** In space `r` at most the unmapped page `p` translates differently. */
  ghost predicate Preserved(m0: Memory, mem: Memory, r: nat, p: Page) {
    forall q :: InRange(q) && (q != p || Lookup(m0, r, q).Mapped?) ==> Lookup(mem, r, q) == Lookup(m0, r, q)
  }

  lemma PageBase(v: nat)
    requires v < USER_SPACE_END
    ensures var page := v / FRAME_SIZE * FRAME_SIZE;
            page < USER_SPACE_END && page % FRAME_SIZE == 0 && PageOf(page) == PageOf(v) && PageOf(v).i4 < 256
  {
    FrameAddress(v / FRAME_SIZE);
    SamePage(v, v / FRAME_SIZE * FRAME_SIZE);
    UserPage(v);
  }

  /** Mapping a fresh frame at a user page touches nothing but `r`, except that the frame it
      displaces, if any, is left used and owned by nobody. */
  lemma MapKeepsRest(m: Mark, now: Mark, k: nat, r: nat, p: Page, f: nat)
    requires Inv(m.mem, m.at, k) && Process(m, k, r) && PrivatePage(k, r, p)
    requires f !in m.used && m.at.Keys <= m.used
    requires Remapped(m.mem, m.at, now.mem, k, r, p, Mapped(f, true, true))
    requires Charged(m.mem, m.at, m.used + {f}, now.at, now.used, k, r, p, f)
    ensures Process(now, k, r) && m.used <= now.used
    ensures RestOf(now, r) == WithSlack(RestOf(m, r), Displaced(Lookup(m.mem, r, p)))
    ensures OnlyPage(m.mem, now.mem, r, p)
  {
    forall q: nat, s: Page | IsRoot(m.at, q) && q != r && InRange(s)
      ensures Lookup(now.mem, q, s) == Lookup(m.mem, q, s)
    {
      assert !Sees(m.mem, k, r, p, q);
    }
    assert f !in Owned(m.at, r);
    assert m.used + {f} - Owned(m.at, r) - {f} == m.used - Owned(m.at, r);
    SameRest(m, now, r);
  }

  lemma SameRest(m: Mark, now: Mark, r: nat)
    requires forall q :: IsRoot(now.at, q) <==> IsRoot(m.at, q)
    requires forall q | q != r :: Owned(now.at, q) == Owned(m.at, q)
    requires SameElsewhere(m.mem, m.at, now.mem, r)
    ensures RestOf(now, r).spaces == RestOf(m, r).spaces
  {
    var x, y := RestOf(m, r).spaces, RestOf(now, r).spaces;
    forall q: nat
      ensures q in x <==> q in y
      ensures q in x ==> x[q] == y[q]
    {
      assert IsRoot(now.at, q) <==> IsRoot(m.at, q);
      if IsRoot(m.at, q) && q != r {
        SameView(m, now, q, r);
      }
    }
    SameMap(x, y);
  }

  lemma SameMap<V>(x: map<nat, V>, y: map<nat, V>)
    requires forall q: nat :: (q in x <==> q in y) && (q in x ==> x[q] == y[q])
    ensures x == y
  {}

  lemma SameView(m: Mark, now: Mark, q: nat, r: nat)
    requires IsRoot(m.at, q) && q != r && Owned(now.at, q) == Owned(m.at, q)
    requires SameElsewhere(m.mem, m.at, now.mem, r)
    ensures SpaceOf(m, q) == SpaceOf(now, q)
  {
    assert SpaceOf(m, q).view == SpaceOf(now, q).view;
  }

  /** A page-aligned translation is 0 exactly when the page is unmapped. */
  lemma PhysDecides(mem: Memory, at: Places, k: nat, r: nat, page: nat)
    requires Inv(mem, at, k) && IsRoot(at, r) && r != k && 0 !in at
    requires page < USER_SPACE_END && page % FRAME_SIZE == 0 && AllUserRw(mem, r)
    ensures var m := Lookup(mem, r, PageOf(page));
            var phys := Translate(mem, r, page);
            && phys % FRAME_SIZE == 0
            && (phys == 0 <==> m == Unmapped)
            && (phys != 0 ==> m == Mapped(phys / FRAME_SIZE, true, true) && Prefixes(PageOf(page)) <= Nodes(at, r))
  {
    UserPage(page);
    NoHugeInProcess(mem, at, k, r, PageOf(page));
    NodesAreWalked(mem, at, k, r, PageOf(page));
  }

  lemma NothingNeeded(n: set<Path>, p: Page)
    requires Prefixes(p) <= n
    ensures Prefixes(p) - n == {} && n + Prefixes(p) == n
  {}

  lemma LeafIsNoTable(mem: Memory, at: Places, k: nat, r: nat, v: nat)
    requires Inv(mem, at, k) && IsRoot(at, r) && r != k && v < USER_SPACE_END
    requires Lookup(mem, r, PageOf(v)).Mapped?
    ensures var f := Lookup(mem, r, PageOf(v)).frame; f in at && !IsTable(at, f)
  {
    UserPage(v);
    NoHugeInProcess(mem, at, k, r, PageOf(v));
    NodesAreWalked(mem, at, k, r, PageOf(v));
    Depths(PageOf(v));
  }

  /** A store through the page's frame is seen at `v` and nowhere else. */
  lemma StoreIsLocal(m0: Memory, ram0: Ram, mem: Memory, at: Places, ram: Ram, k: nat, r: nat, v: nat, page: nat, x: Byte)
    requires Inv(mem, at, k) && IsRoot(at, r) && r != k && v < USER_SPACE_END
    requires page % FRAME_SIZE == 0 && Lookup(mem, r, PageOf(v)) == Mapped(page / FRAME_SIZE, true, true)
    requires ram == ram0[page + v % FRAME_SIZE := x]
    requires Preserved(m0, mem, r, PageOf(v))
    ensures Stored(m0, ram0, mem, ram, r, v, x)
  {
    forall w: nat | w < USER_SPACE_END && w != v
      ensures Unchanged(m0, ram0, mem, ram, r, w)
    {
      if Read(m0, ram0, r, w).Just? {
        assert Lookup(mem, r, PageOf(w)) == Lookup(m0, r, PageOf(w));
        BytesApart(mem, at, k, r, v, w);
        assert Translate(mem, r, v) == page + v % FRAME_SIZE;
      }
    }
  }

  // ---- the state of a load ----

  /** Where a load started, its segments, and the nodes free memory must be enough for. */
  datatype Goal = Goal(start: Mark, segs: seq<Segment>, paths: set<Path>)

  /** The first `n` segments are in place: their bytes read as they say, the tree gained
      exactly their nodes, nothing else changed, and there is room for what is to come. */
  ghost predicate InPlace(g: Goal, now: Mark, ram: Ram, free: int, k: nat, r: nat, image: seq<Byte>, n: nat)
    requires SegmentsOk(image, g.segs) && n <= |g.segs|
  {
    && Process(now, k, r) && RestOf(now, r) == RestOf(g.start, r) && g.start.used <= now.used
    && Loaded(now.mem, ram, r, image, g.segs, n)
    && Nodes(now.at, r) == Nodes(g.start.at, r) + ImagePaths(g.segs, n)
    && Room(g.paths, Nodes(now.at, r), free)
  }

  /** The same with `b` bytes of segment `n` copied. */
  ghost predicate Copied(g: Goal, now: Mark, ram: Ram, free: int, k: nat, r: nat, image: seq<Byte>, n: nat, b: nat)
    requires SegmentsOk(image, g.segs) && n < |g.segs| && g.segs[n].load && b <= g.segs[n].memsz
  {
    && Process(now, k, r) && RestOf(now, r) == RestOf(g.start, r) && g.start.used <= now.used
    && LoadedSoFar(now.mem, ram, r, image, g.segs, n, b)
    && Nodes(now.at, r) == Nodes(g.start.at, r) + ImagePaths(g.segs, n) + RangePaths(g.segs[n].vaddr, b)
    && Room(g.paths, Nodes(now.at, r), free)
  }

  lemma LoadStarts(g: Goal, ram: Ram, free: int, k: nat, r: nat, image: seq<Byte>)
    requires SegmentsOk(image, g.segs) && Process(g.start, k, r)
    requires Room(g.paths, Nodes(g.start.at, r), free)
    ensures InPlace(g, g.start, ram, free, k, r, image, 0)
  {
    assert Nodes(g.start.at, r) == Nodes(g.start.at, r) + ImagePaths(g.segs, 0);
  }

  lemma CopyStarts(g: Goal, now: Mark, ram: Ram, free: int, k: nat, r: nat, image: seq<Byte>, n: nat)
    requires SegmentsOk(image, g.segs) && n < |g.segs| && g.segs[n].load
    requires InPlace(g, now, ram, free, k, r, image, n)
    ensures Copied(g, now, ram, free, k, r, image, n, 0)
  {
    SegmentDone(now.mem, ram, r, image, g.segs, n);
    assert RangePaths(g.segs[n].vaddr, 0) == {};
  }

  lemma CopyStep(g: Goal, before: Mark, ram0: Ram, free0: int, now: Mark, ram: Ram, free: int, k: nat, r: nat,
                 image: seq<Byte>, n: nat, b: nat, v: nat, x: Byte)
    requires SegmentsOk(image, g.segs) && n < |g.segs| && g.segs[n].load && b < g.segs[n].memsz
    requires Copied(g, before, ram0, free0, k, r, image, n, b)
    requires Process(now, k, r) && RestOf(now, r) == RestOf(before, r) && before.used <= now.used
    requires v == g.segs[n].vaddr + b && x == SegmentByte(image, g.segs[n], b)
    requires Stored(before.mem, ram0, now.mem, ram, r, v, x)
    requires Nodes(now.at, r) == Nodes(before.at, r) + PathsTo(v)
    requires Room(g.paths, Nodes(before.at, r) + PathsTo(v), free)
    ensures Copied(g, now, ram, free, k, r, image, n, b + 1)
  {
    assert LoadedSoFar(now.mem, ram, r, image, g.segs, n, b + 1) by {
      StoredNext(before.mem, ram0, now.mem, ram, r, image, g.segs, n, b, v, x);
    }
    var done, more := RangePaths(g.segs[n].vaddr, b), RangePaths(g.segs[n].vaddr, b + 1);
    assert more == done + PathsTo(v) by {
      RangePathsNext(g.segs[n].vaddr, b, b + 1, v);
    }
    OneMore(Nodes(g.start.at, r) + ImagePaths(g.segs, n), done, PathsTo(v), more);
  }

  lemma OneMore(nodes: set<Path>, done: set<Path>, next: set<Path>, more: set<Path>)
    requires more == done + next
    ensures nodes + done + next == nodes + more
  {}

  lemma CopyEnds(g: Goal, now: Mark, ram: Ram, free: int, k: nat, r: nat, image: seq<Byte>, n: nat)
    requires SegmentsOk(image, g.segs) && n < |g.segs| && g.segs[n].load
    requires Copied(g, now, ram, free, k, r, image, n, g.segs[n].memsz)
    ensures InPlace(g, now, ram, free, k, r, image, n + 1)
  {
    assert Loaded(now.mem, ram, r, image, g.segs, n + 1) by {
      SegmentDone(now.mem, ram, r, image, g.segs, n);
    }
    LoadPaths(g.segs, n);
    OneMore(Nodes(g.start.at, r), ImagePaths(g.segs, n), SegmentPaths(g.segs[n]), ImagePaths(g.segs, n + 1));
  }

  lemma LoadPaths(segs: seq<Segment>, n: nat)
    requires n < |segs| && segs[n].load
    ensures ImagePaths(segs, n + 1) == ImagePaths(segs, n) + SegmentPaths(segs[n])
    ensures SegmentPaths(segs[n]) == RangePaths(segs[n].vaddr, segs[n].memsz)
  {}

  lemma CopySkipped(g: Goal, now: Mark, ram: Ram, free: int, k: nat, r: nat, image: seq<Byte>, n: nat)
    requires SegmentsOk(image, g.segs) && n < |g.segs| && !g.segs[n].load
    requires InPlace(g, now, ram, free, k, r, image, n)
    ensures InPlace(g, now, ram, free, k, r, image, n + 1)
  {
    SegmentDone(now.mem, ram, r, image, g.segs, n);
    assert ImagePaths(g.segs, n + 1) == ImagePaths(g.segs, n);
  }

  class Loader {
    const vmm: AddressSpaces
    /** Physical memory, byte by byte, as the kernel reaches it through the direct map. */
    var ram: Ram

    ghost predicate Valid()
      reads this, vmm, vmm.pmm, vmm.pmm.bitmap
    {
      && vmm.Valid()
      && forall pa: nat :: pa < vmm.pmm.totalFrames * FRAME_SIZE ==> pa in ram
    }

    constructor (vmm: AddressSpaces, ram: Ram)
      requires vmm.Valid() && forall pa: nat :: pa < vmm.pmm.totalFrames * FRAME_SIZE ==> pa in ram
      ensures Valid() && this.vmm == vmm && this.ram == ram
    {
      this.vmm := vmm;
      this.ram := ram;
    }

    ghost function Now(): Mark
      reads vmm, vmm.pmm
    {
      Mark(vmm.mem, vmm.at, vmm.pmm.used)
    }

    /** `ensure_user_page`: the page of `vaddr` is mapped, by its existing frame if it has one. */
    method EnsureUserPage(pml4: nat, vaddr: nat) returns (phys: nat)
      requires Valid() && Process(Now(), vmm.kernelPml4, pml4) && vaddr < USER_SPACE_END
      requires |Prefixes(PageOf(vaddr)) - Nodes(vmm.at, pml4)| <= vmm.pmm.FreeCount()
      modifies vmm`mem, vmm`at, vmm.pmm, vmm.pmm.bitmap
      ensures Valid() && Process(Now(), vmm.kernelPml4, pml4)
      ensures RestOf(Now(), pml4) == old(RestOf(Now(), pml4)) && old(vmm.pmm.used) <= vmm.pmm.used
      ensures phys % FRAME_SIZE == 0 && Lookup(vmm.mem, pml4, PageOf(vaddr)) == Mapped(phys / FRAME_SIZE, true, true)
      ensures Preserved(old(vmm.mem), vmm.mem, pml4, PageOf(vaddr))
      ensures Nodes(vmm.at, pml4) == old(Nodes(vmm.at, pml4)) + Prefixes(PageOf(vaddr))
      ensures vmm.pmm.FreeCount() == old(vmm.pmm.FreeCount()) - old(|Prefixes(PageOf(vaddr)) - Nodes(vmm.at, pml4)|)
    {
      PageBase(vaddr);
      phys := EnsurePage(pml4, vaddr / FRAME_SIZE * FRAME_SIZE, PageOf(vaddr));
    }

    /** The same for a page-aligned address of page `p`. */
    method EnsurePage(pml4: nat, page: nat, ghost p: Page) returns (phys: nat)
      requires Valid() && Process(Now(), vmm.kernelPml4, pml4)
      requires page < USER_SPACE_END && page % FRAME_SIZE == 0 && p == PageOf(page) && p.i4 < 256
      requires |Prefixes(p) - Nodes(vmm.at, pml4)| <= vmm.pmm.FreeCount()
      modifies vmm`mem, vmm`at, vmm.pmm, vmm.pmm.bitmap
      ensures Valid() && Process(Now(), vmm.kernelPml4, pml4)
      ensures RestOf(Now(), pml4) == old(RestOf(Now(), pml4)) && old(vmm.pmm.used) <= vmm.pmm.used
      ensures phys % FRAME_SIZE == 0 && Lookup(vmm.mem, pml4, p) == Mapped(phys / FRAME_SIZE, true, true)
      ensures Preserved(old(vmm.mem), vmm.mem, pml4, p)
      ensures Nodes(vmm.at, pml4) == old(Nodes(vmm.at, pml4)) + Prefixes(p)
      ensures vmm.pmm.FreeCount() == old(vmm.pmm.FreeCount()) - old(|Prefixes(p) - Nodes(vmm.at, pml4)|)
    {
      PageNeeds(vmm.mem, vmm.at, vmm.kernelPml4, pml4, p);
      PhysDecides(vmm.mem, vmm.at, vmm.kernelPml4, pml4, page);
      phys := vmm.GetPhysIn(pml4, page);
      if phys == 0 {
        NoSlack(RestOf(Now(), pml4));
        phys := MapNewPage(pml4, page, p);
      } else {
        NothingNeeded(Nodes(vmm.at, pml4), p);
      }
    }

    /** A frame from an allocator that has one. */
    method TakeFrame() returns (phys: nat)
      requires Valid() && 1 <= vmm.pmm.FreeCount()
      modifies vmm.pmm, vmm.pmm.bitmap
      ensures Valid() && phys % FRAME_SIZE == 0 && phys / FRAME_SIZE != 0
      ensures phys / FRAME_SIZE !in old(vmm.pmm.used) && vmm.pmm.used == old(vmm.pmm.used) + {phys / FRAME_SIZE}
      ensures vmm.pmm.FreeCount() == old(vmm.pmm.FreeCount()) - 1
    {
      FreeFrameExists(vmm.pmm.used, vmm.pmm.totalFrames);
      phys := vmm.pmm.AllocFrame();
    }

    /** A new frame becomes the page of `page`: the allocating branch of `ensure_user_page`.
        A frame that was there before stays in use and is owned by nobody. */
    method MapNewPage(pml4: nat, page: nat, ghost p: Page) returns (phys: nat)
      requires Valid() && Process(Now(), vmm.kernelPml4, pml4) && p == PageOf(page) && p.i4 < 256
      requires Missing(vmm.mem, pml4, p) + 1 <= vmm.pmm.FreeCount()
      modifies vmm`mem, vmm`at, vmm.pmm, vmm.pmm.bitmap
      ensures Valid() && Process(Now(), vmm.kernelPml4, pml4) && old(vmm.pmm.used) <= vmm.pmm.used
      ensures RestOf(Now(), pml4) == WithSlack(old(RestOf(Now(), pml4)), Displaced(old(Lookup(vmm.mem, pml4, p))))
      ensures phys % FRAME_SIZE == 0 && Lookup(vmm.mem, pml4, p) == Mapped(phys / FRAME_SIZE, true, true)
      ensures OnlyPage(old(vmm.mem), vmm.mem, pml4, p)
      ensures Nodes(vmm.at, pml4) == old(Nodes(vmm.at, pml4)) + Prefixes(p)
      ensures vmm.pmm.FreeCount() == old(vmm.pmm.FreeCount()) - old(Missing(vmm.mem, pml4, p)) - 1
    {
      ghost var m := Now();
      NoHugeInProcess(vmm.mem, vmm.at, vmm.kernelPml4, pml4, p);
      phys := TakeFrame();
      vmm.MapPageIn(pml4, page, phys, true, true);
      MapKeepsRest(m, Now(), vmm.kernelPml4, pml4, p, phys / FRAME_SIZE);
    }

    /** One store of the copy loop: the page is mapped if need be, the byte is written to its
        frame, which is a leaf of this space and never a table. */
    method StoreByte(pml4: nat, v: nat, x: Byte)
      requires Valid() && Process(Now(), vmm.kernelPml4, pml4) && v < USER_SPACE_END
      requires |PathsTo(v) - Nodes(vmm.at, pml4)| <= vmm.pmm.FreeCount()
      modifies this`ram, vmm`mem, vmm`at, vmm.pmm, vmm.pmm.bitmap
      ensures Valid() && Process(Now(), vmm.kernelPml4, pml4)
      ensures RestOf(Now(), pml4) == old(RestOf(Now(), pml4)) && old(vmm.pmm.used) <= vmm.pmm.used
      ensures Stored(old(vmm.mem), old(ram), vmm.mem, ram, pml4, v, x)
      ensures Nodes(vmm.at, pml4) == old(Nodes(vmm.at, pml4)) + PathsTo(v)
      ensures vmm.pmm.FreeCount() == old(vmm.pmm.FreeCount()) - old(|PathsTo(v) - Nodes(vmm.at, pml4)|)
    {
      ghost var m0, ram0 := vmm.mem, ram;
      var page := EnsureUserPage(pml4, v);
      LeafIsNoTable(vmm.mem, vmm.at, vmm.kernelPml4, pml4, v);
      assert !IsTable(vmm.at, page / FRAME_SIZE) && page / FRAME_SIZE in vmm.pmm.used;
      ram := ram[page + v % FRAME_SIZE := x];
      StoreIsLocal(m0, ram0, vmm.mem, vmm.at, ram, vmm.kernelPml4, pml4, v, page, x);
    }

    /** One iteration of the byte loop. */
    method CopyByte(pml4: nat, image: seq<Byte>, s: Segment, b: nat, ghost g: Goal, ghost n: nat)
      requires Valid() && n < |g.segs| && s == g.segs[n] && s.load && b < s.memsz
      requires SegmentsOk(image, g.segs) && RangePaths(s.vaddr, s.memsz) <= g.paths
      requires Copied(g, Now(), ram, vmm.pmm.FreeCount(), vmm.kernelPml4, pml4, image, n, b)
      modifies this`ram, vmm`mem, vmm`at, vmm.pmm, vmm.pmm.bitmap
      ensures Valid() && Copied(g, Now(), ram, vmm.pmm.FreeCount(), vmm.kernelPml4, pml4, image, n, b + 1)
    {
      ghost var before, ram0, free := Now(), ram, vmm.pmm.FreeCount();
      var v := s.vaddr + b;
      var x := SegmentByte(image, s, b);
      RangePathsNext(s.vaddr, b, s.memsz, v);
      RoomFor(g.paths, Nodes(vmm.at, pml4), free, PathsTo(v));
      StoreByte(pml4, v, x);
      CopyStep(g, before, ram0, free, Now(), ram, vmm.pmm.FreeCount(), vmm.kernelPml4, pml4, image, n, b, v, x);
    }

    /** The byte loop of a PT_LOAD segment. */
    method CopySegment(pml4: nat, image: seq<Byte>, s: Segment, ghost g: Goal, ghost n: nat)
      requires Valid() && n < |g.segs| && s == g.segs[n] && s.load
      requires SegmentsOk(image, g.segs) && RangePaths(s.vaddr, s.memsz) <= g.paths
      requires Copied(g, Now(), ram, vmm.pmm.FreeCount(), vmm.kernelPml4, pml4, image, n, 0)
      modifies this`ram, vmm`mem, vmm`at, vmm.pmm, vmm.pmm.bitmap
      ensures Valid() && Copied(g, Now(), ram, vmm.pmm.FreeCount(), vmm.kernelPml4, pml4, image, n, s.memsz)
    {
      for b := 0 to s.memsz
        invariant Valid() && Copied(g, Now(), ram, vmm.pmm.FreeCount(), vmm.kernelPml4, pml4, image, n, b)
      {
        CopyByte(pml4, image, s, b, g, n);
      }
    }

    /** One iteration of the program header loop. */
    method LoadSegment(pml4: nat, image: seq<Byte>, s: Segment, ghost g: Goal, ghost n: nat)
      requires Valid() && n < |g.segs| && s == g.segs[n]
      requires SegmentsOk(image, g.segs) && ImagePaths(g.segs, |g.segs|) <= g.paths
      requires InPlace(g, Now(), ram, vmm.pmm.FreeCount(), vmm.kernelPml4, pml4, image, n)
      modifies this`ram, vmm`mem, vmm`at, vmm.pmm, vmm.pmm.bitmap
      ensures Valid() && InPlace(g, Now(), ram, vmm.pmm.FreeCount(), vmm.kernelPml4, pml4, image, n + 1)
    {
      if !s.load {
        CopySkipped(g, Now(), ram, vmm.pmm.FreeCount(), vmm.kernelPml4, pml4, image, n);
        return;
      }
      CopyStarts(g, Now(), ram, vmm.pmm.FreeCount(), vmm.kernelPml4, pml4, image, n);
      SegmentInImage(g.segs, n);
      CopySegment(pml4, image, s, g, n);
      CopyEnds(g, Now(), ram, vmm.pmm.FreeCount(), vmm.kernelPml4, pml4, image, n);
    }

    /** `elf_load`: 0 for an image whose header is refused, with nothing changed; otherwise
        every address of a PT_LOAD segment reads, through the target space, the file byte or
        zero, the tree holds exactly the nodes those addresses need, and the entry point is
        returned. */
    method ElfLoad(pml4: nat, image: seq<Byte>, ghost paths: set<Path>) returns (entry: nat)
      requires Valid() && Process(Now(), vmm.kernelPml4, pml4)
      requires Loadable(image)
      requires HeaderOk(image) ==>
                 && ImagePaths(Segments(image), PhCount(image)) <= paths
                 && Room(paths, Nodes(vmm.at, pml4), vmm.pmm.FreeCount())
      modifies this`ram, vmm`mem, vmm`at, vmm.pmm, vmm.pmm.bitmap
      ensures Valid()
      ensures !HeaderOk(image) ==> entry == 0 && Now() == old(Now()) && ram == old(ram)
      ensures HeaderOk(image) ==>
                && entry == Entry64(image)
                && FileInMemory(vmm.mem, ram, pml4, image, Segments(image))
                && InPlace(Goal(old(Now()), Segments(image), paths), Now(), ram, vmm.pmm.FreeCount(),
                           vmm.kernelPml4, pml4, image, PhCount(image))
    {
      if !HeaderOk(image) {
        return 0;
      }
      ghost var g := Goal(Now(), Segments(image), paths);
      LoadStarts(g, ram, vmm.pmm.FreeCount(), vmm.kernelPml4, pml4, image);
      for i := 0 to PhCount(image)
        invariant Valid() && InPlace(g, Now(), ram, vmm.pmm.FreeCount(), vmm.kernelPml4, pml4, image, i)
      {
        LoadSegment(pml4, image, SegmentAt(image, i), g, i);
      }
      LoadedIsFile(vmm.mem, ram, pml4, image, g.segs);
      entry := Entry64(image);
    }
  }
}
