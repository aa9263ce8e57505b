/** The kernel heap object: in-band headers linked both ways, changed in place by kmalloc
    and kfree (kernel/mm/heap.c). Memory is a map from header addresses to headers; stale
    headers stay behind, as they do in the heap. */
module Heap {
  import opened HeapBlocks

  /** `next` and `prev` are header addresses; 0 is NULL. */
  datatype Header = Header(size: nat, free: bool, next: nat, prev: nat)

  type Headers = map<nat, Header>

  /** The header of block `i`: its fields, and links to its neighbours. */
  function HeaderOf(bs: seq<Block>, i: nat): Header
    requires i < |bs|
  {
    Header(bs[i].size, bs[i].free,
           if i + 1 < |bs| then bs[i + 1].addr else 0,
           if i > 0 then bs[i - 1].addr else 0)
  }

  /** Block `i` has its header in memory. */
  predicate Placed(hdr: Headers, bs: seq<Block>, i: nat)
    requires i < |bs|
  {
    bs[i].addr in hdr && hdr[bs[i].addr] == HeaderOf(bs, i)
  }

  ghost predicate Linked(hdr: Headers, bs: seq<Block>) {
    forall i {:trigger Placed(hdr, bs, i)} :: 0 <= i < |bs| ==> Placed(hdr, bs, i)
  }

  /** Only headers of blocks listed before or after were written. */
  ghost predicate WritesHeaders(h0: Headers, h1: Headers, bs: seq<Block>, cs: seq<Block>) {
    forall a | a in h1 && (a !in h0 || h1[a] != h0[a]) :: Listed(bs, a) || Listed(cs, a)
  }

  ghost predicate WritesListed(h0: Headers, h1: Headers, bs: seq<Block>) {
    forall a | a in h1 && (a !in h0 || h1[a] != h0[a]) :: Listed(bs, a)
  }

  lemma WritesCompose(h0: Headers, h1: Headers, h2: Headers, bs: seq<Block>, cs: seq<Block>)
    requires WritesListed(h0, h1, bs) && WritesListed(h1, h2, cs) && forall a | Listed(cs, a) :: Listed(bs, a)
    ensures WritesListed(h0, h2, bs)
  {
    forall a | a in h2 && (a !in h0 || h2[a] != h0[a])
      ensures Listed(bs, a)
    {
      if a in h1 && (a !in h0 || h1[a] != h0[a]) {
        assert Listed(bs, a);
      }
    }
  }

  /** `a` is the address of a block's header. */
  ghost predicate Listed(bs: seq<Block>, a: nat) {
    exists i :: 0 <= i < |bs| && bs[i].addr == a
  }

  /** A header written by the allocator never lies in a payload that stays live. */
  lemma PayloadsUntouched(bs: seq<Block>, cs: seq<Block>, a: nat, x: Block)
    requires Wf(bs) && Wf(cs) && x in Live(bs) && x in Live(cs)
    requires Listed(bs, a) || Listed(cs, a)
    ensures a + HEADER_SIZE <= x.addr + HEADER_SIZE || End(x) <= a
  {
    if i :| 0 <= i < |bs| && bs[i].addr == a {
      if bs[i] != x { BlocksDisjoint(bs, bs[i], x); }
    } else {
      var i :| 0 <= i < |cs| && cs[i].addr == a;
      if cs[i] != x { BlocksDisjoint(cs, cs[i], x); }
    }
  }

  // ---- what each write does to the links ----

  /** The three header writes of a split. */
  function SplitHeaders(hdr: Headers, cur: nat, n: nat): Headers
    requires cur in hdr && hdr[cur].size >= n + HEADER_SIZE
  {
    var c := hdr[cur];
    var split := cur + HEADER_SIZE + n;
    var h1 := hdr[split := Header(c.size - n - HEADER_SIZE, true, c.next, cur)];
    var h2 := if c.next != 0 && c.next in h1 then h1[c.next := h1[c.next].(prev := split)] else h1;
    h2[cur := h2[cur].(next := split, size := n)]
  }

  lemma SplitLinks(hdr: Headers, bs: seq<Block>, i: nat, n: nat)
    requires Wf(bs) && Linked(hdr, bs) && i < |bs| && Fits(bs[i], n) && Splits(bs[i], n)
    ensures bs[i].addr in hdr && hdr[bs[i].addr].size == bs[i].size
    ensures var h := SplitHeaders(hdr, bs[i].addr, n);
            var g := h[bs[i].addr := h[bs[i].addr].(free := false)];
            Linked(g, MallocAt(bs, i, n)) && WritesHeaders(hdr, g, bs, MallocAt(bs, i, n))
  {
    var c := MallocAt(bs, i, n);
    assert Placed(hdr, bs, i);
    var h := SplitHeaders(hdr, bs[i].addr, n);
    var g := h[bs[i].addr := h[bs[i].addr].(free := false)];
    forall j | 0 <= j < |c|
      ensures Placed(g, c, j)
    {
      SplitPlaced(hdr, bs, i, n, j);
    }
    MallocIndex(bs, i, n, i);
    MallocIndex(bs, i, n, i + 1);
    assert Listed(bs, bs[i].addr) && Listed(c, c[i + 1].addr);
    if i + 1 < |bs| { assert Listed(bs, bs[i + 1].addr); }
  }

  /** Away from the split, headers are as before. */
  lemma SplitFar(hdr: Headers, bs: seq<Block>, i: nat, n: nat, j: nat)
    requires Wf(bs) && Linked(hdr, bs) && i < |bs| && Fits(bs[i], n) && Splits(bs[i], n) && j < |MallocAt(bs, i, n)|
    requires bs[i].addr in hdr && hdr[bs[i].addr].size == bs[i].size && (j < i || j > i + 2)
    ensures var h := SplitHeaders(hdr, bs[i].addr, n);
            Placed(h[bs[i].addr := h[bs[i].addr].(free := false)], MallocAt(bs, i, n), j)
  {
    var o := if j < i then j else j - 1;
    assert Placed(hdr, bs, i) && Placed(hdr, bs, o);
    MallocIndex(bs, i, n, j);
    if j > 0 { MallocIndex(bs, i, n, j - 1); }
    if j + 1 < |MallocAt(bs, i, n)| { MallocIndex(bs, i, n, j + 1); }
    SplitMisses(bs, i, n, o);
  }

  lemma SplitPlaced(hdr: Headers, bs: seq<Block>, i: nat, n: nat, j: nat)
    requires Wf(bs) && Linked(hdr, bs) && i < |bs| && Fits(bs[i], n) && Splits(bs[i], n) && j < |MallocAt(bs, i, n)|
    requires bs[i].addr in hdr && hdr[bs[i].addr].size == bs[i].size
    ensures var h := SplitHeaders(hdr, bs[i].addr, n);
            Placed(h[bs[i].addr := h[bs[i].addr].(free := false)], MallocAt(bs, i, n), j)
  {
    if j < i || j > i + 2 {
      SplitFar(hdr, bs, i, n, j);
    } else {
      assert Placed(hdr, bs, i) && Tiled(bs, i);
      if i + 1 < |bs| { assert Placed(hdr, bs, i + 1); }
      MallocIndex(bs, i, n, j);
      if j > 0 { MallocIndex(bs, i, n, j - 1); }
      if j + 1 < |MallocAt(bs, i, n)| { MallocIndex(bs, i, n, j + 1); }
    }
  }

  /** A split writes to no header but those of the block, the new block and the next one. */
  lemma SplitMisses(bs: seq<Block>, i: nat, n: nat, j: nat)
    requires Tiling(bs) && i < |bs| && Splits(bs[i], n) && j < |bs| && (j < i || j > i + 1)
    ensures bs[j].addr != bs[i].addr && bs[j].addr != bs[i].addr + HEADER_SIZE + n
    ensures i + 1 < |bs| ==> bs[j].addr != bs[i + 1].addr
  {
    assert Tiled(bs, i);
    if j < i {
      Ordered(bs, j, i);
      if i + 1 < |bs| { Ordered(bs, j, i + 1); }
    } else {
      Ordered(bs, i, j);
      Ordered(bs, i + 1, j);
    }
  }

  lemma FlagLinks(hdr: Headers, bs: seq<Block>, i: nat, free: bool)
    requires Tiling(bs) && Linked(hdr, bs) && i < |bs|
    ensures bs[i].addr in hdr
    ensures var h, c := hdr[bs[i].addr := hdr[bs[i].addr].(free := free)], bs[i := bs[i].(free := free)];
            Linked(h, c) && WritesListed(hdr, h, bs) && (forall a | Listed(c, a) :: Listed(bs, a))
  {
    assert Placed(hdr, bs, i);
    var h, c := hdr[bs[i].addr := hdr[bs[i].addr].(free := free)], bs[i := bs[i].(free := free)];
    forall a | Listed(c, a)
      ensures Listed(bs, a)
    {
      var j :| 0 <= j < |c| && c[j].addr == a;
      assert bs[j].addr == a;
    }
    assert Listed(bs, bs[i].addr);
    forall j | 0 <= j < |bs|
      ensures Placed(h, c, j)
    {
      assert Placed(hdr, bs, j);
      if j != i && bs[j].addr == bs[i].addr {
        SameAddress(bs, i, j);
      }
    }
  }

  /** The writes that make the block at `cur` swallow its successor. */
  function MergeHeaders(hdr: Headers, cur: nat): Headers
    requires cur in hdr && hdr[cur].next in hdr
  {
    var gone := hdr[hdr[cur].next];
    var h := hdr[cur := hdr[cur].(size := hdr[cur].size + HEADER_SIZE + gone.size, next := gone.next)];
    if gone.next != 0 && gone.next in h then h[gone.next := h[gone.next].(prev := cur)] else h
  }

  lemma MergeLinks(hdr: Headers, bs: seq<Block>, i: nat)
    requires Tiling(bs) && Linked(hdr, bs) && i + 1 < |bs|
    ensures bs[i].addr in hdr && hdr[bs[i].addr].next == bs[i + 1].addr && bs[i + 1].addr in hdr
    ensures Linked(MergeHeaders(hdr, bs[i].addr), Merge(bs, i))
    ensures WritesListed(hdr, MergeHeaders(hdr, bs[i].addr), bs)
    ensures forall a | Listed(Merge(bs, i), a) :: Listed(bs, a)
  {
    forall a | Listed(Merge(bs, i), a)
      ensures Listed(bs, a)
    {
      var j :| 0 <= j < |Merge(bs, i)| && Merge(bs, i)[j].addr == a;
      assert bs[if j <= i then j else j + 1].addr == a;
    }
    assert Placed(hdr, bs, i) && Placed(hdr, bs, i + 1);
    assert Listed(bs, bs[i].addr);
    if i + 2 < |bs| { assert Listed(bs, bs[i + 2].addr); }
    forall j | 0 <= j < |Merge(bs, i)|
      ensures Placed(MergeHeaders(hdr, bs[i].addr), Merge(bs, i), j)
    {
      MergePlaced(hdr, bs, i, j);
    }
  }

  lemma MergePlaced(hdr: Headers, bs: seq<Block>, i: nat, j: nat)
    requires Tiling(bs) && Linked(hdr, bs) && i + 1 < |bs| && j < |Merge(bs, i)|
    requires bs[i].addr in hdr && hdr[bs[i].addr].next == bs[i + 1].addr && bs[i + 1].addr in hdr
    ensures Placed(MergeHeaders(hdr, bs[i].addr), Merge(bs, i), j)
  {
    assert Placed(hdr, bs, i) && Placed(hdr, bs, i + 1);
    Ordered(bs, i, i + 1);
    if i + 2 < |bs| {
      assert Placed(hdr, bs, i + 2);
      Ordered(bs, i, i + 2);
    }
    var o := if j <= i then j else j + 1;
    assert Placed(hdr, bs, o);
    if o < i {
      Ordered(bs, o, i);
      if i + 2 < |bs| { Ordered(bs, o, i + 2); }
    } else if o > i + 2 {
      Ordered(bs, i, o);
      Ordered(bs, i + 2, o);
    }
  }

  // ---- the heap ----

  /** The statistics heap_get_stats reports. */
  datatype Stats = Stats(capacity: nat, used: nat, free: nat, blocks: nat, largestFree: nat)

  class KernelHeap {
    var hdr: Headers
    var head: nat
    /** The blocks in list order. */
    ghost var bs: seq<Block>

    ghost predicate Valid()
      reads this
    {
      Wf(bs) && Linked(hdr, bs) && head == HEAP_START
    }

    /** `heap_init`: one free block spans the heap. */
    constructor ()
      ensures Valid() && bs == Initial()
    {
      head := HEAP_START;
      hdr := map[HEAP_START := Header(CAPACITY - HEADER_SIZE, true, 0, 0)];
      bs := Initial();
      new;
      InitialWf();
      assert Placed(hdr, bs, 0);
    }

    /** `kmalloc`: the payload address of the first block that fits, or 0 exactly when no
        hole has room for the aligned size (and for a size of 0). */
    method Kmalloc(size: nat) returns (ptr: nat)
      requires Valid() && size < SIZE_LIMIT
      modifies this
      ensures Valid()
      ensures bs == MallocSpec(old(bs), size)
      ensures ptr == 0 <==> size == 0 || FirstFit(old(bs), Align8(size), 0) == |old(bs)|
      ensures ptr == 0 ==> bs == old(bs) && hdr == old(hdr)
      ensures ptr == 0 <==> size == 0 || forall from :: !Hole(old(bs), from, Align8(size))
      ensures ptr != 0 ==>
                var i := FirstFit(old(bs), Align8(size), 0);
                var b := Given(old(bs), i, Align8(size));
                && ptr == b.addr + HEADER_SIZE && b !in Live(old(bs)) && Live(bs) == Live(old(bs)) + {b}
                && (size <= SIZE_LIMIT - 8 ==> b.size >= size)
                && b.addr == old(bs)[i].addr && Align8(size) <= b.size < Align8(size) + HEADER_SIZE + 8
                && CutOff(old(bs)[i], b, bs)
      ensures WritesHeaders(old(hdr), hdr, old(bs), bs)
    {
      if size == 0 { return 0; }
      var n := Align8(size);
      Align8Exact(size);
      FitIffHole(bs, n);
      var cur := head;
      ghost var i := 0;
      while cur != 0
        invariant unchanged(this)
        invariant i <= |bs| && cur == (if i < |bs| then bs[i].addr else 0)
        invariant FirstFit(bs, n, 0) == FirstFit(bs, n, i)
        decreases |bs| - i
      {
        assert Placed(hdr, bs, i);
        if hdr[cur].free && hdr[cur].size >= n {
          GivenIsTight(bs, i, n);
          ptr := Take(cur, i, n);
          return;
        }
        if i + 1 < |bs| { WithinHeap(bs, i + 1); }
        cur := hdr[cur].next;
        i := i + 1;
      }
      if i < |bs| { WithinHeap(bs, i); }
      return 0;
    }

    /** The branch of kmalloc that gives block `cur` out. */
    method Take(cur: nat, ghost i: nat, n: nat) returns (ptr: nat)
      requires Valid() && i < |bs| && cur == bs[i].addr && Fits(bs[i], n) && n % 8 == 0
      modifies this
      ensures Valid() && ptr == cur + HEADER_SIZE && bs == MallocAt(old(bs), i, n)
      ensures Given(old(bs), i, n) !in Live(old(bs)) && Live(bs) == Live(old(bs)) + {Given(old(bs), i, n)}
      ensures WritesHeaders(old(hdr), hdr, old(bs), bs)
    {
      MallocWf(bs, i, n);
      MallocLive(bs, i, n);
      assert Placed(hdr, bs, i);
      if hdr[cur].size >= n + HEADER_SIZE + 8 {
        SplitLinks(hdr, bs, i, n);
        Split(cur, i, n);
      } else {
        FlagLinks(hdr, bs, i, false);
      }
      bs := MallocAt(bs, i, n);
      hdr := hdr[cur := hdr[cur].(free := false)];
      ptr := cur + HEADER_SIZE;
    }

    /** The writes that cut a free block off the end of `cur`. */
    method Split(cur: nat, ghost i: nat, n: nat)
      requires Valid() && i < |bs| && cur == bs[i].addr && Splits(bs[i], n)
      requires cur in hdr && hdr[cur].size == bs[i].size
      modifies this`hdr
      ensures hdr == SplitHeaders(old(hdr), cur, n)
    {
      assert Placed(hdr, bs, i);
      if i + 1 < |bs| {
        assert Placed(hdr, bs, i + 1);
      }
      var split := cur + HEADER_SIZE + n;
      var next := hdr[cur].next;
      hdr := hdr[split := Header(hdr[cur].size - n - HEADER_SIZE, true, next, cur)];
      if next != 0 { hdr := hdr[next := hdr[next].(prev := split)]; }
      hdr := hdr[cur := hdr[cur].(next := split, size := n)];
    }

    /** `kfree` of 0 does nothing; of a live payload, it frees its block and coalesces. */
    method Kfree(ptr: nat, ghost i: nat)
      requires Valid()
      requires ptr != 0 ==> i < |bs| && !bs[i].free && ptr == bs[i].addr + HEADER_SIZE
      modifies this
      ensures Valid()
      ensures ptr == 0 ==> bs == old(bs) && hdr == old(hdr)
      ensures ptr != 0 ==> bs == FreeAt(old(bs), i) && Live(bs) == Live(old(bs)) - {old(bs)[i]}
      ensures WritesListed(old(hdr), hdr, old(bs))
    {
      if ptr == 0 { return; }
      var block := ptr - HEADER_SIZE;
      FreeWf(bs, i);
      ghost var b0, h0 := bs, hdr;
      MarkFree(block, i);
      ghost var b1, h1 := bs, hdr;
      JoinNext(block, i);
      ghost var b2, h2 := bs, hdr;
      JoinPrev(block, i);
      WritesCompose(h0, h1, h2, b0, b1);
      WritesCompose(h0, h2, hdr, b0, b2);
    }

    /** The block at `block` is free from now on. */
    method MarkFree(block: nat, ghost i: nat)
      requires Tiling(bs) && Linked(hdr, bs) && i < |bs| && block == bs[i].addr
      modifies this`hdr, this`bs
      ensures bs == old(bs)[i := old(bs)[i].(free := true)] && Tiling(bs) && Linked(hdr, bs)
      ensures WritesListed(old(hdr), hdr, old(bs)) && (forall a | Listed(bs, a) :: Listed(old(bs), a))
    {
      FlagLinks(hdr, bs, i, true);
      FlagTiling(bs, i);
      hdr := hdr[block := hdr[block].(free := true)];
      bs := bs[i := bs[i].(free := true)];
    }

    /** Coalescing with the block after. */
    method JoinNext(block: nat, ghost i: nat)
      requires Tiling(bs) && Linked(hdr, bs) && i < |bs| && block == bs[i].addr
      modifies this`hdr, this`bs
      ensures bs == MergeNext(old(bs), i) && Tiling(bs) && Linked(hdr, bs) && i < |bs| && block == bs[i].addr
      ensures WritesListed(old(hdr), hdr, old(bs)) && (forall a | Listed(bs, a) :: Listed(old(bs), a))
    {
      assert Placed(hdr, bs, i);
      if i + 1 < |bs| { assert Placed(hdr, bs, i + 1); WithinHeap(bs, i + 1); }
      if hdr[block].next != 0 && hdr[hdr[block].next].free {
        MergeTiling(bs, i);
        Swallow(block, i);
      }
    }

    /** Coalescing with the block before. */
    method JoinPrev(block: nat, ghost i: nat)
      requires Tiling(bs) && Linked(hdr, bs) && i < |bs| && block == bs[i].addr
      modifies this`hdr, this`bs
      ensures bs == MergePrev(old(bs), i) && Linked(hdr, bs)
      ensures WritesListed(old(hdr), hdr, old(bs))
    {
      assert Placed(hdr, bs, i);
      if i > 0 { assert Placed(hdr, bs, i - 1); WithinHeap(bs, i - 1); }
      if hdr[block].prev != 0 && hdr[hdr[block].prev].free {
        Swallow(hdr[block].prev, i - 1);
      }
    }

    /** The block at `cur` takes over its successor: one side of the coalescing. */
    method Swallow(cur: nat, ghost i: nat)
      requires Tiling(bs) && Linked(hdr, bs) && i + 1 < |bs| && cur == bs[i].addr
      modifies this`hdr, this`bs
      ensures bs == Merge(old(bs), i) && Linked(hdr, bs)
      ensures WritesListed(old(hdr), hdr, old(bs)) && (forall a | Listed(bs, a) :: Listed(old(bs), a))
    {
      MergeLinks(hdr, bs, i);
      assert Placed(hdr, bs, i) && Placed(hdr, bs, i + 1);
      if i + 2 < |bs| { assert Placed(hdr, bs, i + 2); WithinHeap(bs, i + 2); }
      Ordered(bs, i, i + 1);
      bs := Merge(bs, i);
      var gone := hdr[hdr[cur].next];
      hdr := hdr[cur := hdr[cur].(size := hdr[cur].size + HEADER_SIZE + gone.size, next := gone.next)];
      if hdr[cur].next != 0 {
        hdr := hdr[gone.next := hdr[gone.next].(prev := cur)];
      }
    }

    /** `heap_get_stats`: the totals of the list, which account for the whole heap. */
    method GetStats() returns (s: Stats)
      requires Valid()
      ensures s.capacity == CAPACITY && s.blocks == |bs|
      ensures s.used == UsedBytes(bs, |bs|) && s.free == FreeBytes(bs, |bs|)
      ensures s.used + s.free + HEADER_SIZE * s.blocks == s.capacity
      ensures forall i | 0 <= i < |bs| && bs[i].free :: bs[i].size <= s.largestFree
      ensures s.largestFree == 0 || exists i | 0 <= i < |bs| :: bs[i].free && bs[i].size == s.largestFree
    {
      s := Stats(CAPACITY, 0, 0, 0, 0);
      var cur := head;
      ghost var i := 0;
      while cur != 0
        invariant i <= |bs| && cur == (if i < |bs| then bs[i].addr else 0)
        invariant s.capacity == CAPACITY && s.blocks == i && s.used == UsedBytes(bs, i) && s.free == FreeBytes(bs, i)
        invariant forall j | 0 <= j < i && bs[j].free :: bs[j].size <= s.largestFree
        invariant s.largestFree == 0 || exists j | 0 <= j < i :: bs[j].free && bs[j].size == s.largestFree
        decreases |bs| - i
      {
        assert Placed(hdr, bs, i);
        if i + 1 < |bs| { WithinHeap(bs, i + 1); }
        var b := hdr[cur];
        if b.free {
          s := s.(blocks := s.blocks + 1, free := s.free + b.size,
                  largestFree := if b.size > s.largestFree then b.size else s.largestFree);
        } else {
          s := s.(blocks := s.blocks + 1, used := s.used + b.size);
        }
        cur := b.next;
        i := i + 1;
      }
      if i < |bs| { WithinHeap(bs, i); }
      Conservation(bs);
    }
  }
}
