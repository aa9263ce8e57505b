/** The kernel heap (kernel/mm/heap.c) as a list of blocks: first fit with splitting,
    freeing with coalescing on both sides, and what every run of the two keeps. */
module HeapBlocks {

  const HEAP_START: nat := 0xFFFF_C000_0000_0000
  const CAPACITY: nat := 0x10_0000
  const HEADER_SIZE: nat := 32
  const SIZE_LIMIT: nat := 0x1_0000_0000_0000_0000

  /** A block by the address of its header; `size` counts the payload only. */
  datatype Block = Block(addr: nat, size: nat, free: bool)

  function End(b: Block): nat { b.addr + HEADER_SIZE + b.size }

  /** Block `i` ends where the next one starts, or where the heap ends. */
  predicate Tiled(bs: seq<Block>, i: nat)
    requires i < |bs|
  {
    End(bs[i]) == if i + 1 < |bs| then bs[i + 1].addr else HEAP_START + CAPACITY
  }

  predicate NotBothFree(bs: seq<Block>, i: nat)
    requires i < |bs|
  {
    i + 1 < |bs| && bs[i].free ==> !bs[i + 1].free
  }

  /** Blocks tile the heap from end to end. */
  ghost predicate Tiling(bs: seq<Block>) {
    && |bs| > 0 && bs[0].addr == HEAP_START
    && (forall i {:trigger Tiled(bs, i)} :: 0 <= i < |bs| ==> Tiled(bs, i))
  }

  /** Blocks tile the heap, sizes are multiples of 8, and no two neighbours are free. */
  ghost predicate Wf(bs: seq<Block>) {
    && Tiling(bs)
    && (forall i {:trigger NotBothFree(bs, i)} :: 0 <= i < |bs| ==> NotBothFree(bs, i))
    && (forall i :: 0 <= i < |bs| ==> bs[i].size % 8 == 0)
  }

  function Initial(): seq<Block> { [Block(HEAP_START, CAPACITY - HEADER_SIZE, true)] }

  // ---- order of addresses ----

  lemma {:induction false} Ordered(bs: seq<Block>, i: nat, j: nat)
    requires Tiling(bs) && i < j < |bs|
    ensures End(bs[i]) <= bs[j].addr
    decreases j
  {
    assert Tiled(bs, j - 1);
    if i < j - 1 {
      Ordered(bs, i, j - 1);
    }
  }

  lemma SameAddress(bs: seq<Block>, i: nat, j: nat)
    requires Tiling(bs) && i < |bs| && j < |bs| && bs[i].addr == bs[j].addr
    ensures i == j
  {
    if i < j {
      Ordered(bs, i, j);
    } else if j < i {
      Ordered(bs, j, i);
    }
  }

  lemma WithinHeap(bs: seq<Block>, i: nat)
    requires Tiling(bs) && i < |bs|
    ensures HEAP_START <= bs[i].addr && End(bs[i]) <= HEAP_START + CAPACITY
  {
    if i > 0 {
      Ordered(bs, 0, i);
    }
    assert Tiled(bs, |bs| - 1);
    if i < |bs| - 1 {
      Ordered(bs, i, |bs| - 1);
    }
  }

  /** Different blocks occupy disjoint bytes, so live payloads never overlap each other and
      no header lies in a live payload. */
  lemma BlocksDisjoint(bs: seq<Block>, x: Block, y: Block)
    requires Tiling(bs) && x in bs && y in bs && x != y
    ensures End(x) <= y.addr || End(y) <= x.addr
  {
    var i :| 0 <= i < |bs| && bs[i] == x;
    var j :| 0 <= j < |bs| && bs[j] == y;
    if i < j {
      Ordered(bs, i, j);
    } else {
      Ordered(bs, j, i);
    }
  }

  // ---- live blocks determine the list ----

  ghost function Live(bs: seq<Block>): set<Block> {
    set b | b in bs && !b.free
  }

  /** A well-formed heap is the only one with its live blocks: free space has one shape. */
  lemma Canonical(a: seq<Block>, b: seq<Block>)
    requires Wf(a) && Wf(b) && Live(a) == Live(b)
    ensures a == b
  {
    AgreeUpTo(a, b, |a|);
    AgreeUpTo(b, a, |b|);
    assert a == a[..|a|] && b == b[..|b|];
  }

  lemma {:induction false} AgreeUpTo(a: seq<Block>, b: seq<Block>, n: nat)
    requires Wf(a) && Wf(b) && Live(a) == Live(b) && n <= |a|
    ensures n <= |b| && a[..n] == b[..n]
  {
    if n > 0 {
      AgreeUpTo(a, b, n - 1);
      NextAgrees(a, b, n - 1);
      assert a[..n] == a[..n - 1] + [a[n - 1]] && b[..n] == b[..n - 1] + [b[n - 1]];
    }
  }

  lemma NextAgrees(a: seq<Block>, b: seq<Block>, i: nat)
    requires Wf(a) && Wf(b) && Live(a) == Live(b) && i < |a| && i <= |b| && a[..i] == b[..i]
    ensures i < |b| && a[i] == b[i]
  {
    SameStart(a, b, i);
    if !a[i].free {
      UsedAgrees(a, b, i);
    } else if !b[i].free {
      UsedAgrees(b, a, i);
    } else {
      FreeSizeNotLess(a, b, i);
      FreeSizeNotLess(b, a, i);
    }
  }

  lemma SameStart(a: seq<Block>, b: seq<Block>, i: nat)
    requires Wf(a) && Wf(b) && i < |a| && i <= |b| && a[..i] == b[..i]
    ensures i < |b| && a[i].addr == b[i].addr
  {
    if i > 0 {
      assert a[i - 1] == a[..i][i - 1] == b[..i][i - 1] == b[i - 1];
      assert Tiled(a, i - 1) && Tiled(b, i - 1);
      WithinHeap(a, i);
    }
  }

  lemma UsedAgrees(a: seq<Block>, b: seq<Block>, i: nat)
    requires Wf(b) && Live(a) == Live(b) && i < |a| && i < |b| && a[i].addr == b[i].addr && !a[i].free
    ensures a[i] == b[i]
  {
    assert a[i] in Live(b);
    var j :| 0 <= j < |b| && b[j] == a[i];
    SameAddress(b, i, j);
  }

  lemma FreeSizeNotLess(a: seq<Block>, b: seq<Block>, i: nat)
    requires Wf(a) && Wf(b) && Live(a) == Live(b) && i < |a| && i < |b|
    requires a[i].addr == b[i].addr && a[i].free && b[i].free
    ensures a[i].size >= b[i].size
  {
    WithinHeap(b, i);
    assert Tiled(a, i) && NotBothFree(a, i);
    if i + 1 < |a| {
      assert a[i + 1] in Live(b);
      var j :| 0 <= j < |b| && b[j] == a[i + 1];
      if j < i {
        Ordered(b, j, i);
      } else if j > i {
        Ordered(b, i, j);
      }
    }
  }

  // ---- kmalloc ----

  /** ALIGN8 on a 64-bit size: rounds up to a multiple of 8, and wraps. */
  function Align8(size: nat): nat {
    (size + 7) % SIZE_LIMIT / 8 * 8
  }

  /** ALIGN8 rounds up exactly when size <= 2^64 - 8; above that it gives 0. */
  lemma Align8Exact(size: nat)
    requires size < SIZE_LIMIT
    ensures Align8(size) % 8 == 0
    ensures size <= SIZE_LIMIT - 8 ==> size <= Align8(size) < size + 8
    ensures size > SIZE_LIMIT - 8 ==> Align8(size) == 0
  {}

  predicate Fits(b: Block, n: nat) { b.free && b.size >= n }

  /** The first block from `i` on that fits `n` bytes, or |bs|. */
  function FirstFit(bs: seq<Block>, n: nat, i: nat): (j: nat)
    requires i <= |bs|
    ensures i <= j <= |bs| && (j < |bs| ==> Fits(bs[j], n))
    ensures forall k :: i <= k < j ==> !Fits(bs[k], n)
    decreases |bs| - i
  {
    if i == |bs| || Fits(bs[i], n) then i else FirstFit(bs, n, i + 1)
  }

  predicate Splits(b: Block, n: nat) { b.size >= n + HEADER_SIZE + 8 }

  /** Give block `i` out for `n` bytes, splitting off the rest if it can hold a block. */
  function MallocAt(bs: seq<Block>, i: nat, n: nat): seq<Block>
    requires i < |bs| && bs[i].size >= n
  {
    var b := bs[i];
    if Splits(b, n) then
      bs[..i] + [Block(b.addr, n, false), Block(b.addr + HEADER_SIZE + n, b.size - n - HEADER_SIZE, true)] + bs[i + 1..]
    else
      bs[i := b.(free := false)]
  }

  /** The block given out. */
  function Given(bs: seq<Block>, i: nat, n: nat): Block
    requires i < |bs| && bs[i].size >= n
  {
    Block(bs[i].addr, if Splits(bs[i], n) then n else bs[i].size, false)
  }

  /** What of block `whole` is not given out is a free block right behind, with at least 8
      bytes of payload. */
  ghost predicate CutOff(whole: Block, given: Block, bs: seq<Block>) {
    End(given) == End(whole) ||
    exists r | r in bs :: r.free && r.addr == End(given) && End(r) == End(whole) && r.size >= 8
  }

  /** A block is split exactly when what is left has room for a header and 8 bytes, so no
      more than that is ever wasted. */
  lemma GivenIsTight(bs: seq<Block>, i: nat, n: nat)
    requires i < |bs| && Fits(bs[i], n)
    ensures n <= Given(bs, i, n).size < n + HEADER_SIZE + 8
    ensures Given(bs, i, n).size == n <==> bs[i].size >= n + HEADER_SIZE + 8 || bs[i].size == n
    ensures CutOff(bs[i], Given(bs, i, n), MallocAt(bs, i, n))
  {
    if Splits(bs[i], n) {
      var c := MallocAt(bs, i, n);
      MallocIndex(bs, i, n, i);
      MallocIndex(bs, i, n, i + 1);
      assert c[i + 1] in c;
    }
  }

  /** The new list block by block. */
  lemma MallocIndex(bs: seq<Block>, i: nat, n: nat, j: nat)
    requires i < |bs| && bs[i].size >= n && j < |MallocAt(bs, i, n)|
    ensures var c, shift := MallocAt(bs, i, n), if Splits(bs[i], n) then 1 else 0;
            && |c| == |bs| + shift
            && (j < i ==> c[j] == bs[j])
            && (j == i ==> c[j] == Given(bs, i, n))
            && (shift == 1 && j == i + 1 ==> c[j].free && c[j].addr == End(c[i]) && End(c[j]) == End(bs[i]))
            && (j > i + shift ==> c[j] == bs[j - shift])
  {}

  lemma MallocTiles(bs: seq<Block>, i: nat, n: nat, j: nat)
    requires Wf(bs) && i < |bs| && Fits(bs[i], n) && n % 8 == 0 && j < |MallocAt(bs, i, n)|
    ensures var c := MallocAt(bs, i, n); Tiled(c, j) && NotBothFree(c, j) && c[j].size % 8 == 0
  {
    var c, shift := MallocAt(bs, i, n), if Splits(bs[i], n) then 1 else 0;
    MallocIndex(bs, i, n, j);
    if j + 1 < |c| {
      MallocIndex(bs, i, n, j + 1);
    }
    var o := if j <= i then j else if shift == 1 && j == i + 1 then i else j - shift;
    assert Tiled(bs, o) && NotBothFree(bs, o);
  }

  lemma MallocWf(bs: seq<Block>, i: nat, n: nat)
    requires Wf(bs) && i < |bs| && Fits(bs[i], n) && n % 8 == 0
    ensures Wf(MallocAt(bs, i, n))
  {
    var c := MallocAt(bs, i, n);
    forall j | 0 <= j < |c|
      ensures Tiled(c, j) && NotBothFree(c, j) && c[j].size % 8 == 0
    {
      MallocTiles(bs, i, n, j);
    }
    MallocIndex(bs, i, n, 0);
  }

  lemma MallocLive(bs: seq<Block>, i: nat, n: nat)
    requires Wf(bs) && i < |bs| && Fits(bs[i], n)
    ensures Live(MallocAt(bs, i, n)) == Live(bs) + {Given(bs, i, n)} && Given(bs, i, n) !in Live(bs)
  {
    var c, shift := MallocAt(bs, i, n), if Splits(bs[i], n) then 1 else 0;
    forall b
      ensures b in Live(c) <==> b in Live(bs) || b == Given(bs, i, n)
    {
      if b in Live(c) {
        var j :| 0 <= j < |c| && c[j] == b;
        MallocIndex(bs, i, n, j);
      }
      if b in Live(bs) {
        var j :| 0 <= j < |bs| && bs[j] == b;
        MallocIndex(bs, i, n, if j < i then j else j + shift);
      }
      MallocIndex(bs, i, n, i);
    }
    if Given(bs, i, n) in bs {
      var j :| 0 <= j < |bs| && bs[j] == Given(bs, i, n);
      SameAddress(bs, i, j);
    }
  }

  // ---- kfree ----

  /** Block `i` swallows block `i + 1` and its header. */
  function Merge(bs: seq<Block>, i: nat): seq<Block>
    requires i + 1 < |bs|
  {
    bs[..i] + [bs[i].(size := bs[i].size + HEADER_SIZE + bs[i + 1].size)] + bs[i + 2..]
  }

  function MergeNext(bs: seq<Block>, i: nat): seq<Block>
    requires i < |bs|
  {
    if i + 1 < |bs| && bs[i + 1].free then Merge(bs, i) else bs
  }

  function MergePrev(bs: seq<Block>, i: nat): seq<Block>
    requires i < |bs|
  {
    if i > 0 && bs[i - 1].free then Merge(bs, i - 1) else bs
  }

  /** Free block `i`, then coalesce with the next block, then with the previous one. */
  function FreeAt(bs: seq<Block>, i: nat): seq<Block>
    requires i < |bs|
  {
    MergePrev(MergeNext(bs[i := bs[i].(free := true)], i), i)
  }

  /** Well-formed except that block `i` may be free beside a free neighbour. */
  ghost predicate WfBut(bs: seq<Block>, i: nat) {
    && Tiling(bs)
    && (forall j {:trigger NotBothFree(bs, j)} :: 0 <= j < |bs| && j != i && j + 1 != i ==> NotBothFree(bs, j))
    && (forall j :: 0 <= j < |bs| ==> bs[j].size % 8 == 0)
  }

  lemma MergeNextWf(bs: seq<Block>, i: nat)
    requires WfBut(bs, i) && i < |bs| && bs[i].free
    requires i + 2 < |bs| && bs[i + 1].free ==> !bs[i + 2].free
    ensures var c := MergeNext(bs, i);
            && WfBut(c, i) && i < |c| && c[i].free && NotBothFree(c, i)
            && (i > 0 ==> c[i - 1] == bs[i - 1])
            && Live(c) == Live(bs)
  {
    if i + 1 < |bs| && bs[i + 1].free {
      var c := Merge(bs, i);
      forall j | 0 <= j < |c|
        ensures Tiled(c, j) && (j != i && j + 1 != i ==> NotBothFree(c, j))
      {
        assert Tiled(bs, if j <= i then j else j + 1);
        if j == i { assert Tiled(bs, i + 1); }
        assert j != i && j + 1 != i ==> NotBothFree(bs, if j <= i then j else j + 1);
      }
      MergeLive(bs, i);
    }
  }

  lemma MergeLive(bs: seq<Block>, i: nat)
    requires i + 1 < |bs| && bs[i].free && bs[i + 1].free
    ensures Live(Merge(bs, i)) == Live(bs)
  {
    var c := Merge(bs, i);
    forall b
      ensures b in Live(c) <==> b in Live(bs)
    {
      if b in Live(bs) {
        var j :| 0 <= j < |bs| && bs[j] == b;
        assert c[if j < i then j else j - 1] == b;
      }
    }
  }

  lemma MergeTiling(bs: seq<Block>, i: nat)
    requires Tiling(bs) && i + 1 < |bs|
    ensures Tiling(Merge(bs, i))
  {
    var c := Merge(bs, i);
    forall j | 0 <= j < |c|
      ensures Tiled(c, j)
    {
      assert Tiled(bs, if j <= i then j else j + 1);
      assert Tiled(bs, i + 1);
    }
  }

  lemma MergeSizes(bs: seq<Block>, i: nat)
    requires i + 1 < |bs| && forall j :: 0 <= j < |bs| ==> bs[j].size % 8 == 0
    ensures forall j :: 0 <= j < |Merge(bs, i)| ==> Merge(bs, i)[j].size % 8 == 0
  {
    SumOfEights(bs[i].size, bs[i + 1].size);
    forall j | 0 <= j < |Merge(bs, i)|
      ensures Merge(bs, i)[j].size % 8 == 0
    {
      assert j != i ==> Merge(bs, i)[j] == bs[if j < i then j else j + 1];
    }
  }

  lemma SumOfEights(a: nat, b: nat)
    requires a % 8 == 0 && b % 8 == 0
    ensures (a + HEADER_SIZE + b) % 8 == 0
  {}

  /** After a free block has swallowed block `i`, no two neighbours are free. */
  lemma MergedApart(bs: seq<Block>, i: nat, j: nat)
    requires WfBut(bs, i) && 0 < i < |bs| && bs[i].free && NotBothFree(bs, i)
    requires bs[i - 1].free && (i >= 2 ==> !bs[i - 2].free) && j < |bs| - 1
    ensures NotBothFree(Merge(bs, i - 1), j)
  {
    var o := if j < i then j else j + 1;
    if j != i - 1 && j + 1 != i - 1 {
      assert NotBothFree(bs, o);
    }
  }

  lemma MergePrevWf(bs: seq<Block>, i: nat)
    requires WfBut(bs, i) && i < |bs| && bs[i].free && NotBothFree(bs, i)
    requires i >= 2 && bs[i - 1].free ==> !bs[i - 2].free
    ensures Wf(MergePrev(bs, i)) && Live(MergePrev(bs, i)) == Live(bs)
  {
    var c := MergePrev(bs, i);
    if i > 0 && bs[i - 1].free {
      MergeTiling(bs, i - 1);
      MergeSizes(bs, i - 1);
      forall j | 0 <= j < |c|
        ensures NotBothFree(c, j)
      {
        MergedApart(bs, i, j);
      }
      MergeLive(bs, i - 1);
    } else if i > 0 {
      assert NotBothFree(bs, i - 1);
    }
  }

  lemma FlagTiling(bs: seq<Block>, i: nat)
    requires Tiling(bs) && i < |bs|
    ensures Tiling(bs[i := bs[i].(free := true)])
  {
    var c := bs[i := bs[i].(free := true)];
    forall j | 0 <= j < |c|
      ensures Tiled(c, j)
    {
      assert Tiled(bs, j);
    }
  }

  lemma FreeWf(bs: seq<Block>, i: nat)
    requires Wf(bs) && i < |bs| && !bs[i].free
    ensures Wf(FreeAt(bs, i)) && Live(FreeAt(bs, i)) == Live(bs) - {bs[i]}
  {
    var c := bs[i := bs[i].(free := true)];
    forall j | 0 <= j < |c|
      ensures Tiled(c, j) && (j != i && j + 1 != i ==> NotBothFree(c, j))
    {
      assert Tiled(bs, j) && NotBothFree(bs, j);
    }
    if i + 2 < |bs| { assert NotBothFree(bs, i + 1); }
    if i >= 2 { assert NotBothFree(bs, i - 2); }
    MergeNextWf(c, i);
    var d := MergeNext(c, i);
    assert i >= 2 ==> d[i - 2] == bs[i - 2];
    MergePrevWf(d, i);
    forall b
      ensures b in Live(c) <==> b in Live(bs) - {bs[i]}
    {
      if b in Live(bs) - {bs[i]} {
        var j :| 0 <= j < |bs| && bs[j] == b;
        assert c[j] == b;
      }
      if b in Live(c) && b == bs[i] {
        var j :| 0 <= j < |c| && c[j] == b;
        SameAddress(bs, i, j);
      }
    }
  }

  // ---- holes ----

  /** A header and `n` bytes fit at `from` without meeting any live block's header or payload. */
  ghost predicate Hole(bs: seq<Block>, from: nat, n: nat) {
    && HEAP_START <= from && from + HEADER_SIZE + n <= HEAP_START + CAPACITY
    && forall b | b in Live(bs) :: End(b) <= from || from + HEADER_SIZE + n <= b.addr
  }

  lemma {:induction false} BlockOf(bs: seq<Block>, x: nat, n: nat) returns (i: nat)
    requires Wf(bs) && 0 < n <= |bs| && HEAP_START <= x < End(bs[n - 1])
    ensures i < n && bs[i].addr <= x < End(bs[i])
  {
    if bs[n - 1].addr <= x {
      i := n - 1;
    } else {
      assert Tiled(bs, n - 2);
      i := BlockOf(bs, x, n - 1);
    }
  }

  /** kmalloc fails exactly when no hole has room for a header and the aligned size. */
  lemma FitIffHole(bs: seq<Block>, n: nat)
    requires Wf(bs)
    ensures FirstFit(bs, n, 0) < |bs| <==> exists from :: Hole(bs, from, n)
  {
    var i := FirstFit(bs, n, 0);
    if i < |bs| {
      WithinHeap(bs, i);
      forall b | b in Live(bs)
        ensures End(b) <= bs[i].addr || bs[i].addr + HEADER_SIZE + n <= b.addr
      {
        BlocksDisjoint(bs, bs[i], b);
      }
      assert Hole(bs, bs[i].addr, n);
    }
    forall from | Hole(bs, from, n)
      ensures i < |bs|
    {
      HoleInBlock(bs, from, n);
    }
  }

  /** Since no two neighbours are free, a hole lies inside a single free block. */
  lemma HoleInBlock(bs: seq<Block>, from: nat, n: nat)
    requires Wf(bs) && Hole(bs, from, n)
    ensures exists i | 0 <= i < |bs| :: Fits(bs[i], n)
  {
    assert Tiled(bs, |bs| - 1);
    var i := BlockOf(bs, from, |bs|);
    assert bs[i] in Live(bs) <==> !bs[i].free;
    assert Tiled(bs, i) && NotBothFree(bs, i);
    if i + 1 < |bs| {
      assert bs[i + 1] in Live(bs);
    }
    assert Fits(bs[i], n);
  }

  // ---- accounting ----

  function UsedBytes(bs: seq<Block>, n: nat): nat
    requires n <= |bs|
  {
    if n == 0 then 0 else UsedBytes(bs, n - 1) + if bs[n - 1].free then 0 else bs[n - 1].size
  }

  function FreeBytes(bs: seq<Block>, n: nat): nat
    requires n <= |bs|
  {
    if n == 0 then 0 else FreeBytes(bs, n - 1) + if bs[n - 1].free then bs[n - 1].size else 0
  }

  lemma {:induction false} BytesUpTo(bs: seq<Block>, n: nat)
    requires Wf(bs) && 0 < n <= |bs|
    ensures HEAP_START + UsedBytes(bs, n) + FreeBytes(bs, n) + HEADER_SIZE * n == End(bs[n - 1])
  {
    if n > 1 {
      BytesUpTo(bs, n - 1);
      assert Tiled(bs, n - 2);
    }
  }

  /** Used, free and header bytes always add up to the heap's capacity. */
  lemma Conservation(bs: seq<Block>)
    requires Wf(bs)
    ensures UsedBytes(bs, |bs|) + FreeBytes(bs, |bs|) + HEADER_SIZE * |bs| == CAPACITY
  {
    BytesUpTo(bs, |bs|);
    assert Tiled(bs, |bs| - 1);
  }

  // ---- whole runs ----

  datatype Call = Malloc(size: nat) | Free(block: Block)

  /** What kmalloc does for a size of at most 2^64 - 1. */
  function MallocSpec(bs: seq<Block>, size: nat): seq<Block> {
    var n := Align8(size);
    var i := FirstFit(bs, n, 0);
    if size == 0 || i == |bs| then bs else MallocAt(bs, i, n)
  }

  /** One call: an allocation that may fail, or a free of a live block. */
  ghost predicate Performs(bs: seq<Block>, call: Call, cs: seq<Block>) {
    match call
    case Malloc(size) => size < SIZE_LIMIT && cs == MallocSpec(bs, size)
    case Free(b) => exists i :: 0 <= i < |bs| && bs[i] == b && !b.free && cs == FreeAt(bs, i)
  }

  ghost predicate Run(states: seq<seq<Block>>, calls: seq<Call>) {
    && |states| == |calls| + 1
    && forall i :: 0 <= i < |calls| ==> Performs(states[i], calls[i], states[i + 1])
  }

  lemma MallocSpecWf(bs: seq<Block>, size: nat)
    requires Wf(bs) && size < SIZE_LIMIT
    ensures Wf(MallocSpec(bs, size))
    ensures Live(bs) <= Live(MallocSpec(bs, size))
  {
    Align8Exact(size);
    var n := Align8(size);
    var i := FirstFit(bs, n, 0);
    if size != 0 && i < |bs| {
      MallocWf(bs, i, n);
      MallocLive(bs, i, n);
    }
  }

  /** Every run from a well-formed heap stays well formed. */
  lemma {:induction false} RunKeepsWf(states: seq<seq<Block>>, calls: seq<Call>, n: nat)
    requires Run(states, calls) && n <= |calls| && Wf(states[0])
    ensures Wf(states[n])
  {
    if n > 0 {
      RunKeepsWf(states, calls, n - 1);
      var bs, call := states[n - 1], calls[n - 1];
      assert Performs(bs, call, states[n]);
      match call
      case Malloc(size) => MallocSpecWf(bs, size);
      case Free(b) =>
        var i :| 0 <= i < |bs| && bs[i] == b && !b.free && states[n] == FreeAt(bs, i);
        FreeWf(bs, i);
    }
  }

  lemma InitialWf()
    ensures Wf(Initial()) && Live(Initial()) == {}
  {
    assert Tiled(Initial(), 0);
  }

  /** A run that ends with the live blocks it began with ends in the same list, whatever
      the order of its frees; so one that has freed everything ends in the initial block. */
  lemma RunRestores(states: seq<seq<Block>>, calls: seq<Call>)
    requires Run(states, calls) && Wf(states[0])
    ensures Live(states[|calls|]) == Live(states[0]) ==> states[|calls|] == states[0]
    ensures Live(states[|calls|]) == {} ==> states[|calls|] == Initial()
  {
    RunKeepsWf(states, calls, |calls|);
    InitialWf();
    if Live(states[|calls|]) == Live(states[0]) {
      Canonical(states[|calls|], states[0]);
    }
    if Live(states[|calls|]) == {} {
      Canonical(states[|calls|], Initial());
    }
  }

  /** Freeing what was just allocated restores the list exactly. */
  lemma FreeUndoesMalloc(bs: seq<Block>, i: nat, n: nat)
    requires Wf(bs) && i < |bs| && Fits(bs[i], n) && n % 8 == 0
    ensures FreeAt(MallocAt(bs, i, n), i) == bs
  {
    var c := MallocAt(bs, i, n);
    MallocWf(bs, i, n);
    MallocLive(bs, i, n);
    MallocIndex(bs, i, n, i);
    FreeWf(c, i);
    assert Live(FreeAt(c, i)) == Live(bs);
    Canonical(FreeAt(c, i), bs);
  }

  /** A successful kmalloc grants the bytes asked for exactly when ALIGN8 did not wrap. */
  lemma GrantsEnough(bs: seq<Block>, size: nat)
    requires Wf(bs) && 0 < size < SIZE_LIMIT && FirstFit(bs, Align8(size), 0) < |bs|
    ensures Given(bs, FirstFit(bs, Align8(size), 0), Align8(size)).size >= size <==> size <= SIZE_LIMIT - 8
  {
    Align8Exact(size);
    WithinHeap(bs, FirstFit(bs, Align8(size), 0));
  }

  /** The largest size succeeds on a fresh heap and is given no payload at all. */
  lemma WrappedSizeIsGranted()
    ensures var size := SIZE_LIMIT - 1;
            && FirstFit(Initial(), Align8(size), 0) == 0
            && Given(Initial(), 0, Align8(size)).size == 0
  {
    Align8Exact(SIZE_LIMIT - 1);
  }
}
