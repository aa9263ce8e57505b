/** The root directory by position (kernel/fs/fat32.c): which of the entries on disk the
    listing prints, and where they are. */
module Fat32Listing {
  import opened Fat32
  import opened Fat32Dir

  /** The entries of a sector. The listing ends at a sector that cannot be read. */
  function SectorEntries(s: Sector): (es: seq<Entry>)
    ensures |es| == ENTRIES
  {
    match s
    case Unreadable => seq(ENTRIES, _ => EndOfDirectory)
    case Data(b) => EntriesOf(b)
  }

  // ---- what a list of entries prints ----

  /** The index of the first end among the entries, or their number. */
  function FirstEnd(es: seq<Entry>): (n: nat)
    ensures n <= |es| && (n < |es| ==> es[n].EndOfDirectory?)
    ensures forall i | 0 <= i < n :: !es[i].EndOfDirectory?
  {
    if |es| == 0 || es[0].EndOfDirectory? then 0 else 1 + FirstEnd(es[1..])
  }

  /** The lines of the entries that are shown. */
  function ShownIn(es: seq<Entry>): seq<Line> {
    if |es| == 0 then [] else LinesOf(es[0]) + ShownIn(es[1..])
  }

  lemma {:induction false} ScanMeans(es: seq<Entry>)
    ensures ScanOf(es) == Scan(ShownIn(es[..FirstEnd(es)]), FirstEnd(es) < |es|)
  {
    if |es| > 0 && !es[0].EndOfDirectory? {
      var n := FirstEnd(es[1..]);
      ScanMeans(es[1..]);
      assert es[..1 + n][1..] == es[1..][..n];
    }
  }

  /** What comes after an end is not looked at. */
  lemma {:induction false} ScanJoin(a: seq<Entry>, b: seq<Entry>)
    ensures ScanOf(a + b) == if ScanOf(a).stop then ScanOf(a) else Then(ScanOf(a).lines, ScanOf(b))
  {
    if |a| == 0 {
      assert a + b == b;
    } else if !a[0].EndOfDirectory? {
      assert (a + b)[1..] == a[1..] + b;
      ScanJoin(a[1..], b);
      ThenMore(LinesOf(a[0]), ScanOf(a[1..]).lines, ScanOf(b));
    }
  }

  // ---- sectors in a row ----

  /** The entries of each sector of a cluster. */
  type Rows = seq<seq<Entry>>

  function Flat(rows: Rows): seq<Entry> {
    if |rows| == 0 then [] else rows[0] + Flat(rows[1..])
  }

  /** A chain of clusters, given what follows each cluster and what it holds: at most `left`
      clusters from `c` on, up to one that is not valid. */
  function Chain(next: nat -> nat, hold: nat -> Rows, c: nat, left: nat): seq<Rows>
    decreases left
  {
    if left == 0 || !InChain(c) then [] else [hold(c)] + Chain(next, hold, next(c), left - 1)
  }

  /** All entries of a directory, in the order of clusters, sectors and entries. */
  function AllEntries(dir: seq<Rows>): seq<Entry> {
    if |dir| == 0 then [] else Flat(dir[0]) + AllEntries(dir[1..])
  }

  /** The lines of a chain, cluster by cluster. */
  function ChainLines(next: nat -> nat, hold: nat -> Rows, c: nat, left: nat): seq<Line>
    decreases left
  {
    if left == 0 || !InChain(c) then []
    else
      var r := ScanOf(Flat(hold(c)));
      if r.stop then r.lines else r.lines + ChainLines(next, hold, next(c), left - 1)
  }

  lemma {:induction false} ChainLinesAre(next: nat -> nat, hold: nat -> Rows, c: nat, left: nat)
    ensures ChainLines(next, hold, c, left) == ScanOf(AllEntries(Chain(next, hold, c, left))).lines
    decreases left
  {
    if left > 0 && InChain(c) {
      var rest := Chain(next, hold, next(c), left - 1);
      ChainLinesAre(next, hold, next(c), left - 1);
      ScanJoin(Flat(hold(c)), AllEntries(rest));
      assert ([hold(c)] + rest)[1..] == rest;
    }
  }

  predicate StepOk(next: nat -> nat, at: nat -> nat, k: nat) {
    InChain(at(k)) ==> at(k + 1) == next(at(k))
  }

  /** `at` lists the chain: the cluster `k` places down. */
  ghost predicate Lists(next: nat -> nat, at: nat -> nat) {
    forall k: nat {:trigger StepOk(next, at, k)} :: StepOk(next, at, k)
  }

  /** A chain holds its clusters at their places, and ends at the limit or before the first
      one that is not valid. */
  lemma {:induction false} ChainAt(next: nat -> nat, hold: nat -> Rows, at: nat -> nat, k: nat, left: nat, q: nat)
    requires Lists(next, at)
    ensures var dir := Chain(next, hold, at(k), left);
            && |dir| <= left && (q == |dir| < left ==> !InChain(at(k + q)))
            && (q < |dir| ==> InChain(at(k + q)) && dir[q] == hold(at(k + q)))
    decreases left
  {
    if left > 0 && InChain(at(k)) {
      assert StepOk(next, at, k);
      ChainAt(next, hold, at, k + 1, left - 1, if q > 0 then q - 1 else 0);
    }
  }

  // ---- the directory on disk ----

  function RowsOf(fs: Fs, disk: Disk, c: nat): (rows: Rows)
    requires c >= 2
    ensures |rows| == fs.spc && forall s | 0 <= s < fs.spc :: rows[s] == SectorEntries(disk(Lba(fs, c, s)))
  {
    seq(fs.spc, s requires 0 <= s < fs.spc => SectorEntries(disk(Lba(fs, c, s))))
  }

  predicate Agrees(fs: Fs, disk: Disk, next: nat -> nat, hold: nat -> Rows, c: nat) {
    c >= 2 ==> next(c) == NextCluster(fs, disk, c) && hold(c) == RowsOf(fs, disk, c)
  }

  predicate AgreesAt(fs: Fs, disk: Disk, at: nat -> nat, k: nat) {
    at(k) == ClusterAt(fs, disk, fs.root, k)
  }

  /** `next` and `hold` are what the disk has: the FAT, and the sectors of each cluster. */
  ghost predicate Describe(fs: Fs, disk: Disk, next: nat -> nat, hold: nat -> Rows) {
    forall c: nat {:trigger Agrees(fs, disk, next, hold, c)} :: Agrees(fs, disk, next, hold, c)
  }

  /** `at` is the cluster chain of the root directory. */
  ghost predicate RootChain(fs: Fs, disk: Disk, at: nat -> nat) {
    forall k: nat {:trigger AgreesAt(fs, disk, at, k)} :: AgreesAt(fs, disk, at, k)
  }

  lemma {:induction false} ClusterScanIs(fs: Fs, disk: Disk, c: nat, s: nat)
    requires c >= 2 && s <= fs.spc
    ensures ClusterScan(fs, disk, c, s) == ScanOf(Flat(RowsOf(fs, disk, c)[s..]))
    decreases fs.spc - s
  {
    if s < fs.spc {
      var rows := RowsOf(fs, disk, c);
      ClusterScanIs(fs, disk, c, s + 1);
      ScanJoin(rows[s], Flat(rows[s + 1..]));
      assert rows[s..][1..] == rows[s + 1..];
    }
  }

  lemma ClusterAgrees(fs: Fs, disk: Disk, next: nat -> nat, hold: nat -> Rows, c: nat)
    requires Describe(fs, disk, next, hold) && InChain(c)
    ensures next(c) == NextCluster(fs, disk, c) && ScanOf(Flat(hold(c))) == ClusterScan(fs, disk, c, 0)
  {
    assert Agrees(fs, disk, next, hold, c);
    ClusterScanIs(fs, disk, c, 0);
    assert hold(c)[0..] == hold(c);
  }

  lemma LinesUnfold(fs: Fs, disk: Disk, c: nat, left: nat, n: nat, r: Scan)
    requires InChain(c) && left > 0 && n == NextCluster(fs, disk, c) && r == ClusterScan(fs, disk, c, 0)
    ensures Lines(fs, disk, c, left) == if r.stop then r.lines else r.lines + Lines(fs, disk, n, left - 1)
  {}

  lemma {:induction false} LinesAre(fs: Fs, disk: Disk, next: nat -> nat, hold: nat -> Rows, c: nat, left: nat)
    requires Describe(fs, disk, next, hold)
    ensures Lines(fs, disk, c, left) == ChainLines(next, hold, c, left)
    decreases left
  {
    if left > 0 && InChain(c) {
      var n, r := next(c), ScanOf(Flat(hold(c)));
      LinesAre(fs, disk, next, hold, n, left - 1);
      ClusterAgrees(fs, disk, next, hold, c);
      LinesUnfold(fs, disk, c, left, n, r);
    }
  }

  lemma ChainSteps(fs: Fs, disk: Disk, next: nat -> nat, hold: nat -> Rows, at: nat -> nat, k: nat)
    requires Describe(fs, disk, next, hold) && RootChain(fs, disk, at)
    ensures StepOk(next, at, k)
  {
    assert AgreesAt(fs, disk, at, k) && AgreesAt(fs, disk, at, k + 1) && Agrees(fs, disk, next, hold, at(k));
  }

  /** The root directory, as the disk has it: a list of clusters of sectors of entries. Sector
      `s` of the `q`-th cluster of the chain is `dir[q][s]`; the chain goes on while its
      clusters are valid, and for at most 65 of them. */
  ghost predicate IsRootDirectory(fs: Fs, disk: Disk, at: nat -> nat, dir: seq<Rows>) {
    && RootChain(fs, disk, at) && |dir| <= DIR_GUARD + 1
    && (|dir| <= DIR_GUARD ==> !InChain(at(|dir|)))
    && forall q | 0 <= q < |dir| :: InChain(at(q)) && dir[q] == RowsOf(fs, disk, at(q))
  }

  lemma ChainIsRootDirectory(fs: Fs, disk: Disk, next: nat -> nat, hold: nat -> Rows, at: nat -> nat, limit: nat)
    requires Describe(fs, disk, next, hold) && RootChain(fs, disk, at) && limit == DIR_GUARD + 1
    ensures IsRootDirectory(fs, disk, at, Chain(next, hold, at(0), limit))
  {
    forall k: nat
      ensures StepOk(next, at, k)
    {
      ChainSteps(fs, disk, next, hold, at, k);
    }
    var dir := Chain(next, hold, at(0), limit);
    ChainAt(next, hold, at, 0, limit, |dir|);
    forall q: nat | q < |dir|
      ensures InChain(at(q)) && dir[q] == RowsOf(fs, disk, at(q))
    {
      ChainAt(next, hold, at, 0, limit, q);
      assert Agrees(fs, disk, next, hold, at(q));
    }
  }

  /** The listing is exactly the entries shown, in the order of clusters, sectors and entries,
      before the first end: a terminator, an unreadable sector, or the end of the chain. */
  lemma ListingIs(fs: Fs, disk: Disk) returns (at: nat -> nat, dir: seq<Rows>)
    ensures IsRootDirectory(fs, disk, at, dir)
    ensures var es := AllEntries(dir); RootLines(fs, disk) == ShownIn(es[..FirstEnd(es)])
  {
    var next: nat -> nat := (c: nat) => NextCluster(fs, disk, c);
    var hold: nat -> Rows := (c: nat) => if c >= 2 then RowsOf(fs, disk, c) else [];
    at := (k: nat) => ClusterAt(fs, disk, fs.root, k);
    assert Describe(fs, disk, next, hold) && RootChain(fs, disk, at);
    dir := ListingOf(fs, disk, next, hold, at, DIR_GUARD + 1);
  }

  lemma ListingOf(fs: Fs, disk: Disk, next: nat -> nat, hold: nat -> Rows, at: nat -> nat, limit: nat) returns (dir: seq<Rows>)
    requires Describe(fs, disk, next, hold) && RootChain(fs, disk, at) && limit == DIR_GUARD + 1
    ensures IsRootDirectory(fs, disk, at, dir)
    ensures var es := AllEntries(dir); Lines(fs, disk, fs.root, limit) == ShownIn(es[..FirstEnd(es)])
  {
    dir := Chain(next, hold, at(0), limit);
    assert AgreesAt(fs, disk, at, 0);
    ChainIsRootDirectory(fs, disk, next, hold, at, limit);
    LinesAre(fs, disk, next, hold, fs.root, limit);
    ChainLinesAre(next, hold, fs.root, limit);
    ScanMeans(AllEntries(dir));
  }
}
