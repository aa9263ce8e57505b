/** The root directory (kernel/fs/fat32.c): what fat32_list_root prints and what
    fat32_find returns, on every disk. */
module Fat32Dir {
  import opened Fat32
  import opened Fat32Names

  const ENTRIES: nat := 16
  const DIR_GUARD: nat := 64

  /** A printed line: name, start cluster, size, and whether it is a directory. */
  datatype Line = Line(name: seq<Byte>, cluster: nat, size: nat, dir: bool)

  datatype Entry = EndOfDirectory | Skipped | Shown(line: Line)

  function NameAt(b: Block, i: nat): (n: seq<Byte>)
    requires i < ENTRIES
    ensures |n| == 11
  {
    b[32 * i..32 * i + 11]
  }

  /** What entry `i` of a directory sector stands for. */
  function EntryAt(b: Block, i: nat): Entry
    requires i < ENTRIES
  {
    var o := 32 * i;
    var attr: nat := b[o + 11];
    if b[o] == 0x00 then EndOfDirectory
    else if b[o] == 0xE5 || attr == 0x0F || attr / 8 % 2 == 1 then Skipped
    else Shown(Line(CStr(Formatted(NameAt(b, i))), Le16(b, o + 20) * 65536 + Le16(b, o + 26), Le32(b, o + 28), attr / 16 % 2 == 1))
  }

  /** The lines found so far, and whether the scan must stop. */
  datatype Scan = Scan(lines: seq<Line>, stop: bool)

  /** Lines already found, followed by a scan of the rest. */
  function Then(lines: seq<Line>, r: Scan): Scan { Scan(lines + r.lines, r.stop) }

  lemma ThenMore(a: seq<Line>, b: seq<Line>, r: Scan)
    ensures Then(a, Then(b, r)) == Then(a + b, r)
  {}

  function LinesOf(e: Entry): seq<Line> {
    if e.Shown? then [e.line] else []
  }

  /** A scan of entries up to the first end. */
  function ScanOf(es: seq<Entry>): Scan {
    if |es| == 0 then Scan([], false)
    else if es[0].EndOfDirectory? then Scan([], true)
    else Then(LinesOf(es[0]), ScanOf(es[1..]))
  }

  /** A scan that has found `lines` goes on with entry `i`. */
  lemma ScanStep(es: seq<Entry>, i: nat, lines: seq<Line>)
    requires i < |es| && ScanOf(es) == Then(lines, ScanOf(es[i..]))
    ensures es[i].EndOfDirectory? ==> ScanOf(es) == Scan(lines, true)
    ensures es[i].Skipped? ==> ScanOf(es) == Then(lines, ScanOf(es[i + 1..]))
    ensures es[i].Shown? ==> ScanOf(es) == Then(lines + [es[i].line], ScanOf(es[i + 1..]))
  {
    assert es[i..][1..] == es[i + 1..];
    if !es[i].EndOfDirectory? {
      ThenMore(lines, LinesOf(es[i]), ScanOf(es[i + 1..]));
      if es[i].Skipped? { assert lines + [] == lines; }
    }
  }

  function EntriesOf(b: Block): (es: seq<Entry>)
    ensures |es| == ENTRIES && forall i | 0 <= i < ENTRIES :: es[i] == EntryAt(b, i)
  {
    seq(ENTRIES, i requires 0 <= i < ENTRIES => EntryAt(b, i))
  }

  /** The sectors of one cluster from `s` on. */
  function ClusterScan(fs: Fs, disk: Disk, c: nat, s: nat): Scan
    requires c >= 2 && s <= fs.spc
    decreases fs.spc - s
  {
    if s == fs.spc then Scan([], false)
    else
      match disk(Lba(fs, c, s))
      case Unreadable => Scan([], true)
      case Data(b) =>
        var r := ScanOf(EntriesOf(b));
        if r.stop then r
        else
          var t := ClusterScan(fs, disk, c, s + 1);
          Scan(r.lines + t.lines, t.stop)
  }

  /** The directory from cluster `c`, of which at most `left` clusters are visited. */
  function Lines(fs: Fs, disk: Disk, c: nat, left: nat): seq<Line>
    decreases left
  {
    if left == 0 || !InChain(c) then []
    else
      var r := ClusterScan(fs, disk, c, 0);
      if r.stop then r.lines
      else r.lines + Lines(fs, disk, NextCluster(fs, disk, c), left - 1)
  }

  /** The lines of the root directory. The guard stops a scan after cluster 65. */
  function RootLines(fs: Fs, disk: Disk): seq<Line> {
    Lines(fs, disk, fs.root, DIR_GUARD + 1)
  }

  // ---- listing ----

  /** One entry, decoded as both loops decode it. */
  method ReadEntry(b: Block, i: nat) returns (e: Entry)
    requires i < ENTRIES
    ensures e == EntryAt(b, i)
  {
    var o := 32 * i;
    var attr: nat := b[o + 11];
    if b[o] == 0x00 { return EndOfDirectory; }
    if b[o] == 0xE5 { return Skipped; }
    if attr == 0x0F { return Skipped; }
    if attr / 8 % 2 == 1 { return Skipped; }
    var pretty := new Byte[13](_ => 0);
    FormatName(NameAt(b, i), pretty);
    TerminatedName(NameAt(b, i), pretty[..]);
    return Shown(Line(CStr(pretty[..]), Le16(b, o + 20) * 65536 + Le16(b, o + 26), Le32(b, o + 28), attr / 16 % 2 == 1));
  }

  method ListSector(b: Block) returns (r: Scan)
    ensures r == ScanOf(EntriesOf(b))
  {
    ghost var es := EntriesOf(b);
    var lines := [];
    for i := 0 to ENTRIES
      invariant ScanOf(es) == Then(lines, ScanOf(es[i..]))
    {
      var e := ReadEntry(b, i);
      ScanStep(es, i, lines);
      if e.EndOfDirectory? { return Scan(lines, true); }
      if e.Shown? { lines := lines + [e.line]; }
    }
    return Scan(lines, false);
  }

  /** The buffer fat32_format_name fills holds the formatted name as a C string. */
  lemma TerminatedName(name: seq<Byte>, buf: seq<Byte>)
    requires |name| == 11 && |Formatted(name)| < |buf|
    requires buf[..|Formatted(name)|] == Formatted(name) && buf[|Formatted(name)|] == 0
    ensures CStr(buf) == CStr(Formatted(name))
  {
    var f := Formatted(name);
    assert buf == f + buf[|f|..];
    CutShort(f, buf[|f|..]);
  }

  lemma {:induction false} CutShort(f: seq<Byte>, rest: seq<Byte>)
    requires |rest| > 0 && rest[0] == 0
    ensures CStr(f + rest) == CStr(f)
  {
    if |f| == 0 {
      assert f + rest == rest;
    } else {
      assert (f + rest)[1..] == f[1..] + rest;
      CutShort(f[1..], rest);
    }
  }

  method ListCluster(fs: Fs, disk: Disk, c: nat) returns (r: Scan)
    requires c >= 2
    ensures r == ClusterScan(fs, disk, c, 0)
  {
    var lines := [];
    for s := 0 to fs.spc
      invariant ClusterScan(fs, disk, c, 0) == Then(lines, ClusterScan(fs, disk, c, s))
    {
      var sector := disk(Lba(fs, c, s));
      if sector.Unreadable? { return Scan(lines, true); }
      var r := ListSector(sector.bytes);
      if r.stop { return Scan(lines + r.lines, true); }
      ThenMore(lines, r.lines, ClusterScan(fs, disk, c, s + 1));
      lines := lines + r.lines;
    }
    return Scan(lines, false);
  }

  lemma LinesStep(fs: Fs, disk: Disk, c: nat, left: nat, printed: seq<Line>, r: Scan)
    requires InChain(c) && left > 0 && r == ClusterScan(fs, disk, c, 0)
    ensures printed + Lines(fs, disk, c, left) ==
            if r.stop then printed + r.lines else printed + r.lines + Lines(fs, disk, NextCluster(fs, disk, c), left - 1)
  {
    var rest := Lines(fs, disk, NextCluster(fs, disk, c), left - 1);
    assert printed + (r.lines + rest) == printed + r.lines + rest;
  }

  /** `fat32_list_root`: the lines it prints. */
  method ListRoot(fs: Fs, disk: Disk) returns (printed: seq<Line>)
    ensures printed == RootLines(fs, disk)
  {
    printed := ListChain(fs, disk, DIR_GUARD + 1);
  }

  /** Its loop over the clusters, of which at most `limit` are visited. */
  method ListChain(fs: Fs, disk: Disk, ghost limit: nat) returns (printed: seq<Line>)
    requires limit == DIR_GUARD + 1
    ensures printed == Lines(fs, disk, fs.root, limit)
  {
    printed := [];
    var cluster := fs.root;
    var guard: nat := 0;
    ghost var left := limit;
    while InChain(cluster)
      invariant guard <= DIR_GUARD && left == limit - guard
      invariant Lines(fs, disk, fs.root, limit) == printed + Lines(fs, disk, cluster, left)
      decreases left
    {
      var r := ListCluster(fs, disk, cluster);
      LinesStep(fs, disk, cluster, left, printed, r);
      printed := printed + r.lines;
      if r.stop { return; }
      cluster := NextCluster(fs, disk, cluster);
      guard := guard + 1;
      left := left - 1;
      if guard > DIR_GUARD { return; }
    }
  }

  // ---- finding ----

  datatype Found = NotFound | At(cluster: nat, size: nat)

  /** The cluster and size of the first line with that name. */
  function FirstMatch(lines: seq<Line>, name: seq<Byte>): Found {
    if |lines| == 0 then NotFound
    else if lines[0].name == name then At(lines[0].cluster, lines[0].size)
    else FirstMatch(lines[1..], name)
  }

  lemma {:induction false} FirstMatchAppend(a: seq<Line>, b: seq<Line>, name: seq<Byte>)
    ensures FirstMatch(a + b, name) == if FirstMatch(a, name).At? then FirstMatch(a, name) else FirstMatch(b, name)
  {
    if |a| == 0 {
      assert a + b == b;
    } else {
      assert (a + b)[1..] == a[1..] + b;
      FirstMatchAppend(a[1..], b, name);
    }
  }

  /** A match is found exactly when some line has the name, and it is the first such line. */
  lemma {:induction false} FirstMatchMeans(lines: seq<Line>, name: seq<Byte>)
    ensures FirstMatch(lines, name).At? <==> exists i | 0 <= i < |lines| :: lines[i].name == name
    ensures FirstMatch(lines, name).At? ==>
              exists i | 0 <= i < |lines| ::
                && lines[i].name == name && FirstMatch(lines, name) == At(lines[i].cluster, lines[i].size)
                && forall j | 0 <= j < i :: lines[j].name != name
  {
    if |lines| > 0 && lines[0].name != name {
      FirstMatchMeans(lines[1..], name);
      if FirstMatch(lines[1..], name).At? {
        var i :| 0 <= i < |lines[1..]| && lines[1..][i].name == name
          && FirstMatch(lines[1..], name) == At(lines[1..][i].cluster, lines[1..][i].size)
          && forall j | 0 <= j < i :: lines[1..][j].name != name;
        assert lines[i + 1].name == name;
        forall j | 0 <= j < i + 1
          ensures lines[j].name != name
        {
          if j > 0 { assert lines[1..][j - 1].name != name; }
        }
      } else {
        forall i | 0 <= i < |lines|
          ensures lines[i].name != name
        {
          if i > 0 { assert lines[1..][i - 1].name != name; }
        }
      }
    }
  }

  lemma FindStep(es: seq<Entry>, i: nat, name: seq<Byte>)
    requires i < |es|
    ensures es[i].EndOfDirectory? ==> ScanOf(es[i..]) == Scan([], true)
    ensures es[i].Shown? && es[i].line.name == name ==>
              FirstMatch(ScanOf(es[i..]).lines, name) == At(es[i].line.cluster, es[i].line.size)
    ensures !es[i].EndOfDirectory? ==> ScanOf(es[i..]).stop == ScanOf(es[i + 1..]).stop
    ensures es[i].Skipped? || (es[i].Shown? && es[i].line.name != name) ==>
              FirstMatch(ScanOf(es[i..]).lines, name) == FirstMatch(ScanOf(es[i + 1..]).lines, name)
  {
    assert es[i..][1..] == es[i + 1..];
    FirstMatchAppend(LinesOf(es[i]), ScanOf(es[i + 1..]).lines, name);
  }

  method FindInSector(b: Block, name: seq<Byte>) returns (found: Found, stop: bool)
    ensures found == FirstMatch(ScanOf(EntriesOf(b)).lines, CStr(name))
    ensures found.NotFound? ==> stop == ScanOf(EntriesOf(b)).stop
  {
    ghost var es := EntriesOf(b);
    for i := 0 to ENTRIES
      invariant FirstMatch(ScanOf(es).lines, CStr(name)) == FirstMatch(ScanOf(es[i..]).lines, CStr(name))
      invariant ScanOf(es).stop == ScanOf(es[i..]).stop
    {
      var e := ReadEntry(b, i);
      FindStep(es, i, CStr(name));
      if e.EndOfDirectory? { return NotFound, true; }
      if e.Shown? {
        var same := StrEq(e.line.name, name);
        CStrTwice(NameAt(b, i));
        if same { return At(e.line.cluster, e.line.size), false; }
      }
    }
    return NotFound, false;
  }

  lemma CStrTwice(name: seq<Byte>)
    requires |name| == 11
    ensures CStr(CStr(Formatted(name))) == CStr(Formatted(name))
  {
    NoNul(CStr(Formatted(name)));
  }

  method FindInCluster(fs: Fs, disk: Disk, c: nat, name: seq<Byte>) returns (found: Found, stop: bool)
    requires c >= 2
    ensures found == FirstMatch(ClusterScan(fs, disk, c, 0).lines, CStr(name))
    ensures found.NotFound? ==> stop == ClusterScan(fs, disk, c, 0).stop
  {
    for s := 0 to fs.spc
      invariant FirstMatch(ClusterScan(fs, disk, c, 0).lines, CStr(name)) == FirstMatch(ClusterScan(fs, disk, c, s).lines, CStr(name))
      invariant ClusterScan(fs, disk, c, 0).stop == ClusterScan(fs, disk, c, s).stop
    {
      var sector := disk(Lba(fs, c, s));
      if sector.Unreadable? { return NotFound, true; }
      var stopHere;
      found, stopHere := FindInSector(sector.bytes, name);
      FirstMatchAppend(ScanOf(EntriesOf(sector.bytes)).lines, ClusterScan(fs, disk, c, s + 1).lines, CStr(name));
      if found.At? { return found, false; }
      if stopHere { return NotFound, true; }
    }
    return NotFound, false;
  }

  /** `fat32_find`: what it returns is the first printed line of that name. */
  method Find(fs: Fs, disk: Disk, name: seq<Byte>) returns (found: Found)
    ensures found == FirstMatch(RootLines(fs, disk), CStr(name))
  {
    found := FindInChain(fs, disk, name, DIR_GUARD + 1);
  }

  /** Its loop over the clusters, of which at most `limit` are visited. */
  method FindInChain(fs: Fs, disk: Disk, name: seq<Byte>, ghost limit: nat) returns (found: Found)
    requires limit == DIR_GUARD + 1
    ensures found == FirstMatch(Lines(fs, disk, fs.root, limit), CStr(name))
  {
    var cluster := fs.root;
    var guard: nat := 0;
    ghost var left := limit;
    while InChain(cluster)
      invariant guard <= DIR_GUARD && left == limit - guard
      invariant FirstMatch(Lines(fs, disk, fs.root, limit), CStr(name)) == FirstMatch(Lines(fs, disk, cluster, left), CStr(name))
      decreases left
    {
      var stop;
      found, stop := FindInCluster(fs, disk, cluster, name);
      MatchStep(fs, disk, cluster, left, CStr(name));
      if found.At? || stop { return; }
      cluster := NextCluster(fs, disk, cluster);
      guard := guard + 1;
      left := left - 1;
      if guard > DIR_GUARD { return NotFound; }
    }
    return NotFound;
  }

  lemma MatchStep(fs: Fs, disk: Disk, c: nat, left: nat, name: seq<Byte>)
    requires InChain(c) && left > 0
    ensures var r := ClusterScan(fs, disk, c, 0);
            FirstMatch(Lines(fs, disk, c, left), name) ==
            if FirstMatch(r.lines, name).At? || r.stop then FirstMatch(r.lines, name)
            else FirstMatch(Lines(fs, disk, NextCluster(fs, disk, c), left - 1), name)
  {
    FirstMatchAppend(ClusterScan(fs, disk, c, 0).lines, Lines(fs, disk, NextCluster(fs, disk, c), left - 1), name);
  }

  /** Lookup agrees with listing on every disk: both are about the same lines. */
  method FindAgreesWithList(fs: Fs, disk: Disk, name: seq<Byte>) returns (found: Found, printed: seq<Line>)
    ensures found.At? <==> exists i | 0 <= i < |printed| :: printed[i].name == CStr(name)
    ensures found.At? ==>
              exists i | 0 <= i < |printed| ::
                && printed[i].name == CStr(name) && found == At(printed[i].cluster, printed[i].size)
                && forall j | 0 <= j < i :: printed[j].name != CStr(name)
  {
    printed := ListRoot(fs, disk);
    found := Find(fs, disk, name);
    FirstMatchMeans(printed, CStr(name));
  }
}
