/** 8.3 names (kernel/fs/fat32.c): the printed form of a directory entry's name, which fits
    its 13-byte buffer, and can be turned back for well-formed names. */
module Fat32Names {
  import opened Fat32

  const SPACE: Byte := 0x20
  const DOT: Byte := 0x2E

  /** The part of `s` before the first `stop`. */
  function Before(s: seq<Byte>, stop: Byte): (t: seq<Byte>)
    ensures |t| <= |s| && t == s[..|t|] && stop !in t && (|t| < |s| ==> s[|t|] == stop)
  {
    if |s| == 0 || s[0] == stop then [] else [s[0]] + Before(s[1..], stop)
  }

  /** A C string is what comes before the terminator. */
  function CStr(s: seq<Byte>): seq<Byte> { Before(s, 0) }

  /** Base up to its padding, and a dot and the extension up to its padding if there is one. */
  function Formatted(name: seq<Byte>): (f: seq<Byte>)
    requires |name| == 11
    ensures |f| <= 12
  {
    Before(name[..8], SPACE) + (if name[8] != SPACE then [DOT] + Before(name[8..], SPACE) else [])
  }

  /** `fat32_format_name`: the formatted name and its terminator, inside 13 bytes. */
  method FormatName(name: seq<Byte>, out: array<Byte>)
    requires |name| == 11 && out.Length == 13
    modifies out
    ensures |Formatted(name)| < 13
    ensures out[..|Formatted(name)|] == Formatted(name) && out[|Formatted(name)|] == 0
  {
    var o := CopyPart(name[..8], out, 0);
    if name[8] != SPACE {
      out[o] := DOT;
      ghost var sofar := out[..o + 1];
      o := CopyPart(name[8..], out, o + 1);
    }
    out[o] := 0;
  }

  lemma BeforeStep(part: seq<Byte>, i: nat)
    requires i < |part| && part[i] != SPACE
    ensures part[..i] + Before(part[i..], SPACE) == part[..i + 1] + Before(part[i + 1..], SPACE)
  {
    assert part[i..][1..] == part[i + 1..];
  }

  /** One of the two copy loops: stops at the padding. */
  method CopyPart(part: seq<Byte>, out: array<Byte>, at: nat) returns (o: nat)
    requires at + |part| <= out.Length
    modifies out
    ensures o == at + |Before(part, SPACE)|
    ensures out[..o] == old(out[..at]) + Before(part, SPACE)
  {
    o := at;
    var i := 0;
    while i < |part|
      invariant i <= |part| && o == at + i
      invariant Before(part, SPACE) == part[..i] + Before(part[i..], SPACE)
      invariant out[..o] == old(out[..at]) + part[..i]
    {
      if part[i] == SPACE { break; }
      BeforeStep(part, i);
      out[o] := part[i];
      o := o + 1;
      i := i + 1;
    }
    assert i < |part| ==> Before(part[i..], SPACE) == [];
  }

  /** `fat_streq`: equal as C strings. */
  method StrEq(a: seq<Byte>, b: seq<Byte>) returns (eq: bool)
    ensures eq <==> CStr(a) == CStr(b)
  {
    var i := 0;
    while i < |a| && i < |b| && a[i] != 0 && b[i] != 0
      invariant i <= |a| && i <= |b| && 0 !in a[..i] && a[..i] == b[..i]
    {
      if a[i] != b[i] {
        CutAt(a, i);
        CutAt(b, i);
        assert CStr(a)[i] == a[i] && CStr(b)[i] == b[i];
        return false;
      }
      assert a[..i + 1] == a[..i] + [a[i]] && b[..i + 1] == b[..i] + [b[i]];
      i := i + 1;
    }
    CutAt(a, i);
    CutAt(b, i);
    var x := if i < |a| then a[i] else 0;
    var y := if i < |b| then b[i] else 0;
    return x == y;
  }

  /** Where the C string ends, seen from a position it reaches. */
  lemma CutAt(a: seq<Byte>, i: nat)
    requires i <= |a| && 0 !in a[..i]
    ensures |CStr(a)| >= i && CStr(a)[..i] == a[..i]
    ensures |CStr(a)| == i <==> i == |a| || a[i] == 0
  {
    var t := CStr(a);
    if |t| > i {
      assert t[i] == a[i] && t[i] in t;
    }
  }

  // ---- well-formed names ----

  /** Ordinary bytes, then padding to the end. */
  predicate Padded(part: seq<Byte>) {
    && (forall i, j | 0 <= i < j < |part| && part[i] == SPACE :: part[j] == SPACE)
    && DOT !in part && 0 !in part
  }

  predicate WellFormed(name: seq<Byte>) {
    |name| == 11 && Padded(name[..8]) && Padded(name[8..])
  }

  function Pad(s: seq<Byte>, n: nat): seq<Byte>
    requires |s| <= n
  {
    s + seq(n - |s|, _ => SPACE)
  }

  /** The printed form, byte by byte: the `b` bytes of the base that are not padding; then,
      only if the name has an extension, a dot and the `e` bytes of that. */
  lemma FormattedIs(name: seq<Byte>, b: nat, e: nat)
    requires |name| == 11 && b <= 8 && e <= 3
    requires (forall i | 0 <= i < b :: name[i] != 0x20) && (b < 8 ==> name[b] == 0x20)
    requires (forall i | 8 <= i < 8 + e :: name[i] != 0x20) && (e < 3 ==> name[8 + e] == 0x20)
    ensures e == 0 ==> Formatted(name) == name[..b]
    ensures e > 0 ==> Formatted(name) == name[..b] + [0x2E] + name[8..8 + e]
  {
    BeforeIs(name[..8], b);
    BeforeIs(name[8..], e);
    assert name[..8][..b] == name[..b] && name[8..][..e] == name[8..8 + e];
  }

  lemma {:induction false} BeforeIs(s: seq<Byte>, n: nat)
    requires n <= |s| && (forall i | 0 <= i < n :: s[i] != SPACE) && (n < |s| ==> s[n] == SPACE)
    ensures Before(s, SPACE) == s[..n]
    decreases n
  {
    if n > 0 {
      BeforeIs(s[1..], n - 1);
      assert s[..n] == [s[0]] + s[1..][..n - 1];
    }
  }

  /** The directory form of a printed name. */
  function Unformatted(f: seq<Byte>): seq<Byte>
    requires |Before(f, DOT)| <= 8 && |f| <= |Before(f, DOT)| + 4
  {
    var base := Before(f, DOT);
    Pad(base, 8) + Pad(if |base| < |f| then f[|base| + 1..] else [], 3)
  }

  lemma PaddedIsPad(part: seq<Byte>)
    requires Padded(part)
    ensures part == Pad(Before(part, SPACE), |part|)
    ensures DOT !in Before(part, SPACE) && 0 !in Before(part, SPACE)
  {
    var n := |Before(part, SPACE)|;
    PrefixPadded(part, n);
  }

  /** A padded field is the part before its first space and then spaces. */
  lemma PrefixPadded(part: seq<Byte>, n: nat)
    requires Padded(part) && n <= |part| && (n < |part| ==> part[n] == SPACE)
    ensures part == Pad(part[..n], |part|) && DOT !in part[..n] && 0 !in part[..n]
  {
    var p := Pad(part[..n], |part|);
    forall i | n <= i < |part|
      ensures part[i] == p[i]
    {
      assert i == n || part[n] == SPACE;
    }
  }

  lemma {:induction false} BeforeAppend(a: seq<Byte>, b: seq<Byte>, stop: Byte)
    requires stop !in a
    ensures Before(a + b, stop) == a + Before(b, stop)
  {
    if |a| == 0 {
      assert a + b == b;
    } else {
      assert (a + b)[1..] == a[1..] + b;
      BeforeAppend(a[1..], b, stop);
    }
  }

  /** Formatting loses nothing of a well-formed name. */
  lemma FormatRoundTrip(name: seq<Byte>)
    requires WellFormed(name)
    ensures var f := Formatted(name);
            && |Before(f, DOT)| <= 8 && |f| <= |Before(f, DOT)| + 4
            && Unformatted(f) == name
            && CStr(f) == f
  {
    var base, ext := Before(name[..8], SPACE), Before(name[8..], SPACE);
    PaddedIsPad(name[..8]);
    PaddedIsPad(name[8..]);
    assert name == name[..8] + name[8..];
    var f := Formatted(name);
    if name[8] != SPACE {
      BeforeAppend(base, [DOT] + ext, DOT);
      assert f == base + ([DOT] + ext) && Before([DOT] + ext, DOT) == [];
      assert f[|base| + 1..] == ext;
    } else {
      BeforeAppend(base, [], DOT);
      assert f == base + [];
      assert ext == [];
    }
    NoNul(f);
  }

  lemma {:induction false} NoNul(f: seq<Byte>)
    requires 0 !in f
    ensures CStr(f) == f
  {
    BeforeAppend(f, [], 0);
    assert f + [] == f;
  }

  /** So two well-formed names with the same printed form are the same name. */
  lemma FormatInjective(a: seq<Byte>, b: seq<Byte>)
    requires WellFormed(a) && WellFormed(b) && CStr(Formatted(a)) == CStr(Formatted(b))
    ensures a == b
  {
    FormatRoundTrip(a);
    FormatRoundTrip(b);
  }
}
