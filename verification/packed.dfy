/** Packed structs: unsigned little-endian fields in a row, and reading them back. */
module Packed {

  type Byte = b: nat | b < 256

  /** The little-endian number in the `n` bytes at `off`. */
  function Le(image: seq<Byte>, off: nat, n: nat): nat
    requires off + n <= |image|
    decreases n
  {
    if n == 0 then 0 else image[off] + 256 * Le(image, off + 1, n - 1)
  }

  /** An unsigned field of `width` bytes, stored least significant byte first. */
  datatype Field = Field(value: nat, width: nat)

  function Power(n: nat): (p: nat)
    ensures p > 0
  {
    if n == 0 then 1 else 256 * Power(n - 1)
  }

  predicate FieldOk(f: Field) { f.value < Power(f.width) }

  function Encode(value: nat, width: nat): (bytes: seq<Byte>)
    ensures |bytes| == width
    decreases width
  {
    if width == 0 then [] else [value % 256] + Encode(value / 256, width - 1)
  }

  /** Reading back a stored number. */
  lemma {:induction false} LeEncode(image: seq<Byte>, off: nat, value: nat, width: nat)
    requires off + width <= |image| && image[off..off + width] == Encode(value, width) && value < Power(width)
    ensures Le(image, off, width) == value
    decreases width
  {
    if width > 0 {
      var slice := image[off..off + width];
      assert image[off] == slice[0];
      assert image[off + 1..off + width] == slice[1..];
      LeEncode(image, off + 1, value / 256, width - 1);
    }
  }

  // ---- structs ----

  /** The offset of field `n`, and the bytes of the fields before it. */
  function Offset(fs: seq<Field>, n: nat): nat
    requires n <= |fs|
  {
    if n == 0 then 0 else Offset(fs, n - 1) + fs[n - 1].width
  }

  function Pack(fs: seq<Field>, n: nat): (bytes: seq<Byte>)
    requires n <= |fs|
    ensures |bytes| == Offset(fs, n)
  {
    if n == 0 then [] else Pack(fs, n - 1) + Encode(fs[n - 1].value, fs[n - 1].width)
  }

  lemma {:induction false} OffsetsGrow(fs: seq<Field>, k: nat, n: nat)
    requires k < n <= |fs|
    ensures Offset(fs, k) + fs[k].width == Offset(fs, k + 1) <= Offset(fs, n)
  {
    if k < n - 1 { OffsetsGrow(fs, k, n - 1); }
  }

  lemma SliceOfSlice(s: seq<Byte>, at: nat, end: nat, a: nat, b: nat)
    requires at <= end <= |s| && a <= b && at + b <= end
    ensures s[at..end][a..b] == s[at + a..at + b]
  {
    var x, y := s[at..end][a..b], s[at + a..at + b];
    assert |x| == |y| && forall i | 0 <= i < |x| :: x[i] == y[i];
  }

  lemma SliceOfPrefix(p: seq<Byte>, q: seq<Byte>, a: nat, b: nat)
    requires a <= b <= |p|
    ensures (p + q)[a..b] == p[a..b]
  {}

  lemma {:induction false} PackAt(fs: seq<Field>, k: nat, n: nat)
    requires k < n <= |fs|
    ensures Offset(fs, k) <= Offset(fs, k + 1) <= Offset(fs, n)
    ensures Pack(fs, n)[Offset(fs, k)..Offset(fs, k + 1)] == Encode(fs[k].value, fs[k].width)
  {
    OffsetsGrow(fs, k, n);
    var front, last := Pack(fs, n - 1), Encode(fs[n - 1].value, fs[n - 1].width);
    if k < n - 1 {
      OffsetsGrow(fs, k, n - 1);
      PackAt(fs, k, n - 1);
      SliceOfPrefix(front, last, Offset(fs, k), Offset(fs, k + 1));
    } else {
      SliceOfRest(front, last);
    }
  }

  lemma SliceOfRest(p: seq<Byte>, q: seq<Byte>)
    ensures (p + q)[|p|..|p| + |q|] == q
  {}

  /** A struct at `at` in an image: each field is found at its offset. */
  lemma FieldAt(image: seq<Byte>, at: nat, fs: seq<Field>, k: nat, off: nat)
    requires k < |fs| && FieldOk(fs[k]) && at + Offset(fs, |fs|) <= |image|
    requires image[at..at + Offset(fs, |fs|)] == Pack(fs, |fs|) && off == at + Offset(fs, k)
    ensures off + fs[k].width <= |image| && Le(image, off, fs[k].width) == fs[k].value
  {
    PackAt(fs, k, |fs|);
    OffsetsGrow(fs, k, |fs|);
    SliceOfSlice(image, at, at + Offset(fs, |fs|), Offset(fs, k), Offset(fs, k + 1));
    LeEncode(image, off, fs[k].value, fs[k].width);
  }
}
