/** Bytes, little-endian fields of fixed width, and positioned reads of a file. */
module Bytes {
  import opened Wrappers

  type byte = x: int | 0 <= x < 256
  type bytes = seq<byte>

  const TWO_16: nat := 0x1_0000
  const TWO_32: nat := 0x1_0000_0000
  const TWO_64: nat := 0x1_0000_0000_0000_0000

  /** The number of values `n` bytes can hold. */
  function Power(n: nat): (r: nat)
    ensures r > 0
  {
    if n == 0 then 1 else 256 * Power(n - 1)
  }

  lemma PowerLiterals()
    ensures Power(2) == TWO_16 && Power(4) == TWO_32 && Power(8) == TWO_64
  {
    assert Power(2) == 256 * Power(1) == TWO_16;
    assert Power(4) == 256 * Power(3) == TWO_32;
    assert Power(6) == 256 * Power(5) == 0x1_0000_0000_0000;
    assert Power(8) == 256 * Power(7) == TWO_64;
  }

  /** `v` as `n` little-endian bytes, the high part dropped when it does not fit. */
  function LE(v: nat, n: nat): (r: bytes)
    ensures |r| == n
    decreases n
  {
    if n == 0 then [] else [v % 256] + LE(v / 256, n - 1)
  }

  function FromLE(b: bytes): nat {
    if b == [] then 0 else b[0] + 256 * FromLE(b[1..])
  }

  lemma {:induction false} FieldRoundTrip(v: nat, n: nat)
    requires v < Power(n)
    ensures FromLE(LE(v, n)) == v
    decreases n
  {
    if n > 0 {
      FieldRoundTrip(v / 256, n - 1);
      assert LE(v, n)[1..] == LE(v / 256, n - 1);
    }
  }

  /** The `i`-th byte is the `i`-th digit in base 256, the least first. */
  lemma {:induction false} LEDigits(v: nat, n: nat, i: nat)
    requires i < n
    ensures LE(v, n)[i] == v / Power(i) % 256
    decreases n
  {
    if i > 0 {
      LEDigits(v / 256, n - 1, i - 1);
      QuotientTwice(v, 256, Power(i - 1));
      assert LE(v, n)[1..] == LE(v / 256, n - 1);
    } else {
      assert Power(0) == 1;
    }
  }

  /** A quotient by `p` is `b` exactly when the dividend is less than `p` above `b * p`. */
  lemma QuotientIs(n: nat, b: nat, p: nat)
    requires p > 0
    ensures n / p == b <==> b * p <= n < b * p + p
  {
    var q := n / p;
    if q < b {
      Times(q + 1, b, p);
    } else if b < q {
      Times(b + 1, q, p);
    }
  }

  lemma Times(a: nat, b: nat, p: nat)
    requires a <= b
    ensures a * p <= b * p
  {
  }

  lemma QuotientTwice(v: nat, a: nat, b: nat)
    requires a > 0 && b > 0
    ensures a * b > 0 && v / a / b == v / (a * b)
  {
    var q := v / a;
    var p := q / b;
    QuotientIs(v, q, a);
    QuotientIs(q, p, b);
    Times(p * b, q, a);
    Times(q + 1, p * b + b, a);
    Regroup(p, b, a);
    Times(1, a, b);
    QuotientIs(v, p, a * b);
  }

  lemma Regroup(p: nat, b: nat, a: nat)
    ensures p * b * a == p * (a * b) && (p * b + b) * a == p * (a * b) + a * b
  {
  }

  /** The little-endian field of width `n` at `off`. */
  function Field(b: bytes, off: nat, n: nat): nat
    requires off + n <= |b|
  {
    FromLE(b[off..off + n])
  }

  /** Exactly `n` bytes of `file` from `off`, or nothing when the file is shorter. */
  function ReadAt(file: bytes, off: nat, n: nat): Option<bytes> {
    if off + n <= |file| then Some(file[off..off + n]) else None
  }

  // ----- fixed layouts: a run of fields, each a value and its width -----

  datatype Fld = Fld(v: nat, n: nat)

  function Layout(fs: seq<Fld>): bytes {
    if fs == [] then [] else LE(fs[0].v, fs[0].n) + Layout(fs[1..])
  }

  /** How many bytes the first `i` fields take. */
  function Width(fs: seq<Fld>, i: nat): nat {
    if i == 0 || fs == [] then 0 else fs[0].n + Width(fs[1..], i - 1)
  }

  lemma Assoc(a: bytes, b: bytes, c: bytes)
    ensures (a + b) + c == a + (b + c)
  {
  }

  lemma LayoutHead(fs: seq<Fld>)
    requires fs != []
    ensures Layout(fs) == LE(fs[0].v, fs[0].n) + Layout(fs[1..])
  {
  }

  lemma {:induction false} LayoutAppend(a: seq<Fld>, b: seq<Fld>)
    ensures Layout(a + b) == Layout(a) + Layout(b)
    decreases |a|
  {
    if a == [] {
      assert a + b == b;
    } else {
      hide Layout, LE;
      LayoutAppend(a[1..], b);
      assert (a + b)[1..] == a[1..] + b;
      LayoutHead(a + b);
      LayoutHead(a);
      Assoc(LE(a[0].v, a[0].n), Layout(a[1..]), Layout(b));
    }
  }

  lemma LayoutOne(f: Fld)
    ensures Layout([f]) == LE(f.v, f.n)
  {
  }

  lemma {:induction false} LayoutSize(fs: seq<Fld>)
    ensures |Layout(fs)| == Width(fs, |fs|)
    decreases |fs|
  {
    if fs != [] {
      LayoutSize(fs[1..]);
    }
  }

  lemma {:induction false} WidthAppend(a: seq<Fld>, b: seq<Fld>, i: nat)
    ensures Width(a + b, |a| + i) == Width(a, |a|) + Width(b, i)
    ensures i <= |a| ==> Width(a + b, i) == Width(a, i)
    decreases |a|
  {
    if a == [] {
      assert a + b == b;
    } else {
      WidthAppend(a[1..], b, i);
      if 0 < i <= |a| {
        WidthAppend(a[1..], b, i - 1);
      }
      assert (a + b)[1..] == a[1..] + b;
    }
  }

  /** Each field follows the one before it. */
  lemma {:induction false} WidthNext(fs: seq<Fld>, i: nat)
    requires i < |fs|
    ensures Width(fs, i + 1) == Width(fs, i) + fs[i].n
    decreases i
  {
    if i > 0 {
      WidthNext(fs[1..], i - 1);
    }
  }

  lemma {:induction false} UniformWidth(fs: seq<Fld>, w: nat, i: nat)
    requires i <= |fs| && forall k :: 0 <= k < |fs| ==> fs[k].n == w
    ensures Width(fs, i) == w * i
    decreases i
  {
    if i > 0 {
      UniformWidth(fs[1..], w, i - 1);
      assert w * i == w + w * (i - 1);
    }
  }

  lemma SliceMiddle(pre: bytes, x: bytes, post: bytes)
    ensures (pre + (x + post))[|pre|..|pre| + |x|] == x
  {
  }

  /** The `i`-th field of a layout in the middle of a file reads back. */
  lemma {:induction false} LayoutField(file: bytes, pre: bytes, fs: seq<Fld>, post: bytes, i: nat)
    requires file == pre + (Layout(fs) + post) && i < |fs| && fs[i].v < Power(fs[i].n)
    ensures |pre| + Width(fs, i) + fs[i].n <= |file|
    ensures Field(file, |pre| + Width(fs, i), fs[i].n) == fs[i].v
    decreases |fs|
  {
    hide Layout, LE, Power;
    var x, rest := LE(fs[0].v, fs[0].n), Layout(fs[1..]);
    LayoutHead(fs);
    Assoc(x, rest, post);
    if i == 0 {
      SliceMiddle(pre, x, rest + post);
      FieldRoundTrip(fs[0].v, fs[0].n);
    } else {
      Assoc(pre, x, rest + post);
      LayoutField(file, pre + x, fs[1..], post, i - 1);
    }
  }

  /** A field of a slice is a field of the file. */
  lemma SliceField(file: bytes, at: nat, size: nat, off: nat, n: nat)
    requires at + size <= |file| && off + n <= size
    ensures Field(file[at..at + size], off, n) == Field(file, at + off, n)
  {
    hide FromLE;
    var x, y := file[at..at + size][off..off + n], file[at + off..at + off + n];
    forall k | 0 <= k < n ensures x[k] == y[k] {
      assert x[k] == file[at..at + size][off + k] == file[at + off + k];
    }
    assert x == y;
  }

  // ----- regions: parts of any size, one after the other -----

  function Join(parts: seq<bytes>): bytes {
    if parts == [] then [] else Join(parts[..|parts| - 1]) + parts[|parts| - 1]
  }

  lemma JoinAppend(parts: seq<bytes>, part: bytes)
    ensures Join(parts + [part]) == Join(parts) + part
  {
    assert (parts + [part])[..|parts|] == parts;
  }

  lemma {:induction false} JoinPrefix(parts: seq<bytes>, i: nat)
    requires i <= |parts|
    ensures Join(parts[..i]) <= Join(parts)
  {
    if i < |parts| {
      JoinPrefix(parts[..|parts| - 1], i);
      assert parts[..|parts| - 1][..i] == parts[..i];
    } else {
      assert parts[..i] == parts;
    }
  }

  /** Where the `i`-th part starts. */
  function Start(parts: seq<bytes>, i: nat): nat
    requires i <= |parts|
  {
    |Join(parts[..i])|
  }

  lemma StartsGrow(parts: seq<bytes>, i: nat, j: nat)
    requires i <= j <= |parts|
    ensures Start(parts, i) <= Start(parts, j) <= |Join(parts)|
  {
    assert parts[..j][..i] == parts[..i];
    JoinPrefix(parts[..j], i);
    JoinPrefix(parts, j);
  }

  /** The `i`-th part lies between its start and the next one's. */
  lemma PartSlice(parts: seq<bytes>, i: nat)
    requires i < |parts|
    ensures Start(parts, i + 1) == Start(parts, i) + |parts[i]| <= |Join(parts)|
    ensures Join(parts)[Start(parts, i)..Start(parts, i + 1)] == parts[i]
  {
    assert parts[..i + 1][..i] == parts[..i];
    JoinPrefix(parts, i + 1);
  }

  lemma StartEnds(parts: seq<bytes>)
    ensures Start(parts, 0) == 0 && Start(parts, |parts|) == |Join(parts)|
  {
    assert parts[..|parts|] == parts;
  }
}
