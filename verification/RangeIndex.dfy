/** The range-fetched n-gram index: its byte layout and writer (transcode.go, monolithbuild.go,
    rust/src/build.rs) and the reader that fetches one dictionary block at a time (reader.go). */
module RangeIndex {
  import opened Wrappers
  import opened Bytes
  import Ordered
  import Sorting

  const MAGIC: nat := 0x49535252
  const VERSION_FOLDED := 3
  const VERSION_CASED := 4
  const FLAG_CASED := 1
  const DEFAULT_STRIDE := 512
  const DICT_ENTRY := 20
  const MAX_READ: nat := 0x4000_0000

  datatype Entry = Entry(key: nat, posting: bytes)

  // ----- the layout -----

  function HeaderSize(fold: bool): nat { if fold then 16 else 18 }

  function HeaderFields(gram: nat, n: nat, stride: nat, fold: bool): seq<Fld> {
    [Fld(MAGIC, 4), Fld(if fold then VERSION_FOLDED else VERSION_CASED, 2), Fld(gram, 2), Fld(n, 4), Fld(stride, 4)] +
    if fold then [] else [Fld(FLAG_CASED, 2)]
  }

  /** How many keys the sparse index holds: every `stride`-th of `n`. */
  function SparseCount(n: nat, stride: nat): nat {
    if stride == 0 then 0 else (n + stride - 1) / stride
  }

  lemma CeilingBounds(n: nat, stride: nat)
    requires stride > 0
    ensures var c := SparseCount(n, stride); c * stride < n + stride && n <= c * stride
  {
  }

  lemma TimesMonotone(a: nat, b: nat, c: nat)
    requires a <= b
    ensures a * c <= b * c
  {
  }

  lemma TimesSucc(a: nat, c: nat)
    ensures (a + 1) * c == a * c + c
  {
  }

  /** The `i`-th stride starts within `n` entries exactly when it has a sparse key. */
  lemma SparseCountMeans(n: nat, stride: nat, i: nat)
    requires stride > 0
    ensures i < SparseCount(n, stride) <==> i * stride < n
  {
    var c := SparseCount(n, stride);
    CeilingBounds(n, stride);
    hide SparseCount;
    if i < c {
      TimesMonotone(i + 1, c, stride);
      TimesSucc(i, stride);
    } else {
      TimesMonotone(c, i, stride);
    }
  }

  function KeyAt(entries: seq<Entry>, p: nat): nat {
    if p < |entries| then entries[p].key else 0
  }

  function SparseFields(entries: seq<Entry>, stride: nat, i: nat): (fs: seq<Fld>)
    ensures |fs| == i && forall k :: 0 <= k < i ==> fs[k] == Fld(KeyAt(entries, k * stride), 8)
  {
    if i == 0 then [] else SparseFields(entries, stride, i - 1) + [Fld(KeyAt(entries, (i - 1) * stride), 8)]
  }

  function PostingsOf(entries: seq<Entry>): (ps: seq<bytes>)
    ensures |ps| == |entries| && forall k :: 0 <= k < |ps| ==> ps[k] == entries[k].posting
  {
    seq(|entries|, k requires 0 <= k < |entries| => entries[k].posting)
  }

  /** The first `i` dictionary rows: key, absolute posting offset, posting size. */
  function DictFields(entries: seq<Entry>, at: nat, i: nat): (fs: seq<Fld>)
    requires i <= |entries|
    ensures |fs| == 3 * i
  {
    if i == 0 then []
    else DictFields(entries, at, i - 1) + DictRow(entries, at, i - 1)
  }

  function DictRow(entries: seq<Entry>, at: nat, i: nat): (fs: seq<Fld>)
    requires i < |entries|
    ensures |fs| == 3
  {
    [Fld(entries[i].key, 8), Fld(at + Start(PostingsOf(entries), i), 8), Fld(|entries[i].posting|, 4)]
  }

  function DictStart(n: nat, stride: nat, fold: bool): nat
  {
    HeaderSize(fold) + 8 * SparseCount(n, stride)
  }

  function PostingsStart(n: nat, stride: nat, fold: bool): nat
  {
    DictStart(n, stride, fold) + DICT_ENTRY * n
  }

  function Sparse(es: seq<Entry>, stride: nat): (fs: seq<Fld>)
    ensures |fs| == SparseCount(|es|, stride)
  {
    SparseFields(es, stride, SparseCount(|es|, stride))
  }

  function Dict(es: seq<Entry>, stride: nat, fold: bool): (fs: seq<Fld>)
    ensures |fs| == 3 * |es|
  {
    DictFields(es, PostingsStart(|es|, stride, fold), |es|)
  }

  /** Everything before the postings. */
  function MetaFields(gram: nat, stride: nat, es: seq<Entry>, fold: bool): seq<Fld> {
    HeaderFields(gram, |es|, stride, fold) + Sparse(es, stride) + Dict(es, stride, fold)
  }

  /** The index file of key-sorted `entries`. */
  function FileOf(gram: nat, stride: nat, entries: seq<Entry>, fold: bool): bytes
  {
    Layout(MetaFields(gram, stride, entries, fold)) + Join(PostingsOf(entries))
  }

  // ----- an index as a map, and its one sorted list of entries -----

  type Index = map<nat, bytes>

  function EntriesFor(keys: seq<nat>, m: Index): (es: seq<Entry>)
    requires forall k :: k in keys ==> k in m
    ensures |es| == |keys| && forall i :: 0 <= i < |keys| ==> es[i] == Entry(keys[i], m[keys[i]])
  {
    seq(|keys|, i requires 0 <= i < |keys| => Entry(keys[i], m[keys[i]]))
  }

  lemma KeysListed(s: set<nat>)
    ensures forall k :: k in Ordered.Ascending(s) <==> k in s
  {
    Ordered.AscendingLists(s);
  }

  /** The entries of `m` by ascending key. */
  function EntriesOf(m: Index): seq<Entry> {
    KeysListed(m.Keys);
    EntriesFor(Ordered.Ascending(m.Keys), m)
  }

  ghost predicate KeySorted(es: seq<Entry>) {
    forall i, j :: 0 <= i < j < |es| ==> es[i].key < es[j].key
  }

  ghost predicate Describes(es: seq<Entry>, m: Index) {
    && KeySorted(es)
    && (forall i :: 0 <= i < |es| ==> es[i].key in m && m[es[i].key] == es[i].posting)
    && (forall k :: k in m ==> exists i :: 0 <= i < |es| && es[i].key == k)
  }

  lemma ListingIndex(q: seq<nat>, s: set<nat>, k: nat)
    requires Ordered.Lists(q, s) && k in s
    ensures exists i :: 0 <= i < |q| && q[i] == k
  {
    assert k in q;
  }

  lemma ListedDescribe(q: seq<nat>, es: seq<Entry>, m: Index)
    requires Ordered.Lists(q, m.Keys) && |es| == |q|
    requires forall i :: 0 <= i < |q| ==> es[i].key == q[i] && q[i] in m && es[i].posting == m[q[i]]
    ensures Describes(es, m)
  {
    forall k | k in m ensures exists i :: 0 <= i < |es| && es[i].key == k {
      ListingIndex(q, m.Keys, k);
      var i :| 0 <= i < |q| && q[i] == k;
      assert es[i].key == k;
    }
  }

  lemma EntriesDescribe(m: Index)
    ensures Describes(EntriesOf(m), m) && |EntriesOf(m)| == |m|
  {
    hide Describes, Ordered.Ascending;
    Ordered.AscendingLists(m.Keys);
    var q := Ordered.Ascending(m.Keys);
    assert forall i :: 0 <= i < |q| ==> q[i] in q;
    ListedDescribe(q, EntriesOf(m), m);
  }

  /** A map has only one key-sorted list of entries. */
  lemma EntriesUnique(es: seq<Entry>, m: Index)
    requires Describes(es, m)
    ensures es == EntriesOf(m)
  {
    var q := seq(|es|, i requires 0 <= i < |es| => es[i].key);
    forall k ensures k in m.Keys <==> k in q {
      if k in m {
        var i :| 0 <= i < |es| && es[i].key == k;
        assert q[i] == k;
      }
    }
    Ordered.AscendingUnique(m.Keys, q);
    hide Describes;
    assert forall i :: 0 <= i < |es| ==> es[i] == EntriesOf(m)[i] by {
      ListedEntries(es, m);
    }
  }

  lemma ListedEntries(es: seq<Entry>, m: Index)
    requires Describes(es, m)
    requires seq(|es|, i requires 0 <= i < |es| => es[i].key) == Ordered.Ascending(m.Keys)
    ensures |EntriesOf(m)| == |es| && forall i :: 0 <= i < |es| ==> es[i] == EntriesOf(m)[i]
  {
    KeysListed(m.Keys);
    var q := Ordered.Ascending(m.Keys);
    assert forall i :: 0 <= i < |es| ==> q[i] == es[i].key;
  }

  /** What the format can hold. */
  ghost predicate Fits(gram: nat, stride: nat, m: Index, fold: bool)
  {
    && gram < TWO_16 && 0 < stride < TWO_32 && |m| < TWO_32
    && (forall k :: k in m ==> k < TWO_64 && |m[k]| < TWO_32)
    && |FileOf(gram, stride, EntriesOf(m), fold)| < TWO_64
  }

  // ----- where each part of the file lies -----

  ghost predicate FieldsAt(file: bytes, off: nat, v: nat, n: nat) {
    off + n <= |file| && Field(file, off, n) == v
  }

  lemma HeaderWidths(gram: nat, n: nat, stride: nat, fold: bool)
    ensures var h := HeaderFields(gram, n, stride, fold);
            && Width([], 0) == 0 && Width(h, 0) == 0 && Width(h, 1) == 4 && Width(h, 2) == 6 && Width(h, 3) == 8
            && Width(h, 4) == 12
            && Width(h, 5) == 16 && Width(h, |h|) == HeaderSize(fold)
  {
    var h := HeaderFields(gram, n, stride, fold);
    assert Width(h[4..], 1) == 4 && (!fold ==> Width(h[5..], 1) == 2 && Width(h[4..], 2) == 6);
    assert forall k :: 0 < k <= 2 && k <= |h| - 4 ==> Width(h[3..], k + 1) == 4 + Width(h[4..], k);
    assert Width(h[3..], 1) == 4 && Width(h[2..], 1) == 2 && Width(h[2..], 2) == 6 && Width(h[1..], 1) == 2;
    assert Width(h[1..], 2) == 4 && Width(h[1..], 3) == 8 && Width(h[2..], 3) == 10 && Width(h[1..], 4) == 12;
    assert !fold ==> Width(h[3..], 3) == 10 && Width(h[2..], 4) == 12 && Width(h[1..], 5) == 14;
  }

  lemma {:induction false} DictWidths(entries: seq<Entry>, at: nat, i: nat)
    requires i <= |entries|
    ensures Width(DictFields(entries, at, i), 3 * i) == DICT_ENTRY * i
  {
    if i > 0 {
      DictWidths(entries, at, i - 1);
      var row := DictRow(entries, at, i - 1);
      assert Width(row, 3) == 20 by {
        assert Width(row[2..], 1) == 4 && Width(row[1..], 2) == 12;
      }
      hide Width, DictRow;
      WidthAppend(DictFields(entries, at, i - 1), row, 3);
    }
  }

  lemma RowWidths(entries: seq<Entry>, at: nat, i: nat, j: nat)
    requires i < |entries| && j < 3
    ensures Width(DictRow(entries, at, i), j) == 8 * j
  {
    var row := DictRow(entries, at, i);
    assert Width(row[1..], 1) == 8;
  }

  /** Row `p` of the dictionary: three fields, 20 bytes in per row before it. */
  lemma {:induction false} DictFieldAt(entries: seq<Entry>, at: nat, i: nat, p: nat, j: nat)
    requires p < i <= |entries| && j < 3
    ensures var fs := DictFields(entries, at, i);
            fs[3 * p + j] == DictRow(entries, at, p)[j] && Width(fs, 3 * p + j) == DICT_ENTRY * p + 8 * j
  {
    hide Width, DictRow;
    var front, row := DictFields(entries, at, i - 1), DictRow(entries, at, i - 1);
    if p == i - 1 {
      DictWidths(entries, at, p);
      RowWidths(entries, at, p, j);
      WidthAppend(front, row, j);
    } else {
      DictFieldAt(entries, at, i - 1, p, j);
      WidthAppend(front, row, 3 * p + j);
    }
  }

  lemma SparseWidth(es: seq<Entry>, stride: nat, k: nat)
    requires k <= SparseCount(|es|, stride)
    ensures Width(Sparse(es, stride), k) == 8 * k
  {
    hide Width, SparseCount;
    UniformWidth(Sparse(es, stride), 8, k);
  }

  lemma MiddleWidth(a: seq<Fld>, b: seq<Fld>, c: seq<Fld>, k: nat)
    requires k < |b|
    ensures Width(a + b + c, |a| + k) == Width(a, |a|) + Width(b, k)
    ensures |a| + k < |a + b + c| && (a + b + c)[|a| + k] == b[k]
  {
    hide Width;
    WidthAppend(a + b, c, |a| + k);
    WidthAppend(a, b, k);
  }

  /** A field of the middle one of three groups reads back. */
  lemma GroupField(file: bytes, a: seq<Fld>, b: seq<Fld>, c: seq<Fld>, post: bytes, k: nat)
    requires file == Layout(a + b + c) + post && k < |b| && b[k].v < Power(b[k].n)
    ensures FieldsAt(file, Width(a, |a|) + Width(b, k), b[k].v, b[k].n)
  {
    hide Layout, Width, Power, Field;
    MiddleWidth(a, b, c, k);
    var fs := a + b + c;
    assert file == [] + (Layout(fs) + post);
    LayoutField(file, [], fs, post, |a| + k);
  }

  lemma LastGroupField(file: bytes, a: seq<Fld>, b: seq<Fld>, post: bytes, k: nat)
    requires file == Layout(a + b) + post && k < |b| && b[k].v < Power(b[k].n)
    ensures FieldsAt(file, Width(a, |a|) + Width(b, k), b[k].v, b[k].n)
  {
    assert a + b == a + b + [];
    hide Layout, Width, Power, FieldsAt;
    GroupField(file, a, b, [], post, k);
  }

  /** What the writer promises the file holds, in the terms a reader addresses it by. */
  ghost predicate LaidOut(file: bytes, gram: nat, stride: nat, es: seq<Entry>, fold: bool)
  {
    && HeaderAt(file, gram, stride, |es|, fold)
    && (forall i: nat :: i < SparseCount(|es|, stride) ==> SparseAt(file, stride, es, fold, i))
    && (forall p: nat :: p < |es| ==> RowAt(file, stride, es, fold, p))
    && |file| == PostingsStart(|es|, stride, fold) + |Join(PostingsOf(es))|
  }

  ghost predicate HeaderAt(file: bytes, gram: nat, stride: nat, n: nat, fold: bool) {
    && FieldsAt(file, 0, MAGIC, 4) && FieldsAt(file, 4, if fold then VERSION_FOLDED else VERSION_CASED, 2)
    && FieldsAt(file, 6, gram, 2) && FieldsAt(file, 8, n, 4) && FieldsAt(file, 12, stride, 4)
    && (!fold ==> FieldsAt(file, 16, FLAG_CASED, 2))
  }

  ghost predicate SparseAt(file: bytes, stride: nat, es: seq<Entry>, fold: bool, i: nat) {
    FieldsAt(file, HeaderSize(fold) + 8 * i, KeyAt(es, i * stride), 8)
  }

  /** Row `p` of the dictionary names the key, the place and the size of its posting, which lies there. */
  ghost predicate RowAt(file: bytes, stride: nat, es: seq<Entry>, fold: bool, p: nat)
    requires p < |es|
  {
    var at := DictStart(|es|, stride, fold) + DICT_ENTRY * p;
    var off, size := PostingAt(stride, es, fold, p), |es[p].posting|;
    && FieldsAt(file, at, es[p].key, 8) && FieldsAt(file, at + 8, off, 8) && FieldsAt(file, at + 16, size, 4)
    && ReadAt(file, off, size) == Some(es[p].posting)
  }

  function PostingAt(stride: nat, es: seq<Entry>, fold: bool, p: nat): nat
    requires p <= |es|
  {
    PostingsStart(|es|, stride, fold) + Start(PostingsOf(es), p)
  }

  lemma HeaderLaidOut(gram: nat, stride: nat, es: seq<Entry>, fold: bool)
    requires stride < TWO_32 && gram < TWO_16 && |es| < TWO_32
    ensures HeaderAt(FileOf(gram, stride, es, fold), gram, stride, |es|, fold)
  {
    hide Width, Sparse, Dict, SparseCount, Layout, Power, FieldsAt, Join, PostingsOf;
    var file, h := FileOf(gram, stride, es, fold), HeaderFields(gram, |es|, stride, fold);
    var rest, post := Sparse(es, stride) + Dict(es, stride, fold), Join(PostingsOf(es));
    assert MetaFields(gram, stride, es, fold) == [] + h + rest;
    HeaderWidths(gram, |es|, stride, fold);
    PowerLiterals();
    GroupField(file, [], h, rest, post, 0);
    GroupField(file, [], h, rest, post, 1);
    GroupField(file, [], h, rest, post, 2);
    GroupField(file, [], h, rest, post, 3);
    GroupField(file, [], h, rest, post, 4);
    if !fold {
      GroupField(file, [], h, rest, post, 5);
    }
  }

  lemma SparseLaidOut(gram: nat, stride: nat, es: seq<Entry>, fold: bool, i: nat)
    requires i < SparseCount(|es|, stride) && KeyAt(es, i * stride) < TWO_64
    ensures SparseAt(FileOf(gram, stride, es, fold), stride, es, fold, i)
  {
    var h, s := HeaderFields(gram, |es|, stride, fold), Sparse(es, stride);
    HeaderWidths(gram, |es|, stride, fold);
    SparseWidth(es, stride, i);
    PowerLiterals();
    assert s[i] == Fld(KeyAt(es, i * stride), 8);
    hide Width, HeaderFields, Sparse, Dict, KeyAt, SparseCount, Layout, Power, FieldsAt, Join;
    GroupField(FileOf(gram, stride, es, fold), h, s, Dict(es, stride, fold), Join(PostingsOf(es)), i);
  }

  /** How many bytes the header and the sparse index take. */
  lemma HeadWidth(gram: nat, stride: nat, es: seq<Entry>, fold: bool, d: seq<Fld>, k: nat)
    ensures var a := HeaderFields(gram, |es|, stride, fold) + Sparse(es, stride);
            && Width(a, |a|) == DictStart(|es|, stride, fold)
            && Width(a + d, |a| + k) == DictStart(|es|, stride, fold) + Width(d, k)
  {
    hide Width, HeaderFields, Sparse, SparseCount;
    var h, s := HeaderFields(gram, |es|, stride, fold), Sparse(es, stride);
    HeaderWidths(gram, |es|, stride, fold);
    SparseWidth(es, stride, |s|);
    WidthAppend(h, s, |s|);
    WidthAppend(h + s, d, k);
  }

  lemma MetaSize(gram: nat, stride: nat, es: seq<Entry>, fold: bool)
    ensures |Layout(MetaFields(gram, stride, es, fold))| == PostingsStart(|es|, stride, fold)
  {
    hide Width, HeaderFields, Sparse, Layout, SparseCount, DictStart, DictFields;
    var d := Dict(es, stride, fold);
    HeadWidth(gram, stride, es, fold, d, |d|);
    DictWidths(es, PostingsStart(|es|, stride, fold), |es|);
    LayoutSize(MetaFields(gram, stride, es, fold));
  }

  lemma DictLaidOut(gram: nat, stride: nat, es: seq<Entry>, fold: bool, p: nat, j: nat, f: Fld)
    requires p < |es| && j < 3 && f == DictRow(es, PostingsStart(|es|, stride, fold), p)[j] && f.v < Power(f.n)
    ensures FieldsAt(FileOf(gram, stride, es, fold), DictStart(|es|, stride, fold) + DICT_ENTRY * p + 8 * j, f.v, f.n)
  {
    hide Width, HeaderFields, Sparse, DictFields, DictRow, Layout, Power, FieldsAt, Join, SparseCount, PostingsOf,
         PostingsStart, DictStart;
    var a, d := HeaderFields(gram, |es|, stride, fold) + Sparse(es, stride), Dict(es, stride, fold);
    HeadWidth(gram, stride, es, fold, [], 0);
    DictFieldAt(es, PostingsStart(|es|, stride, fold), |es|, p, j);
    LastGroupField(FileOf(gram, stride, es, fold), a, d, Join(PostingsOf(es)), 3 * p + j);
  }

  lemma SliceOfTail(meta: bytes, post: bytes, at: nat, x: bytes)
    requires at + |x| <= |post| && post[at..at + |x|] == x
    ensures ReadAt(meta + post, |meta| + at, |x|) == Some(x)
  {
    assert (meta + post)[|meta| + at..|meta| + at + |x|] == post[at..at + |x|];
  }

  lemma PostingLaidOut(gram: nat, stride: nat, es: seq<Entry>, fold: bool, p: nat)
    requires p < |es|
    ensures PostingAt(stride, es, fold, p) <= |FileOf(gram, stride, es, fold)|
    ensures ReadAt(FileOf(gram, stride, es, fold), PostingAt(stride, es, fold, p), |es[p].posting|)
            == Some(es[p].posting)
  {
    hide Layout, MetaFields, PostingsStart, Join, Start, ReadAt;
    var meta, ps := Layout(MetaFields(gram, stride, es, fold)), PostingsOf(es);
    MetaSize(gram, stride, es, fold);
    StartsGrow(ps, p, |ps|);
    PostingSlice(ps, p);
    SliceOfTail(meta, Join(ps), Start(ps, p), ps[p]);
  }

  lemma PostingSlice(ps: seq<bytes>, p: nat)
    requires p < |ps|
    ensures Start(ps, p) + |ps[p]| <= |Join(ps)| && Join(ps)[Start(ps, p)..Start(ps, p) + |ps[p]|] == ps[p]
  {
    hide Join, Start;
    PartSlice(ps, p);
  }

  lemma RowLaidOut(gram: nat, stride: nat, es: seq<Entry>, fold: bool, p: nat)
    requires p < |es| && es[p].key < TWO_64 && |es[p].posting| < TWO_32
    requires |FileOf(gram, stride, es, fold)| < TWO_64
    ensures RowAt(FileOf(gram, stride, es, fold), stride, es, fold, p)
  {
    hide FileOf, Power, FieldsAt, PostingsStart, DictStart, Join, Start, PostingsOf, ReadAt;
    PowerLiterals();
    PostingLaidOut(gram, stride, es, fold, p);
    var row := DictRow(es, PostingsStart(|es|, stride, fold), p);
    DictLaidOut(gram, stride, es, fold, p, 0, row[0]);
    DictLaidOut(gram, stride, es, fold, p, 1, row[1]);
    DictLaidOut(gram, stride, es, fold, p, 2, row[2]);
  }

  lemma EntriesLaidOut(gram: nat, stride: nat, es: seq<Entry>, fold: bool)
    requires stride < TWO_32 && gram < TWO_16 && |es| < TWO_32 && |FileOf(gram, stride, es, fold)| < TWO_64
    requires forall p :: 0 <= p < |es| ==> es[p].key < TWO_64 && |es[p].posting| < TWO_32
    ensures LaidOut(FileOf(gram, stride, es, fold), gram, stride, es, fold)
  {
    var file := FileOf(gram, stride, es, fold);
    MetaSize(gram, stride, es, fold);
    assert |file| == PostingsStart(|es|, stride, fold) + |Join(PostingsOf(es))|;
    assert forall p: nat :: KeyAt(es, p) < TWO_64;
    hide FileOf, MetaFields, Layout, PostingsStart, SparseCount, HeaderAt, SparseAt, RowAt, DictStart, KeyAt, Join;
    HeaderLaidOut(gram, stride, es, fold);
    forall i: nat | i < SparseCount(|es|, stride) ensures SparseAt(file, stride, es, fold, i) {
      SparseLaidOut(gram, stride, es, fold, i);
    }
    forall p: nat | p < |es| ensures RowAt(file, stride, es, fold, p) {
      RowLaidOut(gram, stride, es, fold, p);
    }
  }

  /** Everything the writer puts in the file is where a reader looks for it. */
  lemma WrittenLaidOut(gram: nat, stride: nat, m: Index, fold: bool)
    requires Fits(gram, stride, m, fold)
    ensures LaidOut(FileOf(gram, stride, EntriesOf(m), fold), gram, stride, EntriesOf(m), fold)
  {
    var es := EntriesOf(m);
    EntriesDescribe(m);
    hide LaidOut, FileOf, EntriesOf, KeySorted;
    EntriesLaidOut(gram, stride, es, fold);
  }

  /** The dictionary's ranges tile the postings region: each ends where the next begins, the
      first begins the region and the last ends the file. */
  lemma RangesTile(gram: nat, stride: nat, es: seq<Entry>, fold: bool)
    ensures PostingAt(stride, es, fold, 0) == PostingsStart(|es|, stride, fold)
    ensures forall p :: 0 <= p < |es| ==>
              PostingAt(stride, es, fold, p + 1) == PostingAt(stride, es, fold, p) + |es[p].posting|
    ensures PostingAt(stride, es, fold, |es|) == |FileOf(gram, stride, es, fold)|
  {
    var ps := PostingsOf(es);
    MetaSize(gram, stride, es, fold);
    StartEnds(ps);
    hide PostingsStart, MetaFields, Layout, Start;
    forall p | 0 <= p < |es| ensures Start(ps, p + 1) == Start(ps, p) + |es[p].posting| {
      PartSlice(ps, p);
    }
  }

  // ----- the writer -----

  lemma SparseStep(es: seq<Entry>, stride: nat, i: nat)
    requires i * stride < |es|
    ensures Layout(SparseFields(es, stride, i + 1)) == Layout(SparseFields(es, stride, i)) + LE(es[i * stride].key, 8)
  {
    hide Layout, LE;
    LayoutAppend(SparseFields(es, stride, i), [Fld(es[i * stride].key, 8)]);
    LayoutOne(Fld(es[i * stride].key, 8));
  }

  lemma DictStep(es: seq<Entry>, at: nat, i: nat)
    requires i < |es|
    ensures Layout(DictFields(es, at, i + 1)) == Layout(DictFields(es, at, i))
            + (LE(es[i].key, 8) + LE(at + Start(PostingsOf(es), i), 8) + LE(|es[i].posting|, 4))
    ensures Start(PostingsOf(es), i + 1) == Start(PostingsOf(es), i) + |es[i].posting|
  {
    hide LE, Start, Join;
    var row := DictRow(es, at, i);
    assert Layout(row) == LE(row[0].v, 8) + LE(row[1].v, 8) + LE(row[2].v, 4) by {
      LayoutOne(row[2]);
      assert row[1..][1..] == [row[2]] && row[2..] == [row[2]];
      Assoc(LE(row[0].v, 8), LE(row[1].v, 8), LE(row[2].v, 4));
    }
    PartSlice(PostingsOf(es), i);
    hide Layout, DictRow;
    LayoutAppend(DictFields(es, at, i), row);
  }

  lemma PostingStep(es: seq<Entry>, i: nat)
    requires i < |es|
    ensures Join(PostingsOf(es)[..i + 1]) == Join(PostingsOf(es)[..i]) + es[i].posting
  {
    hide Join;
    assert PostingsOf(es)[..i + 1] == PostingsOf(es)[..i] + [es[i].posting];
    JoinAppend(PostingsOf(es)[..i], es[i].posting);
  }

  /** Writes key-sorted entries: header, sparse keys, dictionary, postings. */
  method WriteSorted(gram: nat, stride: nat, es: seq<Entry>, fold: bool) returns (out: bytes)
    requires stride > 0
    ensures out == FileOf(gram, stride, es, fold)
  {
    hide Layout, LE, Join, DictFields, SparseFields, HeaderFields, Start, PostingsOf;
    var n := |es|;
    var sparseCount := (n + stride - 1) / stride;
    var dictStart := (if fold then 16 else 18) + sparseCount * 8;
    var postingsStart := dictStart + n * DICT_ENTRY;
    LayoutEmpty(es, stride, postingsStart);

    var sparse := [];
    for i := 0 to sparseCount
      invariant sparse == Layout(SparseFields(es, stride, i))
    {
      SparseCountMeans(n, stride, i);
      SparseStep(es, stride, i);
      sparse := sparse + LE(es[i * stride].key, 8);
    }

    var dict, off := [], postingsStart;
    for i := 0 to n
      invariant off == postingsStart + Start(PostingsOf(es), i)
      invariant dict == Layout(DictFields(es, postingsStart, i))
    {
      DictStep(es, postingsStart, i);
      dict := dict + (LE(es[i].key, 8) + LE(off, 8) + LE(|es[i].posting|, 4));
      off := off + |es[i].posting|;
    }

    var posts := [];
    for i := 0 to n
      invariant posts == Join(PostingsOf(es)[..i])
    {
      PostingStep(es, i);
      posts := posts + es[i].posting;
    }
    assert PostingsOf(es)[..n] == PostingsOf(es);
    LayoutAppend(HeaderFields(gram, n, stride, fold) + Sparse(es, stride), Dict(es, stride, fold));
    LayoutAppend(HeaderFields(gram, n, stride, fold), Sparse(es, stride));
    out := Layout(HeaderFields(gram, n, stride, fold)) + sparse + dict + posts;
  }

  lemma LayoutEmpty(es: seq<Entry>, stride: nat, at: nat)
    ensures Layout(SparseFields(es, stride, 0)) == [] && Layout(DictFields(es, at, 0)) == []
    ensures Start(PostingsOf(es), 0) == 0 && Join(PostingsOf(es)[..0]) == []
  {
  }

  ghost predicate DistinctKeys(entries: seq<Entry>) {
    forall i, j :: 0 <= i < j < |entries| ==> entries[i].key != entries[j].key
  }

  /** The map a list of entries stands for. */
  function MapOf(entries: seq<Entry>): (m: Index)
    ensures forall k :: k in m <==> exists i :: 0 <= i < |entries| && entries[i].key == k
  {
    if entries == [] then map[]
    else
      var last := entries[|entries| - 1];
      var m := MapOf(entries[..|entries| - 1]);
      assert forall k :: k in m[last.key := last.posting] ==> k in m || entries[|entries| - 1].key == k;
      assert forall i :: 0 <= i < |entries| - 1 ==> entries[i] == entries[..|entries| - 1][i];
      m[last.key := last.posting]
  }

  lemma {:induction false} MapOfHolds(entries: seq<Entry>, i: nat)
    requires i < |entries| && DistinctKeys(entries)
    ensures MapOf(entries)[entries[i].key] == entries[i].posting
  {
    if i < |entries| - 1 {
      MapOfHolds(entries[..|entries| - 1], i);
    }
  }

  function Keys(entries: seq<Entry>): (ks: seq<nat>)
    ensures |ks| == |entries| && forall i :: 0 <= i < |ks| ==> ks[i] == entries[i].key
  {
    seq(|entries|, i requires 0 <= i < |entries| => entries[i].key)
  }

  ghost predicate Rearranged(entries: seq<Entry>, order: seq<nat>, es: seq<Entry>) {
    && Sorting.IsOrder(order, Keys(entries)) && |es| == |order|
    && (forall i :: 0 <= i < |order| ==> es[i] == entries[order[i]])
  }

  lemma RearrangedSorted(entries: seq<Entry>, order: seq<nat>, es: seq<Entry>)
    requires Rearranged(entries, order, es)
    requires forall i :: 0 < i < |es| ==> es[i].key != es[i - 1].key
    ensures KeySorted(es)
  {
    forall i, j | 0 <= i < j < |es| ensures es[i].key < es[j].key {
      assert es[i].key <= es[j - 1].key && es[j - 1].key <= es[j].key;
    }
  }

  lemma RearrangedIndex(entries: seq<Entry>, order: seq<nat>, es: seq<Entry>, j: nat) returns (a: nat)
    requires Rearranged(entries, order, es) && j < |entries|
    ensures a < |es| == |order| && order[a] == j && es[a] == entries[j]
  {
    assert j in order;
    a :| 0 <= a < |order| && order[a] == j;
  }

  lemma RearrangedDistinct(entries: seq<Entry>, order: seq<nat>, es: seq<Entry>)
    requires Rearranged(entries, order, es) && KeySorted(es)
    ensures DistinctKeys(entries)
  {
    forall i, j | 0 <= i < j < |entries| ensures entries[i].key != entries[j].key {
      var a := RearrangedIndex(entries, order, es, i);
      var b := RearrangedIndex(entries, order, es, j);
      assert a < b || b < a;
    }
  }

  /** Sorted entries without equal neighbours are the entries of the map. */
  lemma SortedIsEntriesOf(entries: seq<Entry>, order: seq<nat>, es: seq<Entry>)
    requires Rearranged(entries, order, es)
    requires forall i :: 0 < i < |es| ==> es[i].key != es[i - 1].key
    ensures DistinctKeys(entries) && es == EntriesOf(MapOf(entries))
  {
    RearrangedSorted(entries, order, es);
    RearrangedDistinct(entries, order, es);
    var m := MapOf(entries);
    forall i | 0 <= i < |es| ensures es[i].key in m && m[es[i].key] == es[i].posting {
      assert order[i] < |entries|;
      MapOfHolds(entries, order[i]);
    }
    forall k | k in m ensures exists i :: 0 <= i < |es| && es[i].key == k {
      var j :| 0 <= j < |entries| && entries[j].key == k;
      var a := RearrangedIndex(entries, order, es, j);
      assert es[a].key == k;
    }
    hide MapOf, DistinctKeys, Rearranged;
    EntriesUnique(es, m);
  }

  /** Writes entries given in any order. A stride of zero or less means the default; two
      entries with one key are refused. The outcome depends only on the map they stand for. */
  method WriteIndexWith(gram: nat, stride: int, entries: seq<Entry>, fold: bool) returns (r: Result<bytes>)
    ensures r == if DistinctKeys(entries) then Ok(FileOf(gram, if stride <= 0 then DEFAULT_STRIDE else stride,
                                                         EntriesOf(MapOf(entries)), fold))
                 else Err(DuplicateKey)
  {
    hide FileOf, EntriesOf, MapOf;
    var step := if stride <= 0 then DEFAULT_STRIDE else stride;
    var order := Sorting.SortIndices(Keys(entries));
    var priv := seq(|order|, i requires 0 <= i < |order| => entries[order[i]]);
    var i := 1;
    while i < |priv|
      invariant 1 <= i
      invariant forall k :: 0 < k < i && k < |priv| ==> priv[k].key != priv[k - 1].key
    {
      if priv[i].key == priv[i - 1].key {
        assert order[i] != order[i - 1];
        return Err(DuplicateKey);
      }
      i := i + 1;
    }
    SortedIsEntriesOf(entries, order, priv);
    var out := WriteSorted(gram, step, priv, fold);
    r := Ok(out);
  }
}
