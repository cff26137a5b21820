/** Slicing a written monolith into splits by document range in one pass over its dictionary
    and postings (slice_trigram_monolith.rs). */
module Slicer {
  import opened Wrappers
  import opened Bytes
  import opened Inverted
  import opened Splits
  import opened RangeIndex
  import Ordered

  // ----- doubling document ranges -----

  datatype DocRange = DocRange(lo: nat, hi: nat)

  /** The cursor of the loop: where the next range starts and how long it may be. */
  datatype Cursor = Cursor(lo: nat, size: nat)

  function Advance(c: Cursor, n: nat, max: nat): Cursor {
    Cursor(Min(c.lo + c.size, n), Min(c.size * 2, max))
  }

  function CursorAt(n: nat, base: nat, max: nat, i: nat): Cursor {
    if i == 0 then Cursor(0, base) else Advance(CursorAt(n, base, max, i - 1), n, max)
  }

  /** The size the `i`-th range may have: the first is not capped, the later ones are. */
  function RangeSize(base: nat, max: nat, i: nat): nat {
    if i == 0 then base else Min(base * Pow2(i), max)
  }

  lemma {:induction false} CursorSize(n: nat, base: nat, max: nat, i: nat)
    ensures CursorAt(n, base, max, i).size == RangeSize(base, max, i)
  {
    if i > 0 {
      CursorSize(n, base, max, i - 1);
      assert base * Pow2(i) == base * Pow2(i - 1) * 2 by { Doubled(base, Pow2(i - 1)); }
      assert Pow2(0) == 1;
    }
  }

  lemma Doubled(a: nat, b: nat)
    ensures a * (2 * b) == a * b * 2
  {
  }

  /** What makes the loop end. */
  ghost predicate Ends(n: nat, base: nat, max: nat) {
    n == 0 || (base > 0 && (max > 0 || n <= base))
  }

  lemma {:induction false} CursorGrows(n: nat, base: nat, max: nat, i: nat)
    requires base > 0 && max > 0
    ensures CursorAt(n, base, max, i).lo >= Min(i, n) && CursorAt(n, base, max, i).size > 0
  {
    if i > 0 {
      CursorGrows(n, base, max, i - 1);
    }
  }

  lemma {:induction false} CursorStuck(n: nat, base: nat, max: nat, i: nat)
    requires !Ends(n, base, max)
    ensures CursorAt(n, base, max, i).lo < n
    ensures CursorAt(n, base, max, i).lo <= base && (i > 0 ==> CursorAt(n, base, max, i).size == 0)
  {
    if i > 0 {
      CursorStuck(n, base, max, i - 1);
    }
  }

  /** The loop reaches the end of the documents exactly under `Ends`. */
  lemma RangesEnd(n: nat, base: nat, max: nat)
    ensures (exists i :: CursorAt(n, base, max, i).lo >= n) <==> Ends(n, base, max)
  {
    if !Ends(n, base, max) {
      forall i ensures CursorAt(n, base, max, i).lo < n {
        CursorStuck(n, base, max, i);
      }
    } else if n == 0 || max == 0 {
      assert CursorAt(n, base, max, 0).lo >= n || CursorAt(n, base, max, 1).lo >= n;
    } else {
      CursorGrows(n, base, max, n);
    }
  }

  /** The ranges take up [0, end) contiguously, none of them empty. */
  ghost predicate Partitions(ranges: seq<DocRange>, end: nat) {
    && (forall i :: 0 <= i < |ranges| ==> ranges[i].lo < ranges[i].hi)
    && (ranges != [] ==> ranges[0].lo == 0)
    && (forall i :: 0 < i < |ranges| ==> ranges[i].lo == ranges[i - 1].hi)
    && end == if ranges == [] then 0 else ranges[|ranges| - 1].hi
  }

  /** With `base` 0 the cursor never leaves the first of any documents; with `max` 0 it stops after
      the first range. */
  lemma ZeroNeverEnds(n: nat, max: nat, i: nat)
    ensures CursorAt(n, 0, max, i).lo == 0
    ensures CursorAt(2, 1, 0, i + 1).lo == 1
  {
    StaysAtZero(n, max, i);
    StopsAfterOne(i);
  }

  lemma {:induction false} StaysAtZero(n: nat, max: nat, i: nat)
    ensures CursorAt(n, 0, max, i) == Cursor(0, 0)
  {
    if i > 0 {
      StaysAtZero(n, max, i - 1);
    }
  }

  lemma {:induction false} StopsAfterOne(i: nat)
    ensures CursorAt(2, 1, 0, i + 1) == Cursor(1, 0)
  {
    if i > 0 {
      StopsAfterOne(i - 1);
    } else {
      assert CursorAt(2, 1, 0, 0) == Cursor(0, 1);
    }
  }

  lemma PartitionsAppend(ranges: seq<DocRange>, lo: nat, hi: nat)
    requires Partitions(ranges, lo) && lo < hi
    ensures Partitions(ranges + [DocRange(lo, hi)], hi)
  {
  }

  /** `base` documents, then twice as many each time up to `max`; the last range takes the rest. */
  method GeometricRanges(n: nat, base: nat, max: nat) returns (ranges: seq<DocRange>)
    requires Ends(n, base, max)
    ensures Partitions(ranges, n)
    ensures forall i :: 0 <= i < |ranges| ==> ranges[i].hi == Min(ranges[i].lo + RangeSize(base, max, i), n)
  {
    hide RangeSize;
    ranges := [];
    var lo, size := 0, base;
    while lo < n
      invariant lo <= n && Cursor(lo, size) == CursorAt(n, base, max, |ranges|)
      invariant lo < n ==> size > 0 && (max > 0 || (ranges == [] && lo == 0 && size == base))
      invariant Partitions(ranges, lo)
      invariant forall i :: 0 <= i < |ranges| ==> ranges[i].hi == Min(ranges[i].lo + RangeSize(base, max, i), n)
      decreases n - lo
    {
      CursorSize(n, base, max, |ranges|);
      var hi := Min(lo + size, n);
      PartitionsAppend(ranges, lo, hi);
      ranges := ranges + [DocRange(lo, hi)];
      lo := hi;
      size := Min(size * 2, max);
    }
  }

  // ----- the streaming writer of one split -----

  datatype DictRec = DictRec(key: nat, off: nat, size: nat)

  /** The region, and the dictionary with region-relative offsets, of the pushed entries. */
  ghost predicate Streamed(pushed: seq<Entry>, region: bytes, dict: seq<DictRec>) {
    && region == Join(PostingsOf(pushed)) && |dict| == |pushed|
    && (forall i :: 0 <= i < |dict| ==> dict[i] == DictRec(pushed[i].key, Start(PostingsOf(pushed), i),
                                                           |pushed[i].posting|))
  }

  lemma PushStep(pushed: seq<Entry>, region: bytes, dict: seq<DictRec>, e: Entry)
    requires Streamed(pushed, region, dict)
    ensures Streamed(pushed + [e], region + e.posting, dict + [DictRec(e.key, |region|, |e.posting|)])
  {
    hide Join;
    var ps, more := PostingsOf(pushed), PostingsOf(pushed + [e]);
    assert more == ps + [e.posting];
    JoinAppend(ps, e.posting);
    forall i | 0 <= i <= |ps| ensures more[..i] == ps[..i] {
    }
    assert ps[..|ps|] == ps;
  }

  /** The metadata of the stream is that of the pushed entries, written in one go. */
  lemma StreamedField(pushed: seq<Entry>, region: bytes, dict: seq<DictRec>, at: nat, i: nat)
    requires Streamed(pushed, region, dict) && i < |dict|
    ensures i < |pushed| && dict[i].key == pushed[i].key && dict[i].size == |pushed[i].posting|
    ensures at + dict[i].off == at + Start(PostingsOf(pushed), i)
  {
  }

  class RrsStreamWriter {
    const gram: nat
    const stride: nat
    var region: bytes
    var regionLen: nat
    var dict: seq<DictRec>
    ghost var pushed: seq<Entry>

    ghost predicate Valid()
      reads this
    {
      stride > 0 && regionLen == |region| && Streamed(pushed, region, dict)
    }

    constructor (gram: nat, stride: nat)
      ensures Valid() && pushed == [] && this.gram == gram
              && this.stride == if stride == 0 then DEFAULT_STRIDE else stride
    {
      this.gram, this.stride := gram, if stride == 0 then DEFAULT_STRIDE else stride;
      region, regionLen, dict, pushed := [], 0, [], [];
    }

    /** Appends the next entry in key order. */
    method Push(key: nat, posting: bytes)
      requires Valid()
      modifies this
      ensures Valid() && pushed == old(pushed) + [Entry(key, posting)]
    {
      hide Streamed;
      PushStep(pushed, region, dict, Entry(key, posting));
      region := region + posting;
      dict := dict + [DictRec(key, regionLen, |posting|)];
      regionLen := regionLen + |posting|;
      pushed := pushed + [Entry(key, posting)];
    }

    /** Everything that precedes the region in the final file. */
    method FinishMeta() returns (meta: bytes)
      requires Valid()
      ensures meta == Layout(MetaFields(gram, stride, pushed, true))
      ensures meta + region == FileOf(gram, stride, pushed, true)
    {
      hide Layout, LE, Join, DictFields, SparseFields, HeaderFields, Start, PostingsOf, Streamed;
      var n := |dict|;
      assert n == |pushed| && region == Join(PostingsOf(pushed)) by { StreamedMeans(pushed, region, dict); }
      var sparseCount := if n == 0 then 0 else (n + stride - 1) / stride;
      NoneSparse(n, stride);
      var postingsStart := 16 + sparseCount * 8 + n * 20;
      LayoutEmpty(pushed, stride, postingsStart);
      meta := Layout(HeaderFields(gram, n, stride, true));
      var sparse := [];
      for i := 0 to sparseCount
        invariant sparse == Layout(SparseFields(pushed, stride, i))
      {
        SparseCountMeans(n, stride, i);
        SparseStep(pushed, stride, i);
        StreamedField(pushed, region, dict, 0, i * stride);
        sparse := sparse + LE(dict[i * stride].key, 8);
      }
      var rows := [];
      for i := 0 to n
        invariant rows == Layout(DictFields(pushed, postingsStart, i))
      {
        DictStep(pushed, postingsStart, i);
        StreamedField(pushed, region, dict, postingsStart, i);
        rows := rows + (LE(dict[i].key, 8) + LE(postingsStart + dict[i].off, 8) + LE(dict[i].size, 4));
      }
      LayoutAppend(HeaderFields(gram, n, stride, true) + Sparse(pushed, stride), Dict(pushed, stride, true));
      LayoutAppend(HeaderFields(gram, n, stride, true), Sparse(pushed, stride));
      meta := meta + sparse + rows;
    }
  }

  lemma StreamedMeans(pushed: seq<Entry>, region: bytes, dict: seq<DictRec>)
    requires Streamed(pushed, region, dict)
    ensures |dict| == |pushed| && region == Join(PostingsOf(pushed))
  {
  }

  lemma NoneSparse(n: nat, stride: nat)
    requires stride > 0
    ensures (if n == 0 then 0 else (n + stride - 1) / stride) == SparseCount(n, stride)
  {
    if n == 0 {
      SparseCountMeans(n, stride, 0);
    }
  }

  // ----- one entry, sliced -----

  /** What slicing adds to a split for one monolith entry: its members in the range, renumbered,
      unless there are none. */
  function SliceEntry(codec: Codec, key: nat, full: set<nat>, r: DocRange): seq<Entry> {
    if Window(full, r.lo, r.hi) == {} then [] else [Entry(key, codec.ser(Window(full, r.lo, r.hi)))]
  }

  /** The entries of `p` under the listed keys, sliced. */
  function SliceEntries(codec: Codec, keys: seq<nat>, p: Postings<nat>, r: DocRange): seq<Entry> {
    if keys == [] then []
    else
      var k := keys[|keys| - 1];
      SliceEntries(codec, keys[..|keys| - 1], p, r) + SliceEntry(codec, k, At(p, k), r)
  }

  lemma SliceEntriesNext(codec: Codec, keys: seq<nat>, p: Postings<nat>, r: DocRange, i: nat)
    requires i < |keys|
    ensures SliceEntries(codec, keys[..i + 1], p, r)
            == SliceEntries(codec, keys[..i], p, r) + SliceEntry(codec, keys[i], At(p, keys[i]), r)
  {
    assert keys[..i + 1][..i] == keys[..i];
  }

  ghost predicate Within(keys: seq<nat>, bound: nat) {
    forall i :: 0 <= i < |keys| ==> keys[i] < bound
  }

  /** The part of the sliced index whose keys are listed. */
  ghost function SlicedUnder(codec: Codec, keys: seq<nat>, p: Postings<nat>, r: DocRange): Index {
    map k | k in SliceOf(p, r.lo, r.hi) && k in keys :: codec.ser(SliceOf(p, r.lo, r.hi)[k])
  }

  lemma AppendDescribes(es: seq<Entry>, m: Index, e: Entry)
    requires Describes(es, m) && e.key !in m && forall i :: 0 <= i < |es| ==> es[i].key < e.key
    ensures Describes(es + [e], m[e.key := e.posting])
  {
    var more, after := es + [e], m[e.key := e.posting];
    forall k | k in after ensures exists i :: 0 <= i < |more| && more[i].key == k {
      if k == e.key {
        assert more[|es|].key == k;
      } else {
        var i :| 0 <= i < |es| && es[i].key == k;
        assert more[i].key == k;
      }
    }
  }

  lemma SlicedUnderNext(codec: Codec, front: seq<nat>, k: nat, p: Postings<nat>, r: DocRange)
    requires k !in front && k in p
    ensures var before, after := SlicedUnder(codec, front, p, r), SlicedUnder(codec, front + [k], p, r);
            var w := Window(p[k], r.lo, r.hi);
            k !in before && after == if w == {} then before else before[k := codec.ser(w)]
  {
    assert forall x :: x in front + [k] <==> x in front || x == k;
  }

  lemma {:induction false} SliceKeys(codec: Codec, keys: seq<nat>, p: Postings<nat>, r: DocRange)
    ensures forall e :: e in SliceEntries(codec, keys, p, r) ==> e.key in keys
    decreases |keys|
  {
    if keys != [] {
      var front, k := keys[..|keys| - 1], keys[|keys| - 1];
      SliceKeys(codec, front, p, r);
      assert forall x :: x in front || x == k ==> x in keys;
    }
  }

  lemma LastIsLargest(keys: seq<nat>, front: seq<nat>, k: nat)
    requires Ordered.StrictlyAscending(keys) && keys != [] && front == keys[..|keys| - 1] && k == keys[|keys| - 1]
    ensures keys == front + [k] && Ordered.StrictlyAscending(front) && k !in front && forall x :: x in front ==> x < k
  {
  }

  lemma {:induction false} SliceDescribes(codec: Codec, keys: seq<nat>, p: Postings<nat>, r: DocRange)
    requires Ordered.StrictlyAscending(keys) && forall k :: k in keys ==> k in p
    ensures Describes(SliceEntries(codec, keys, p, r), SlicedUnder(codec, keys, p, r))
    decreases |keys|
  {
    if keys == [] {
      assert SlicedUnder(codec, keys, p, r) == map[];
    } else {
      hide Describes, SlicedUnder, Ordered.StrictlyAscending, Window;
      var front, k := keys[..|keys| - 1], keys[|keys| - 1];
      LastIsLargest(keys, front, k);
      SliceDescribes(codec, front, p, r);
      SlicedUnderNext(codec, front, k, p, r);
      SliceKeys(codec, front, p, r);
      var es := SliceEntries(codec, front, p, r);
      var more := SliceEntry(codec, k, p[k], r);
      if more != [] {
        assert forall i :: 0 <= i < |es| ==> es[i] in es;
        AppendDescribes(es, SlicedUnder(codec, front, p, r), more[0]);
      } else {
        assert es + more == es;
      }
    }
  }

  lemma SlicedUnderAll(codec: Codec, keys: seq<nat>, p: Postings<nat>, r: DocRange)
    requires forall k :: k in keys <==> k in p
    ensures SlicedUnder(codec, keys, p, r) == Serialized(codec, SliceOf(p, r.lo, r.hi))
  {
    hide Window;
  }

  /** Slicing the entries of an index, in order, gives the entries of the sliced index. */
  lemma SlicedEntries(codec: Codec, p: Postings<nat>, r: DocRange)
    ensures SliceEntries(codec, Ordered.Ascending(p.Keys), p, r) == EntriesOf(Serialized(codec, SliceOf(p, r.lo, r.hi)))
  {
    hide Ordered.Ascending, SliceEntries, SlicedUnder, EntriesOf, SliceOf, Serialized, Describes;
    var keys := Ordered.Ascending(p.Keys);
    Ordered.AscendingLists(p.Keys);
    SliceDescribes(codec, keys, p, r);
    SlicedUnderAll(codec, keys, p, r);
    EntriesUnique(SliceEntries(codec, keys, p, r), Serialized(codec, SliceOf(p, r.lo, r.hi)));
  }

  // ----- the slicer -----

  /** `mono` is the written monolith of `p`. */
  ghost predicate IsMonolith(mono: bytes, codec: Codec, gram: nat, stride: nat, p: Postings<nat>) {
    && Faithful(codec) && stride > 0 && Fits(gram, stride, Serialized(codec, p), true)
    && mono == FileOf(gram, stride, EntriesOf(Serialized(codec, p)), true)
  }

  /** The split of `p` over the documents of `r`, and its manifest row. */
  ghost function SplitFile(codec: Codec, gram: nat, stride: nat, p: Postings<nat>, r: DocRange): bytes {
    FileOf(gram, stride, EntriesOf(Serialized(codec, SliceOf(p, r.lo, r.hi))), true)
  }

  datatype Head = Head(gram: nat, n: nat, stride: nat, dictStart: nat, postingsStart: nat)

  /** The header fields the slicer needs; only a case-folding index is accepted. */
  function ParseHead(mono: bytes): Result<Head> {
    if |mono| < 16 then Err(Truncated)
    else if Field(mono, 0, 4) != MAGIC then Err(BadMagic)
    else if Field(mono, 4, 2) != VERSION_FOLDED then Err(BadVersion)
    else
      var n, stride := Field(mono, 8, 4), Field(mono, 12, 4);
      if n > 0 && stride == 0 then Err(Malformed)
      else
        var at := 16 + 8 * SparseCount(n, stride);
        Ok(Head(Field(mono, 6, 2), n, stride, at, at + 20 * n))
  }

  /** One dictionary row: key, posting offset and size. */
  function ParseRow(mono: bytes, at: nat): Result<DictRec> {
    match ReadAt(mono, at, 20)
    case None => Err(Truncated)
    case Some(b) => Ok(DictRec(Field(b, 0, 8), Field(b, 8, 8), Field(b, 16, 4)))
  }

  lemma HeadOfMonolith(mono: bytes, codec: Codec, gram: nat, stride: nat, p: Postings<nat>)
    requires IsMonolith(mono, codec, gram, stride, p)
    ensures ParseHead(mono) == Ok(Head(gram, |p|, stride, DictStart(|p|, stride, true),
                                       PostingsStart(|p|, stride, true)))
  {
    hide FileOf, EntriesOf, SparseCount, SparseAt, RowAt, Faithful, Join;
    var m := Serialized(codec, p);
    assert m.Keys == p.Keys && |m| == |m.Keys| && |p| == |p.Keys|;
    EntriesDescribe(m);
    WrittenLaidOut(gram, stride, m, true);
    if |p| == 0 {
      SparseCountMeans(0, stride, 0);
    }
  }

  lemma RowParsed(mono: bytes, at: nat, key: nat, off: nat, size: nat)
    requires FieldsAt(mono, at, key, 8) && FieldsAt(mono, at + 8, off, 8) && FieldsAt(mono, at + 16, size, 4)
    ensures ParseRow(mono, at) == Ok(DictRec(key, off, size))
  {
    hide Field;
    SliceField(mono, at, 20, 0, 8);
    SliceField(mono, at, 20, 8, 8);
    SliceField(mono, at, 20, 16, 4);
  }

  /** Row `i` of a monolith, the place of its posting, and what the posting holds. */
  lemma RowOfMonolith(mono: bytes, codec: Codec, gram: nat, stride: nat, p: Postings<nat>, i: nat)
    requires IsMonolith(mono, codec, gram, stride, p) && i < |p|
    ensures var es, key := EntriesOf(Serialized(codec, p)), Ordered.Ascending(p.Keys)[i];
            && i < |es| && key in p && es[i] == Entry(key, codec.ser(p[key]))
            && ParseRow(mono, DictStart(|p|, stride, true) + 20 * i)
               == Ok(DictRec(key, PostingAt(stride, es, true, i), |es[i].posting|))
            && ReadAt(mono, PostingAt(stride, es, true, i), |es[i].posting|) == Some(es[i].posting)
  {
    hide FileOf, SparseCount, SparseAt, HeaderAt, Faithful, Join, ReadAt, ParseRow, FieldsAt, Ordered.Ascending;
    var m := Serialized(codec, p);
    var es := EntriesOf(m);
    assert m.Keys == p.Keys && |m| == |m.Keys| && |p| == |p.Keys|;
    KeysListed(p.Keys);
    assert Ordered.Ascending(p.Keys)[i] in Ordered.Ascending(p.Keys);
    WrittenLaidOut(gram, stride, m, true);
    hide EntriesOf;
    assert RowAt(mono, stride, es, true, i);
    RowParsed(mono, DictStart(|p|, stride, true) + 20 * i, es[i].key, PostingAt(stride, es, true, i), |es[i].posting|);
  }

  ghost predicate Separate(sinks: seq<RrsStreamWriter>) {
    forall i, j :: 0 <= i < j < |sinks| ==> sinks[i] != sinks[j]
  }

  /** Fans one entry out: each split it meets gets its part of the posting. */
  method PushSlices(codec: Codec, sinks: seq<RrsStreamWriter>, ranges: seq<DocRange>, key: nat, full: set<nat>)
    requires |sinks| == |ranges| && Separate(sinks)
    requires forall i :: 0 <= i < |sinks| ==> sinks[i].Valid()
    modifies sinks
    ensures forall i :: 0 <= i < |sinks| ==> sinks[i].Valid()
    ensures forall i :: 0 <= i < |sinks| ==>
              sinks[i].pushed == old(sinks[i].pushed) + SliceEntry(codec, key, full, ranges[i])
  {
    hide Streamed, Window;
    for si := 0 to |sinks|
      invariant forall i :: 0 <= i < |sinks| ==> sinks[i].Valid()
      invariant forall i :: 0 <= i < si ==>
                  sinks[i].pushed == old(sinks[i].pushed) + SliceEntry(codec, key, full, ranges[i])
      invariant forall i :: si <= i < |sinks| ==> sinks[i].pushed == old(sinks[i].pushed)
    {
      var local := Window(full, ranges[si].lo, ranges[si].hi);
      if local != {} {
        sinks[si].Push(key, codec.ser(local));
      }
    }
  }

  datatype Origin = Origin(gram: nat, stride: nat, p: Postings<nat>)

  /** What the sinks hold after the first `n` entries of the monolith. */
  ghost predicate FannedOut(codec: Codec, sinks: seq<RrsStreamWriter>, ranges: seq<DocRange>, o: Origin, n: nat)
    requires |sinks| == |ranges|
    reads sinks
  {
    n <= |o.p| && forall i :: 0 <= i < |sinks| ==>
      sinks[i].pushed == SliceEntries(codec, Ordered.Ascending(o.p.Keys)[..n], o.p, ranges[i])
  }

  /** Reads dictionary and postings in lockstep and fans each entry out. Over a written monolith
      no step fails: the dictionary's offsets are exactly where the postings reader stands. */
  method FanOut(mono: bytes, codec: Codec, head: Head, sinks: seq<RrsStreamWriter>, ranges: seq<DocRange>,
                ghost origin: Option<Origin>)
    returns (failed: Option<Error>)
    requires |sinks| == |ranges| && Separate(sinks)
    requires forall i :: 0 <= i < |sinks| ==> sinks[i].Valid() && sinks[i].pushed == []
    requires origin.Some? ==> IsMonolith(mono, codec, origin.value.gram, origin.value.stride, origin.value.p)
    requires origin.Some? ==> ParseHead(mono) == Ok(head)
    modifies sinks
    ensures forall i :: 0 <= i < |sinks| ==> sinks[i].Valid()
    ensures origin.Some? ==> failed.None? && FannedOut(codec, sinks, ranges, origin.value, |origin.value.p|)
  {
    hide IsMonolith, ParseHead, ParseRow, Streamed, Window, ReadAt, PostingAt, EntriesOf, SliceEntry, DictStart,
         PostingsStart;
    var postPos: nat := 0;
    if origin.Some? {
      LockstepStart(mono, codec, head, origin.value);
    }
    for n := 0 to head.n
      invariant forall i :: 0 <= i < |sinks| ==> sinks[i].Valid()
      invariant origin.Some? ==> FannedOut(codec, sinks, ranges, origin.value, n)
      invariant origin.Some? ==> head.n == |origin.value.p| && InStep(codec, head, origin.value, n, postPos)
    {
      var row := ParseRow(mono, head.dictStart + 20 * n);
      if origin.Some? {
        LockstepRow(mono, codec, head, origin.value, n, postPos);
      }
      if row.Err? {
        return Some(row.error);
      }
      if row.value.off != head.postingsStart + postPos {
        return Some(Diverged);
      }
      var posting := ReadAt(mono, head.postingsStart + postPos, row.value.size);
      if posting.None? {
        return Some(Truncated);
      }
      postPos := postPos + row.value.size;
      var full := codec.de(posting.value);
      if full.None? {
        return Some(Malformed);
      }
      PushSlices(codec, sinks, ranges, row.value.key, full.value);
      if origin.Some? {
        FannedNext(codec, ranges, origin.value, n);
      }
    }
    failed := None;
  }

  /** The postings reader stands where entry `n`'s posting starts. */
  ghost predicate InStep(codec: Codec, head: Head, o: Origin, n: nat, postPos: nat) {
    var es := EntriesOf(Serialized(codec, o.p));
    n <= |es| && head.postingsStart + postPos == PostingAt(o.stride, es, true, n)
    && head.dictStart == DictStart(|o.p|, o.stride, true)
  }

  lemma LockstepStart(mono: bytes, codec: Codec, head: Head, o: Origin)
    requires IsMonolith(mono, codec, o.gram, o.stride, o.p) && ParseHead(mono) == Ok(head)
    ensures head.n == |o.p| && InStep(codec, head, o, 0, 0)
    ensures Ordered.Ascending(o.p.Keys)[..0] == []
  {
    hide EntriesOf, FileOf, IsMonolith, ParseHead, DictStart;
    HeadOfMonolith(mono, codec, o.gram, o.stride, o.p);
    EntriesDescribe(Serialized(codec, o.p));
    assert Serialized(codec, o.p).Keys == o.p.Keys;
    RangesTile(o.gram, o.stride, EntriesOf(Serialized(codec, o.p)), true);
  }

  lemma LockstepRow(mono: bytes, codec: Codec, head: Head, o: Origin, n: nat, postPos: nat)
    requires IsMonolith(mono, codec, o.gram, o.stride, o.p) && n < |o.p| && InStep(codec, head, o, n, postPos)
    ensures var key := Ordered.Ascending(o.p.Keys)[n];
            var row := ParseRow(mono, head.dictStart + 20 * n);
            && key in o.p && row == Ok(DictRec(key, head.postingsStart + postPos, |codec.ser(o.p[key])|))
            && ReadAt(mono, head.postingsStart + postPos, row.value.size) == Some(codec.ser(o.p[key]))
            && codec.de(codec.ser(o.p[key])) == Some(o.p[key])
            && InStep(codec, head, o, n + 1, postPos + row.value.size)
  {
    hide EntriesOf, FileOf, ParseRow, ReadAt, DictStart, PostingsStart, Start;
    RowOfMonolith(mono, codec, o.gram, o.stride, o.p, n);
    RangesTile(o.gram, o.stride, EntriesOf(Serialized(codec, o.p)), true);
    hide PostingAt;
  }

  lemma FannedNext(codec: Codec, ranges: seq<DocRange>, o: Origin, n: nat)
    requires n < |o.p|
    ensures var keys := Ordered.Ascending(o.p.Keys);
            forall i :: 0 <= i < |ranges| ==>
              SliceEntries(codec, keys[..n + 1], o.p, ranges[i])
              == SliceEntries(codec, keys[..n], o.p, ranges[i])
                + SliceEntry(codec, keys[n], At(o.p, keys[n]), ranges[i])
  {
    var keys := Ordered.Ascending(o.p.Keys);
    forall i | 0 <= i < |ranges|
      ensures SliceEntries(codec, keys[..n + 1], o.p, ranges[i])
              == SliceEntries(codec, keys[..n], o.p, ranges[i])
                + SliceEntry(codec, keys[n], At(o.p, keys[n]), ranges[i])
    {
      SliceEntriesNext(codec, keys, o.p, ranges[i], n);
    }
  }

  ghost predicate WantsSplit(codec: Codec, o: Origin, r: DocRange, i: nat, spec: Spec, file: bytes)
    requires r.lo < r.hi
  {
    && file == SplitFile(codec, o.gram, o.stride, o.p, r)
    && spec == RowOf(true, i, r.lo, r.hi - r.lo, |file|)
  }

  lemma Assembled(codec: Codec, o: Origin, r: DocRange, pushed: seq<Entry>, file: bytes)
    requires pushed == SliceEntries(codec, Ordered.Ascending(o.p.Keys)[..|o.p|], o.p, r)
    requires file == FileOf(o.gram, o.stride, pushed, true)
    ensures file == SplitFile(codec, o.gram, o.stride, o.p, r)
  {
    assert |o.p| == |o.p.Keys|;
    assert Ordered.Ascending(o.p.Keys)[..|o.p|] == Ordered.Ascending(o.p.Keys);
    SlicedEntries(codec, o.p, r);
  }

  /** One split writer for each range. */
  method OpenSinks(gram: nat, stride: nat, count: nat) returns (sinks: seq<RrsStreamWriter>)
    ensures |sinks| == count && Separate(sinks)
    ensures forall i :: 0 <= i < count ==>
              fresh(sinks[i]) && sinks[i].Valid() && sinks[i].pushed == [] && sinks[i].gram == gram
    ensures forall i :: 0 <= i < count ==> sinks[i].stride == if stride == 0 then DEFAULT_STRIDE else stride
  {
    hide Streamed;
    sinks := [];
    for n := 0 to count
      invariant |sinks| == n && Separate(sinks)
      invariant forall i :: 0 <= i < n ==>
                  fresh(sinks[i]) && sinks[i].Valid() && sinks[i].pushed == [] && sinks[i].gram == gram
      invariant forall i :: 0 <= i < n ==> sinks[i].stride == if stride == 0 then DEFAULT_STRIDE else stride
    {
      var s := new RrsStreamWriter(gram, stride);
      sinks := sinks + [s];
    }
  }

  /** Every range got its split. */
  ghost predicate SplitsWanted(codec: Codec, o: Origin, ranges: seq<DocRange>, specs: seq<Spec>, files: seq<bytes>)
    requires forall i :: 0 <= i < |ranges| ==> ranges[i].lo < ranges[i].hi
  {
    |specs| == |files| == |ranges| && forall i :: 0 <= i < |ranges| ==>
      WantsSplit(codec, o, ranges[i], i, specs[i], files[i])
  }

  /** Metadata and region of each split, put together, and its manifest row. */
  method Assemble(codec: Codec, sinks: seq<RrsStreamWriter>, ranges: seq<DocRange>, ghost origin: Option<Origin>)
    returns (specs: seq<Spec>, files: seq<bytes>)
    requires |sinks| == |ranges| && forall i :: 0 <= i < |ranges| ==> ranges[i].lo < ranges[i].hi
    requires forall i :: 0 <= i < |sinks| ==> sinks[i].Valid()
    requires origin.Some? ==> FannedOut(codec, sinks, ranges, origin.value, |origin.value.p|)
    requires origin.Some? ==> forall i :: 0 <= i < |sinks| ==>
               sinks[i].gram == origin.value.gram && sinks[i].stride == origin.value.stride
    ensures |specs| == |files| == |ranges|
    ensures origin.Some? ==> SplitsWanted(codec, origin.value, ranges, specs, files)
  {
    hide FileOf, SplitFile, SliceEntries, Streamed;
    specs, files := [], [];
    for i := 0 to |ranges|
      invariant |specs| == |files| == i
      invariant origin.Some? ==> forall j :: 0 <= j < i ==>
                  WantsSplit(codec, origin.value, ranges[j], j, specs[j], files[j])
    {
      var meta := sinks[i].FinishMeta();
      var file := meta + sinks[i].region;
      if origin.Some? {
        Assembled(codec, origin.value, ranges[i], sinks[i].pushed, file);
      }
      specs := specs + [RowOf(true, i, ranges[i].lo, ranges[i].hi - ranges[i].lo, |file|)];
      files := files + [file];
    }
  }

  /** Slices a monolith into one split file and manifest row for each range. Over a written
      monolith it never fails, and each file is the one built from the range's documents alone. */
  method Slice(mono: bytes, codec: Codec, ranges: seq<DocRange>, ghost origin: Option<Origin>)
    returns (r: Result<(seq<Spec>, seq<bytes>)>)
    requires forall i :: 0 <= i < |ranges| ==> ranges[i].lo < ranges[i].hi
    requires origin.Some? ==> IsMonolith(mono, codec, origin.value.gram, origin.value.stride, origin.value.p)
    ensures origin.Some? ==> r.Ok? && SplitsWanted(codec, origin.value, ranges, r.value.0, r.value.1)
  {
    hide ParseHead, IsMonolith, FannedOut, SplitsWanted, Streamed;
    if origin.Some? {
      HeadOfMonolith(mono, codec, origin.value.gram, origin.value.stride, origin.value.p);
      StrideOfMonolith(mono, codec, origin.value);
    }
    var parsed := ParseHead(mono);
    if parsed.Err? {
      return Err(parsed.error);
    }
    var head := parsed.value;
    var sinks := OpenSinks(head.gram, head.stride, |ranges|);
    var failed := FanOut(mono, codec, head, sinks, ranges, origin);
    if failed.Some? {
      return Err(failed.value);
    }
    var specs, files := Assemble(codec, sinks, ranges, origin);
    r := Ok((specs, files));
  }

  lemma StrideOfMonolith(mono: bytes, codec: Codec, o: Origin)
    requires IsMonolith(mono, codec, o.gram, o.stride, o.p)
    ensures o.stride > 0
  {
  }
}
