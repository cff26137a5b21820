/** The positional record store (records.go): the streaming writer, the single-record read,
    and the batched read that merges near ranges. Offsets fit a signed 64-bit integer. */
module Records {
  import opened Wrappers
  import opened Bytes
  import opened Coalesce
  import Ordered

  const HEADER_SIZE := 16
  const MAGIC: nat := 0x52535252
  const VERSION_RAW := 1
  const VERSION_FRAMED := 2
  const TAG_RAW := 0
  const TAG_ZSTD := 1
  const MAX_RECORD: nat := 0x400_0000
  const MAX_READ: nat := 0x4000_0000
  const GAP: nat := 0x4000

  // ----- writing -----

  function HeaderFields(count: nat, version: nat := VERSION_RAW): (fs: seq<Fld>)
    ensures |fs| == 5
  {
    [Fld(MAGIC, 4), Fld(version, 2), Fld(0, 2), Fld(count, 4), Fld(0, 4)]
  }

  /** The offset table: where each record starts in the blob, and where the last one ends. */
  function OffsetFields(records: seq<bytes>): seq<Fld> {
    (if records == [] then [] else OffsetFields(records[..|records| - 1])) + [Fld(|Join(records)|, 8)]
  }

  /** The index file of `records`, its header declaring `count` of them. */
  function Index(count: nat, records: seq<bytes>, version: nat := VERSION_RAW): bytes {
    Layout(HeaderFields(count, version) + OffsetFields(records))
  }

  lemma IndexStep(count: nat, records: seq<bytes>, rec: bytes, version: nat := VERSION_RAW)
    ensures Join(records + [rec]) == Join(records) + rec
    ensures Index(count, records + [rec], version) == Index(count, records, version) + LE(|Join(records)| + |rec|, 8)
  {
    hide Join, Layout, LE, HeaderFields, OffsetFields;
    JoinAppend(records, rec);
    OffsetsGrow(records, rec);
    var h, last := HeaderFields(count, version), [Fld(|Join(records)| + |rec|, 8)];
    assert h + (OffsetFields(records) + last) == h + OffsetFields(records) + last;
    LayoutAppend(h + OffsetFields(records), last);
    LayoutOne(last[0]);
  }

  lemma OffsetsGrow(records: seq<bytes>, rec: bytes)
    ensures OffsetFields(records + [rec]) == OffsetFields(records) + [Fld(|Join(records)| + |rec|, 8)]
  {
    hide Join, OffsetFields;
    JoinAppend(records, rec);
    assert (records + [rec])[..|records|] == records;
    OffsetsLast(records + [rec]);
  }

  lemma OffsetsLast(records: seq<bytes>)
    requires records != []
    ensures OffsetFields(records) == OffsetFields(records[..|records| - 1]) + [Fld(|Join(records)|, 8)]
  {
    hide Join;
  }

  lemma IndexStart(count: nat, version: nat := VERSION_RAW)
    ensures Join([]) == [] && Index(count, [], version) == Layout(HeaderFields(count, version)) + LE(0, 8)
  {
    assert OffsetFields([]) == [Fld(0, 8)];
    hide Layout, HeaderFields;
    LayoutAppend(HeaderFields(count, version), [Fld(0, 8)]);
    LayoutOne(Fld(0, 8));
  }

  class RecordWriter {
    var bin: bytes
    var idx: bytes
    var off: nat
    const count: nat
    var written: nat
    ghost var records: seq<bytes>

    ghost predicate Valid()
      reads this
    {
      && bin == Join(records) && off == |bin| && written == |records|
      && idx == Index(count, records)
    }

    constructor (count: nat)
      requires count < TWO_32
      ensures Valid() && records == [] && this.count == count
    {
      hide Layout, HeaderFields, LE;
      this.count := count;
      idx, bin, off, written, records := Layout(HeaderFields(count)) + LE(0, 8), [], 0, 0, [];
      IndexStart(count);
    }

    method Write(rec: bytes)
      requires Valid()
      modifies this
      ensures Valid() && records == old(records) + [rec]
    {
      hide Join, Index, LE;
      IndexStep(count, records, rec);
      bin := bin + rec;
      off := off + |rec|;
      idx := idx + LE(off, 8);
      written := written + 1;
      records := records + [rec];
    }

    method Finish() returns (ok: bool)
      requires Valid()
      ensures ok <==> |records| == count
    {
      ok := written == count;
    }
  }

  /** Writes a whole store. */
  method WriteRecords(records: seq<bytes>) returns (idx: bytes, bin: bytes, ok: bool)
    requires |records| < TWO_32
    ensures ok && bin == Join(records) && idx == Index(|records|, records)
  {
    hide Join, Index;
    var w := new RecordWriter(|records|);
    for i := 0 to |records|
      invariant w.Valid() && fresh(w) && w.records == records[..i] && w.count == |records|
    {
      w.Write(records[i]);
      assert records[..i + 1] == records[..i] + [records[i]];
    }
    assert records[..|records|] == records;
    ok := w.Finish();
    idx, bin := w.idx, w.bin;
  }

  // ----- reading -----

  /** An open store. `inflate` is the dictionary-backed decoder, when one is attached. */
  datatype Store = Store(idx: bytes, bin: bytes, count: nat, version: nat, inflate: Option<bytes -> Option<bytes>>)

  function Open(idx: bytes, bin: bytes, inflate: Option<bytes -> Option<bytes>>): Result<Store> {
    if |idx| < HEADER_SIZE then Err(Truncated)
    else if Field(idx, 0, 4) != MAGIC then Err(BadMagic)
    else
      var version := Field(idx, 4, 2);
      if version != VERSION_RAW && version != VERSION_FRAMED then Err(BadVersion)
      else Ok(Store(idx, bin, Field(idx, 8, 4), version, inflate))
  }

  function Decode(s: Store, raw: bytes): Result<bytes> {
    if s.version == VERSION_RAW || raw == [] then Ok(raw)
    else if raw[0] == TAG_RAW then Ok(raw[1..])
    else if raw[0] == TAG_ZSTD then
      if s.inflate.None? then Err(Compressed)
      else match s.inflate.value(raw[1..]) case None => Err(Truncated) case Some(out) => Ok(out)
    else Err(Truncated)
  }

  /** Where the offset pair of record `id` lies in the index file. */
  function PairRange(id: nat): Range {
    Range(HEADER_SIZE + id * 8, 16)
  }

  /** One record, or nothing when `id` is out of range. */
  function Get(s: Store, id: nat): Result<Option<bytes>> {
    if id >= s.count then Ok(None)
    else
      var pair := ReadAt(s.idx, PairRange(id).off, 16);
      if pair.None? then Err(OutOfRange)
      else
        var start, end := Field(pair.value, 0, 8), Field(pair.value, 8, 8);
        if end < start || end - start > MAX_RECORD then Err(Truncated)
        else
          var raw := if end == start then Some([]) else ReadAt(s.bin, start, end - start);
          if raw.None? then Err(OutOfRange)
          else match Decode(s, raw.value) case Err(e) => Err(e) case Ok(data) => Ok(Some(data))
  }

  // ----- the written store reads back -----

  /** The `i`-th entry of the offset table. */
  function Off(s: Store, i: nat): nat
    requires HEADER_SIZE + 8 * i + 8 <= |s.idx|
  {
    Field(s.idx, HEADER_SIZE + 8 * i, 8)
  }

  /** A store whose offset table is complete, non-decreasing and within the blob. */
  ghost predicate WellFormed(s: Store) {
    && |s.idx| >= HEADER_SIZE + 8 * s.count + 8
    && (forall i, j :: 0 <= i <= j <= s.count ==> Off(s, i) <= Off(s, j))
    && Off(s, s.count) <= |s.bin|
  }

  lemma {:induction false} OffsetEntry(records: seq<bytes>, i: nat)
    requires i <= |records|
    ensures |OffsetFields(records)| == |records| + 1 && OffsetFields(records)[i] == Fld(Start(records, i), 8)
  {
    if records != [] {
      OffsetEntry(records[..|records| - 1], if i < |records| then i else 0);
      if i < |records| {
        assert records[..|records| - 1][..i] == records[..i];
      }
    }
    StartEnds(records);
  }

  lemma HeaderWidths(count: nat, version: nat := VERSION_RAW)
    ensures var h := HeaderFields(count, version);
            Width(h, 0) == 0 && Width(h, 1) == 4 && Width(h, 3) == 8 && Width(h, 4) == 12 && Width(h, 5) == HEADER_SIZE
  {
    var h := HeaderFields(count, version);
    assert Width(h[4..], 1) == 4 && Width(h[3..], 2) == 8 && Width(h[2..], 3) == 10 && Width(h[2..], 1) == 2;
    assert Width(h[3..], 1) == 4 && Width(h[2..], 2) == 6 && Width(h[1..], 3) == 8;
    assert Width(h[1..], 4) == 12 && Width(h[1..], 2) == 4;
  }

  /** The store's files hold these parts, one after the other. */
  ghost predicate IsWritten(s: Store, parts: seq<bytes>) {
    && |parts| < TWO_32 && |Join(parts)| < TWO_64
    && s.idx == Index(|parts|, parts, s.version) && s.bin == Join(parts)
    && s.count == |parts| && (s.version == VERSION_RAW || s.version == VERSION_FRAMED)
  }

  lemma OffsetWidths(records: seq<bytes>)
    ensures |OffsetFields(records)| == |records| + 1
    ensures forall k :: 0 <= k < |OffsetFields(records)| ==> OffsetFields(records)[k].n == 8
  {
    hide OffsetFields, Start;
    OffsetEntry(records, |records|);
    forall k | 0 <= k <= |records| ensures OffsetFields(records)[k].n == 8 {
      OffsetEntry(records, k);
    }
  }

  /** Where the `i`-th offset lies. */
  lemma OffsetPlace(records: seq<bytes>, i: nat, version: nat := VERSION_RAW)
    requires i <= |records|
    ensures var h := HeaderFields(|records|, version);
            |h| == 5 && Width(h + OffsetFields(records), 5 + i) == HEADER_SIZE + 8 * i
  {
    hide OffsetFields, HeaderFields, Width;
    var h, t := HeaderFields(|records|, version), OffsetFields(records);
    OffsetWidths(records);
    HeaderWidths(|records|, version);
    UniformWidth(t, 8, i);
    WidthAppend(h, t, i);
  }

  lemma WrittenOffset(s: Store, records: seq<bytes>, i: nat)
    requires IsWritten(s, records) && i <= |records|
    ensures HEADER_SIZE + 8 * i + 8 <= |s.idx| && Off(s, i) == Start(records, i)
  {
    hide OffsetFields, HeaderFields, Width, Layout, LE, Power, Field, Join, Start;
    var h, t := HeaderFields(|records|, s.version), OffsetFields(records);
    OffsetEntry(records, i);
    OffsetPlace(records, i, s.version);
    StartsGrow(records, i, |records|);
    PowerLiterals();
    assert (h + t)[5 + i] == t[i];
    assert s.idx == [] + (Layout(h + t) + []);
    LayoutField(s.idx, [], h + t, [], 5 + i);
  }

  lemma HeaderField(n: nat, records: seq<bytes>, k: nat, version: nat := VERSION_RAW)
    requires n < TWO_32 && k < 5 && version < TWO_16
    ensures var h, idx := HeaderFields(n, version), Index(n, records, version);
            Width(h, k) + h[k].n <= |idx| && Field(idx, Width(h, k), h[k].n) == h[k].v
  {
    var h, fs := HeaderFields(n, version), HeaderFields(n, version) + OffsetFields(records);
    PowerLiterals();
    assert fs[k] == h[k] && h[k].v < Power(h[k].n);
    hide OffsetFields, HeaderFields, Layout, Power, Width, Field;
    WidthAppend(h, OffsetFields(records), k);
    assert Index(n, records, version) == [] + (Layout(fs) + []);
    LayoutField(Index(n, records, version), [], fs, [], k);
  }

  lemma OpensWritten(records: seq<bytes>, inflate: Option<bytes -> Option<bytes>>, version: nat := VERSION_RAW)
    requires |records| < TWO_32 && (version == VERSION_RAW || version == VERSION_FRAMED)
    ensures Open(Index(|records|, records, version), Join(records), inflate)
            == Ok(Store(Index(|records|, records, version), Join(records), |records|, version, inflate))
  {
    var n := |records|;
    HeaderWidths(n, version);
    hide Join, Index, Width, Field;
    HeaderField(n, records, 0, version);
    HeaderField(n, records, 1, version);
    HeaderField(n, records, 3, version);
    HeaderField(n, records, 4, version);
  }

  lemma PairFields(s: Store, i: nat)
    requires HEADER_SIZE + 8 * i + 16 <= |s.idx|
    ensures var pair := s.idx[PairRange(i).off..PairRange(i).End()];
            Field(pair, 0, 8) == Off(s, i) && Field(pair, 8, 8) == Off(s, i + 1)
  {
    var pair := s.idx[PairRange(i).off..PairRange(i).End()];
    assert pair[0..8] == s.idx[HEADER_SIZE + 8 * i..HEADER_SIZE + 8 * i + 8];
    assert pair[8..16] == s.idx[HEADER_SIZE + 8 * (i + 1)..HEADER_SIZE + 8 * (i + 1) + 8];
  }

  /** The stored part of a record is what a read decodes. */
  lemma GetWritten(s: Store, parts: seq<bytes>, i: nat)
    requires IsWritten(s, parts) && i < |parts| && |parts[i]| <= MAX_RECORD
    ensures Get(s, i) == match Decode(s, parts[i]) case Err(e) => Err(e) case Ok(data) => Ok(Some(data))
  {
    hide Join, Index, Field, Decode;
    WrittenOffset(s, parts, i);
    WrittenOffset(s, parts, i + 1);
    PairFields(s, i);
    PartSlice(parts, i);
  }

  lemma WrittenWell(s: Store, parts: seq<bytes>)
    requires IsWritten(s, parts)
    ensures WellFormed(s)
  {
    var n := |parts|;
    hide Index, Join, Off;
    WrittenOffset(s, parts, n);
    StartEnds(parts);
    forall i, j | 0 <= i <= j <= n ensures Off(s, i) <= Off(s, j) {
      WrittenOffset(s, parts, i);
      WrittenOffset(s, parts, j);
      StartsGrow(parts, i, j);
    }
  }

  /** Whatever the writer produced opens, is well formed, and gives back every record. */
  lemma WriterRoundTrip(records: seq<bytes>, inflate: Option<bytes -> Option<bytes>>)
    requires |records| < TWO_32 && |Join(records)| < TWO_64
    ensures var o := Open(Index(|records|, records), Join(records), inflate);
            && o.Ok? && o.value.version == VERSION_RAW && IsWritten(o.value, records) && WellFormed(o.value)
            && forall i :: 0 <= i < |records| && |records[i]| <= MAX_RECORD ==>
                 Get(o.value, i) == Ok(Some(records[i]))
  {
    var n := |records|;
    OpensWritten(records, inflate);
    var s := Store(Index(n, records), Join(records), n, VERSION_RAW, inflate);
    hide Open, Index, Join, Get, WellFormed;
    WrittenWell(s, records);
    forall i | 0 <= i < n && |records[i]| <= MAX_RECORD ensures Get(s, i) == Ok(Some(records[i])) {
      GetWritten(s, records, i);
    }
  }

  // ----- the framed store (records_zstd.go) -----

  /** A record's frame: none for an empty one, otherwise a tag and the shorter of the compressed bytes
      and the record itself. */
  function Frame(compress: bytes -> bytes, rec: bytes): bytes {
    if rec == [] then []
    else
      var c := compress(rec);
      if |c| < |rec| then [TAG_ZSTD] + c else [TAG_RAW] + rec
  }

  function Frames(compress: bytes -> bytes, records: seq<bytes>): (q: seq<bytes>)
    ensures |q| == |records| && forall i :: 0 <= i < |q| ==> q[i] == Frame(compress, records[i])
  {
    seq(|records|, i requires 0 <= i < |records| => Frame(compress, records[i]))
  }

  /** Writes a framed store. */
  method WriteRecordsZstd(records: seq<bytes>, compress: bytes -> bytes) returns (idx: bytes, bin: bytes)
    ensures bin == Join(Frames(compress, records))
    ensures idx == Index(|records|, Frames(compress, records), VERSION_FRAMED)
  {
    hide Join, Index, LE, Layout, HeaderFields, Frame;
    IndexStart(|records|, VERSION_FRAMED);
    idx, bin := Layout(HeaderFields(|records|, VERSION_FRAMED)) + LE(0, 8), [];
    ghost var frames := Frames(compress, records);
    assert frames[..0] == [];
    for i := 0 to |records|
      invariant bin == Join(frames[..i]) && idx == Index(|records|, frames[..i], VERSION_FRAMED)
    {
      var framed := Frame(compress, records[i]);
      IndexStep(|records|, frames[..i], framed, VERSION_FRAMED);
      assert frames[..i + 1] == frames[..i] + [framed];
      bin := bin + framed;
      idx := idx + LE(|bin|, 8);
    }
    assert frames[..|records|] == frames;
  }

  /** A framed store opens. With a decoder that undoes the compression every record comes back; without
      one, exactly those that compression shortened are refused. */
  lemma FramedRoundTrip(records: seq<bytes>, compress: bytes -> bytes, inflate: Option<bytes -> Option<bytes>>)
    requires |records| < TWO_32 && |Join(Frames(compress, records))| < TWO_64
    requires inflate.Some? ==> forall rec :: inflate.value(compress(rec)) == Some(rec)
    ensures var frames := Frames(compress, records);
            var o := Open(Index(|records|, frames, VERSION_FRAMED), Join(frames), inflate);
            && o.Ok? && WellFormed(o.value)
            && forall i :: 0 <= i < |records| && |frames[i]| <= MAX_RECORD ==>
                 Get(o.value, i)
                 == if inflate.None? && records[i] != [] && |compress(records[i])| < |records[i]| then Err(Compressed)
                    else Ok(Some(records[i]))
  {
    var frames, n := Frames(compress, records), |records|;
    OpensWritten(frames, inflate, VERSION_FRAMED);
    var s := Store(Index(n, frames, VERSION_FRAMED), Join(frames), n, VERSION_FRAMED, inflate);
    hide Open, Index, Join, Get, WellFormed, Frames;
    WrittenWell(s, frames);
    forall i | 0 <= i < n && |frames[i]| <= MAX_RECORD
      ensures Get(s, i)
              == if inflate.None? && records[i] != [] && |compress(records[i])| < |records[i]| then Err(Compressed)
                 else Ok(Some(records[i]))
    {
      GetWritten(s, frames, i);
      FrameDecodes(s, compress, records[i]);
    }
  }

  lemma FrameDecodes(s: Store, compress: bytes -> bytes, rec: bytes)
    requires s.version == VERSION_FRAMED && (s.inflate.Some? ==> s.inflate.value(compress(rec)) == Some(rec))
    ensures Decode(s, Frame(compress, rec))
            == if s.inflate.None? && rec != [] && |compress(rec)| < |rec| then Err(Compressed) else Ok(rec)
  {
    var c := compress(rec);
    assert ([TAG_ZSTD] + c)[1..] == c && ([TAG_RAW] + rec)[1..] == rec;
  }

  // ----- the coalesced reads -----

  /** Every span is short enough for one buffer, and the file holds the ones that need a read. */
  ghost predicate Readable(spans: seq<Span>, file: bytes) {
    forall t :: 0 <= t < |spans| ==>
      spans[t].hi - spans[t].lo <= MAX_READ && (spans[t].hi > spans[t].lo ==> spans[t].hi <= |file|)
  }

  /** What reading `r` alone returns. */
  function Slice(file: bytes, r: Range): bytes {
    if r.End() <= |file| then file[r.off..r.End()] else []
  }

  /** The ranges in the order `order` gives them. */
  ghost function InOrder(ranges: seq<Range>, order: seq<nat>): (rs: seq<Range>)
    requires Indexes(order, ranges)
    ensures |rs| == |order| && forall k :: 0 <= k < |rs| ==> rs[k] == ranges[order[k]]
  {
    seq(|order|, k requires 0 <= k < |order| => ranges[order[k]])
  }

  lemma InOrderSorts(ranges: seq<Range>, order: seq<nat>)
    requires Sorts(order, ranges)
    ensures SortedByOffset(InOrder(ranges, order)) && Elements(InOrder(ranges, order)) == Elements(ranges)
  {
    var rs := InOrder(ranges, order);
    forall r ensures r in rs <==> r in ranges {
      if r in ranges {
        var x :| 0 <= x < |ranges| && ranges[x] == r;
        var k := PositionOf(order, ranges, x);
        assert rs[k] == r;
      }
    }
  }

  /** The first `j` ranges end a span: the next one, if any, opens another. */
  ghost predicate ClosedAt(rs: seq<Range>, gap: nat, j: nat) {
    j <= |rs| && (0 < j < |rs| ==> rs[j].off > MaxEnd(rs[..j]) + gap)
  }

  lemma SpanOpens(rs: seq<Range>, gap: nat, i: nat)
    requires i < |rs| && ClosedAt(rs, gap, i)
    ensures SpansOf(rs[..i + 1], gap) == SpansOf(rs[..i], gap) + [Span(rs[i].off, rs[i].End())]
  {
    assert rs[..i + 1][..i] == rs[..i];
    if i > 0 {
      LastEnd(rs[..i], gap);
    }
  }

  lemma SpanGrows(rs: seq<Range>, gap: nat, j: nat, done: seq<Span>, lo: nat, hi: nat)
    requires j < |rs| && SpansOf(rs[..j], gap) == done + [Span(lo, hi)] && rs[j].off <= hi + gap
    ensures SpansOf(rs[..j + 1], gap) == done + [Span(lo, Max(hi, rs[j].End()))]
  {
    assert rs[..j + 1][..j] == rs[..j];
    hide SpansOf;
    assert SpansOf(rs[..j + 1], gap) == Extend(SpansOf(rs[..j], gap), rs[j], gap) by {
      ExtendsLast(rs[..j + 1], gap);
    }
  }

  lemma ExtendsLast(rs: seq<Range>, gap: nat)
    requires rs != []
    ensures SpansOf(rs, gap) == Extend(SpansOf(rs[..|rs| - 1], gap), rs[|rs| - 1], gap)
  {
  }

  lemma SpanEnds(rs: seq<Range>, gap: nat, j: nat, done: seq<Span>, lo: nat, hi: nat)
    requires 0 < j <= |rs| && SpansOf(rs[..j], gap) == done + [Span(lo, hi)]
    requires j < |rs| ==> rs[j].off > hi + gap
    ensures ClosedAt(rs, gap, j)
  {
    LastEnd(rs[..j], gap);
  }

  /** Closed spans are final. */
  lemma {:induction false} ClosedPrefix(rs: seq<Range>, gap: nat, j: nat, k: nat)
    requires j <= k <= |rs| && ClosedAt(rs, gap, j)
    ensures SpansOf(rs[..j], gap) <= SpansOf(rs[..k], gap)
    ensures j < k ==> |SpansOf(rs[..j], gap)| < |SpansOf(rs[..k], gap)|
    decreases k
  {
    if j < k {
      ClosedPrefix(rs, gap, j, k - 1);
      assert rs[..k][..k - 1] == rs[..k - 1];
      ExtendsLast(rs[..k], gap);
      if j == k - 1 {
        SpanOpens(rs, gap, j);
      }
      hide SpansOf;
    }
  }

  lemma BadSpan(ranges: seq<Range>, rs: seq<Range>, gap: nat, j: nat, file: bytes)
    requires SortedByOffset(rs) && Elements(rs) == Elements(ranges)
    requires ClosedAt(rs, gap, j) && !Readable(SpansOf(rs[..j], gap), file)
    ensures forall sorted :: SortedByOffset(sorted) && Elements(sorted) == Elements(ranges) ==>
              !Readable(SpansOf(sorted, gap), file)
  {
    ClosedPrefix(rs, gap, j, |rs|);
    assert rs[..|rs|] == rs;
    var t :| 0 <= t < |SpansOf(rs[..j], gap)| &&
      !(SpansOf(rs[..j], gap)[t].hi - SpansOf(rs[..j], gap)[t].lo <= MAX_READ &&
        (SpansOf(rs[..j], gap)[t].hi > SpansOf(rs[..j], gap)[t].lo ==> SpansOf(rs[..j], gap)[t].hi <= |file|));
    assert SpansOf(rs, gap)[t] == SpansOf(rs[..j], gap)[t];
    hide SpansOf, SortedByOffset, Elements, ClosedAt;
    forall sorted | SortedByOffset(sorted) && Elements(sorted) == Elements(ranges)
      ensures !Readable(SpansOf(sorted, gap), file)
    {
      SpansUnique(rs, sorted, gap);
    }
  }

  lemma GoodSpans(ranges: seq<Range>, rs: seq<Range>, gap: nat, file: bytes)
    requires SortedByOffset(rs) && Elements(rs) == Elements(ranges) && Readable(SpansOf(rs, gap), file)
    ensures forall sorted :: SortedByOffset(sorted) && Elements(sorted) == Elements(ranges) ==>
              Readable(SpansOf(sorted, gap), file)
  {
    hide SpansOf, SortedByOffset, Elements, Readable;
    forall sorted | SortedByOffset(sorted) && Elements(sorted) == Elements(ranges)
      ensures Readable(SpansOf(sorted, gap), file)
    {
      SpansUnique(rs, sorted, gap);
    }
  }

  /** The slots of `out` that the first `i` ranges of the order fill hold those ranges' bytes. */
  ghost predicate Filled(out: seq<bytes>, ranges: seq<Range>, order: seq<nat>, file: bytes, i: nat)
    requires Indexes(order, ranges)
  {
    |out| == |ranges| && forall k :: 0 <= k < i && k < |order| ==> out[order[k]] == Slice(file, ranges[order[k]])
  }

  /** Copies the ranges `[i, j)` of the order out of the span that holds them. */
  method CopyOut(out: seq<bytes>, buf: bytes, span: Span, ranges: seq<Range>, order: seq<nat>, i: nat, j: nat,
                 ghost file: bytes)
    returns (filled: seq<bytes>)
    requires Sorts(order, ranges) && i <= j <= |order| && Filled(out, ranges, order, file, i)
    requires forall k :: i <= k < j ==> Inside(ranges[order[k]], span)
    requires if span.hi > span.lo then span.hi <= |file| && buf == file[span.lo..span.hi] else buf == []
    ensures Filled(filled, ranges, order, file, j)
  {
    filled := out;
    for k := i to j
      invariant Filled(filled, ranges, order, file, k)
    {
      var r := ranges[order[k]];
      var rel := r.off - span.lo;
      SegmentOf(file, buf, span, r);
      filled := filled[order[k] := buf[rel..rel + r.len]];
    }
  }

  lemma SegmentOf(file: bytes, buf: bytes, span: Span, r: Range)
    requires Inside(r, span)
    requires if span.hi > span.lo then span.hi <= |file| && buf == file[span.lo..span.hi] else buf == []
    ensures r.off - span.lo + r.len <= |buf| && buf[r.off - span.lo..r.off - span.lo + r.len] == Slice(file, r)
  {
    if r.len > 0 {
      var part := buf[r.off - span.lo..r.off - span.lo + r.len];
      assert forall k :: 0 <= k < r.len ==> part[k] == buf[r.off - span.lo + k] == file[r.off + k];
    }
  }

  /** Reads every range, merging ranges at most `gap` apart into one read. It succeeds exactly
      when each merged span is readable, and then returns what reading each range returns. */
  method ReadCoalesced(file: bytes, ranges: seq<Range>, gap: nat) returns (r: Result<seq<bytes>>)
    ensures forall sorted :: SortedByOffset(sorted) && Elements(sorted) == Elements(ranges) ==>
              (r.Ok? <==> Readable(SpansOf(sorted, gap), file))
    ensures r.Ok? ==> |r.value| == |ranges| && forall x :: 0 <= x < |ranges| ==> r.value[x] == Slice(file, ranges[x])
  {
    hide SpansOf, Elements, SortedByOffset, Sorts, MaxEnd, Filled, Readable, ClosedAt;
    var order := SortByOffset(ranges);
    InOrderSorts(ranges, order);
    ghost var rs := InOrder(ranges, order);
    var out: seq<bytes> := seq(|ranges|, _ => []);
    NothingYet(out, ranges, order, rs, gap, file);
    var i := 0;
    while i < |order|
      invariant i <= |order| && ClosedAt(rs, gap, i) && Readable(SpansOf(rs[..i], gap), file)
      invariant Filled(out, ranges, order, file, i)
    {
      var span, j := NextSpan(ranges, order, rs, gap, i);
      SpanVerdict(SpansOf(rs[..i], gap), span, file);
      if span.hi - span.lo > MAX_READ {
        BadSpan(ranges, rs, gap, j, file);
        return Err(Truncated);
      }
      var buf: bytes := [];
      if span.hi > span.lo {
        var d := ReadAt(file, span.lo, span.hi - span.lo);
        if d.None? {
          BadSpan(ranges, rs, gap, j, file);
          return Err(OutOfRange);
        }
        buf := d.value;
      }
      out := CopyOut(out, buf, span, ranges, order, i, j, file);
      i := j;
    }
    assert rs[..i] == rs;
    GoodSpans(ranges, rs, gap, file);
    AllFilled(out, ranges, order, file);
    r := Ok(out);
  }

  lemma NothingYet(out: seq<bytes>, ranges: seq<Range>, order: seq<nat>, rs: seq<Range>, gap: nat, file: bytes)
    requires Indexes(order, ranges) && |out| == |ranges|
    ensures ClosedAt(rs, gap, 0) && Readable(SpansOf(rs[..0], gap), file) && Filled(out, ranges, order, file, 0)
  {
  }

  lemma AllFilled(out: seq<bytes>, ranges: seq<Range>, order: seq<nat>, file: bytes)
    requires Sorts(order, ranges) && Filled(out, ranges, order, file, |order|)
    ensures |out| == |ranges| && forall x :: 0 <= x < |ranges| ==> out[x] == Slice(file, ranges[x])
  {
    forall x | 0 <= x < |ranges| ensures out[x] == Slice(file, ranges[x]) {
      var k := PositionOf(order, ranges, x);
    }
  }

  lemma SpanVerdict(done: seq<Span>, span: Span, file: bytes)
    requires Readable(done, file)
    ensures Readable(done + [span], file) <==>
            span.hi - span.lo <= MAX_READ && (span.hi > span.lo ==> span.hi <= |file|)
  {
    assert (done + [span])[|done|] == span;
  }

  /** The span that the range at position `i` opens, and the position after its last range. */
  method NextSpan(ranges: seq<Range>, order: seq<nat>, ghost rs: seq<Range>, gap: nat, i: nat)
    returns (span: Span, j: nat)
    requires Indexes(order, ranges) && rs == InOrder(ranges, order) && SortedByOffset(rs)
    requires i < |order| && ClosedAt(rs, gap, i)
    ensures i < j <= |order| && ClosedAt(rs, gap, j) && span.lo <= span.hi
    ensures SpansOf(rs[..j], gap) == SpansOf(rs[..i], gap) + [span]
    ensures forall k :: i <= k < j ==> Inside(ranges[order[k]], span)
  {
    hide SpansOf, MaxEnd;
    var first := ranges[order[i]];
    var spanStart, spanEnd := first.off, first.End();
    SpanOpens(rs, gap, i);
    j := i + 1;
    while j < |order| && ranges[order[j]].off <= spanEnd + gap
      invariant i < j <= |order| && spanStart == first.off && spanStart <= spanEnd
      invariant SpansOf(rs[..j], gap) == SpansOf(rs[..i], gap) + [Span(spanStart, spanEnd)]
      invariant forall k :: i <= k < j ==> rs[k].End() <= spanEnd
    {
      SpanGrows(rs, gap, j, SpansOf(rs[..i], gap), spanStart, spanEnd);
      var e := ranges[order[j]].End();
      if e > spanEnd {
        spanEnd := e;
      }
      j := j + 1;
    }
    SpanEnds(rs, gap, j, SpansOf(rs[..i], gap), spanStart, spanEnd);
    span := Span(spanStart, spanEnd);
  }

  // ----- many records at once -----

  /** The requested documents that exist. */
  ghost function Wanted(s: Store, ids: seq<nat>): set<nat> {
    set id | id in ids && id < s.count
  }

  function PairRanges(ids: seq<nat>): (rs: seq<Range>)
    ensures |rs| == |ids| && forall i :: 0 <= i < |ids| ==> rs[i] == PairRange(ids[i])
  {
    seq(|ids|, i requires 0 <= i < |ids| => PairRange(ids[i]))
  }

  /** Where record `id` lies in the blob. */
  ghost function BlobRange(s: Store, id: nat): Range
    requires WellFormed(s) && id < s.count
  {
    Range(Off(s, id), Off(s, id + 1) - Off(s, id))
  }

  ghost function BlobRanges(s: Store, ids: seq<nat>): (rs: seq<Range>)
    requires WellFormed(s) && forall i :: 0 <= i < |ids| ==> ids[i] < s.count
    ensures |rs| == |ids| && forall i :: 0 <= i < |ids| ==> rs[i] == BlobRange(s, ids[i])
  {
    seq(|ids|, i requires 0 <= i < |ids| => BlobRange(s, ids[i]))
  }

  /** Every merged span fits one buffer. */
  ghost predicate Bounded(spans: seq<Span>) {
    forall t :: 0 <= t < |spans| ==> spans[t].hi - spans[t].lo <= MAX_READ
  }

  /** Every merged read of the two waves fits one buffer: what batching asks beyond `Get`. */
  ghost predicate WavesBounded(s: Store, ids: seq<nat>)
    requires WellFormed(s)
  {
    var q := Ordered.Ascending(Wanted(s, ids));
    WantedBelow(s, ids);
    Bounded(SpansOf(PairRanges(q), GAP)) && Bounded(SpansOf(BlobRanges(s, q), GAP))
  }

  lemma WantedBelow(s: Store, ids: seq<nat>)
    ensures var q := Ordered.Ascending(Wanted(s, ids));
            Ordered.Lists(q, Wanted(s, ids)) && forall i :: 0 <= i < |q| ==> q[i] < s.count
  {
    var q := Ordered.Ascending(Wanted(s, ids));
    Ordered.AscendingLists(Wanted(s, ids));
    forall i | 0 <= i < |q| ensures q[i] < s.count {
      assert q[i] in q;
    }
  }

  /** What `Get` comes to on a well-formed store. */
  lemma GetMeans(s: Store, id: nat)
    requires WellFormed(s) && id < s.count
    ensures BlobRange(s, id).End() <= |s.bin|
    ensures var r := BlobRange(s, id);
            Get(s, id) == if r.len > MAX_RECORD then Err(Truncated) else Wrap(Decode(s, Slice(s.bin, r)))
  {
    PairRead(s, id);
    BlobWithin(s, id);
    hide WellFormed, Field, Decode, Off, ReadAt;
    assert ReadAt(s.bin, Off(s, id), BlobRange(s, id).len) == Some(Slice(s.bin, BlobRange(s, id))) by {
      BlobRead(s, id);
    }
  }

  lemma PairRead(s: Store, id: nat)
    requires WellFormed(s) && id < s.count
    ensures var pair := ReadAt(s.idx, PairRange(id).off, 16);
            pair.Some? && |pair.value| == 16 &&
            Field(pair.value, 0, 8) == Off(s, id) && Field(pair.value, 8, 8) == Off(s, id + 1)
  {
    PairFields(s, id);
    hide Field;
  }

  lemma BlobWithin(s: Store, id: nat)
    requires WellFormed(s) && id < s.count
    ensures Off(s, id) <= Off(s, id + 1) <= |s.bin|
  {
  }

  lemma BlobRead(s: Store, id: nat)
    requires WellFormed(s) && id < s.count
    ensures ReadAt(s.bin, Off(s, id), BlobRange(s, id).len) == Some(Slice(s.bin, BlobRange(s, id)))
  {
    BlobWithin(s, id);
    hide WellFormed, Off;
  }

  function Wrap(r: Result<bytes>): Result<Option<bytes>> {
    match r case Err(e) => Err(e) case Ok(data) => Ok(Some(data))
  }

  lemma ReadableIffBounded(rs: seq<Range>, gap: nat, file: bytes)
    requires forall k :: 0 <= k < |rs| ==> rs[k].End() <= |file|
    ensures Readable(SpansOf(rs, gap), file) <==> Bounded(SpansOf(rs, gap))
  {
    SpansWithin(rs, gap, |file|, |file|);
    hide SpansOf;
  }

  /** The two waves' ranges, in ascending document order, are sorted and lie within their files. */
  lemma WaveRanges(s: Store, q: seq<nat>)
    requires WellFormed(s) && Ordered.StrictlyAscending(q) && forall i :: 0 <= i < |q| ==> q[i] < s.count
    ensures SortedByOffset(PairRanges(q)) && SortedByOffset(BlobRanges(s, q))
    ensures Readable(SpansOf(PairRanges(q), GAP), s.idx) <==> Bounded(SpansOf(PairRanges(q), GAP))
    ensures Readable(SpansOf(BlobRanges(s, q), GAP), s.bin) <==> Bounded(SpansOf(BlobRanges(s, q), GAP))
  {
    hide SpansOf, Readable, Bounded;
    ReadableIffBounded(PairRanges(q), GAP, s.idx);
    ReadableIffBounded(BlobRanges(s, q), GAP, s.bin);
  }

  /** The distinct documents that exist, in ascending order. */
  method Distinct(s: Store, ids: seq<nat>) returns (q: seq<nat>)
    ensures q == Ordered.Ascending(Wanted(s, ids))
  {
    var seen: set<nat> := {};
    for i := 0 to |ids|
      invariant seen == Wanted(s, ids[..i])
    {
      assert ids[..i + 1] == ids[..i] + [ids[i]];
      if ids[i] < s.count && ids[i] !in seen {
        seen := seen + {ids[i]};
      }
    }
    assert ids[..|ids|] == ids;
    q := Ordered.Ascending(seen);
  }

  /** The blob ranges the offset pairs name, unless one is longer than any record. */
  method PlanBlobs(s: Store, q: seq<nat>, pairs: seq<bytes>) returns (r: Result<seq<Range>>)
    requires WellFormed(s) && (forall i :: 0 <= i < |q| ==> q[i] < s.count) && |pairs| == |q|
    requires forall i :: 0 <= i < |q| ==> pairs[i] == Slice(s.idx, PairRange(q[i]))
    ensures r.Ok? <==> forall i :: 0 <= i < |q| ==> BlobRange(s, q[i]).len <= MAX_RECORD
    ensures r.Ok? ==> r.value == BlobRanges(s, q)
  {
    var plan: seq<Range> := [];
    for i := 0 to |q|
      invariant |plan| == i && forall k :: 0 <= k < i ==> plan[k] == BlobRange(s, q[k]) && plan[k].len <= MAX_RECORD
    {
      PairFields(s, q[i]);
      hide Field;
      var start, end := Field(pairs[i], 0, 8), Field(pairs[i], 8, 8);
      if end < start || end - start > MAX_RECORD {
        return Err(Truncated);
      }
      plan := plan + [Range(start, end - start)];
    }
    r := Ok(plan);
  }

  method DecodeAll(s: Store, q: seq<nat>, blobs: seq<bytes>) returns (r: Result<map<nat, bytes>>)
    requires |blobs| == |q|
    ensures r.Ok? <==> forall i :: 0 <= i < |q| ==> Decode(s, blobs[i]).Ok?
    ensures r.Ok? ==> forall id :: id in r.value <==> id in q
    ensures r.Ok? && Ordered.StrictlyAscending(q) ==>
              forall i :: 0 <= i < |q| ==> Decode(s, blobs[i]) == Ok(r.value[q[i]])
  {
    hide Decode;
    var out: map<nat, bytes> := map[];
    for i := 0 to |q|
      invariant forall k :: 0 <= k < i ==> Decode(s, blobs[k]).Ok?
      invariant forall id :: id in out <==> id in q[..i]
      invariant Ordered.StrictlyAscending(q) ==> forall k :: 0 <= k < i ==> Decode(s, blobs[k]) == Ok(out[q[k]])
    {
      var d := Decode(s, blobs[i]);
      if d.Err? {
        return Err(d.error);
      }
      out := out[q[i] := d.value];
    }
    r := Ok(out);
  }

  /** The batched read of ascending documents that exist. */
  method ServeAscending(s: Store, q: seq<nat>) returns (r: Result<map<nat, bytes>>)
    requires WellFormed(s) && Ordered.StrictlyAscending(q) && forall i :: 0 <= i < |q| ==> q[i] < s.count
    ensures r.Ok?
            <==> Bounded(SpansOf(PairRanges(q), GAP)) && Bounded(SpansOf(BlobRanges(s, q), GAP)) && AllServed(s, q)
    ensures r.Ok? ==> forall id :: id in r.value <==> id in q
    ensures r.Ok? ==> forall i :: 0 <= i < |q| ==> Get(s, q[i]) == Ok(Some(r.value[q[i]]))
  {
    hide SpansOf, Bounded, Get, Decode, Elements, SortedByOffset, Readable, AllServed, WellFormed;
    WaveRanges(s, q);
    var pairs := ReadCoalesced(s.idx, PairRanges(q), GAP);
    if pairs.Err? {
      return Err(pairs.error);
    }
    var plan := PlanBlobs(s, q, pairs.value);
    if plan.Err? {
      NotAllServed(s, q);
      return Err(plan.error);
    }
    var blobs := ReadCoalesced(s.bin, plan.value, GAP);
    if blobs.Err? {
      return Err(blobs.error);
    }
    r := DecodeAll(s, q, blobs.value);
    ServedMeans(s, q, blobs.value);
  }

  ghost predicate AllServed(s: Store, q: seq<nat>) {
    forall i :: 0 <= i < |q| ==> Get(s, q[i]).Ok?
  }

  lemma AllServedMeans(s: Store, ids: seq<nat>, q: seq<nat>)
    requires Ordered.Lists(q, Wanted(s, ids)) && forall i :: 0 <= i < |q| ==> q[i] < s.count
    ensures AllServed(s, q) <==> forall id :: id in Wanted(s, ids) ==> Get(s, id).Ok?
    ensures forall id :: id in q <==> id in Wanted(s, ids)
  {
    hide Get, Wanted;
    if AllServed(s, q) {
      forall id | id in Wanted(s, ids) ensures Get(s, id).Ok? {
        var i :| 0 <= i < |q| && q[i] == id;
      }
    }
  }

  lemma NotAllServed(s: Store, q: seq<nat>)
    requires WellFormed(s) && (forall i :: 0 <= i < |q| ==> q[i] < s.count)
    requires exists i :: 0 <= i < |q| && BlobRange(s, q[i]).len > MAX_RECORD
    ensures !AllServed(s, q)
  {
    var i :| 0 <= i < |q| && BlobRange(s, q[i]).len > MAX_RECORD;
    GetMeans(s, q[i]);
    hide Get;
  }

  lemma ServedMeans(s: Store, q: seq<nat>, blobs: seq<bytes>)
    requires WellFormed(s) && (forall i :: 0 <= i < |q| ==> q[i] < s.count)
    requires forall i :: 0 <= i < |q| ==> BlobRange(s, q[i]).len <= MAX_RECORD
    requires |blobs| == |q| && forall i :: 0 <= i < |q| ==> blobs[i] == Slice(s.bin, BlobRange(s, q[i]))
    ensures forall i :: 0 <= i < |q| ==> Get(s, q[i]) == Wrap(Decode(s, blobs[i]))
    ensures AllServed(s, q) <==> forall i :: 0 <= i < |q| ==> Decode(s, blobs[i]).Ok?
  {
    hide Get, Decode, BlobRange, Slice;
    forall i | 0 <= i < |q| ensures Get(s, q[i]) == Wrap(Decode(s, blobs[i])) {
      GetMeans(s, q[i]);
    }
  }

  /** The batched read. It succeeds exactly when `Get` does on every requested document and the
      merged reads are bounded, and then it returns what `Get` returns, for the documents that
      exist and no others. */
  method GetMany(s: Store, ids: seq<nat>) returns (r: Result<map<nat, bytes>>)
    requires WellFormed(s)
    ensures r.Ok? <==> WavesBounded(s, ids) && forall id :: id in Wanted(s, ids) ==> Get(s, id).Ok?
    ensures r.Ok? ==> r.value.Keys == Wanted(s, ids)
    ensures r.Ok? ==> forall id :: id in r.value ==> Get(s, id) == Ok(Some(r.value[id]))
  {
    hide SpansOf, Bounded, Get, WellFormed, Wanted, AllServed, PairRanges, BlobRanges;
    var q := Distinct(s, ids);
    WantedBelow(s, ids);
    AllServedMeans(s, ids, q);
    r := ServeAscending(s, q);
    if r.Ok? {
      forall id | id in r.value ensures Get(s, id) == Ok(Some(r.value[id])) {
        var i :| 0 <= i < |q| && q[i] == id;
      }
    }
  }

  // ----- where batching falls short of `Get` -----

  lemma {:induction false} AdjacentMerge(rs: seq<Range>, gap: nat)
    requires rs != [] && forall i :: 0 <= i < |rs| - 1 ==> rs[i + 1].off == rs[i].End()
    ensures SpansOf(rs, gap) == [Span(rs[0].off, rs[|rs| - 1].End())]
    decreases |rs|
  {
    if |rs| == 1 {
      assert rs[..0] == [];
      ExtendsLast(rs, gap);
    } else {
      AdjacentMerge(rs[..|rs| - 1], gap);
      ExtendsLast(rs, gap);
      hide SpansOf;
    }
  }

  lemma {:induction false} EqualStarts(records: seq<bytes>, w: nat, i: nat)
    requires i <= |records| && forall k :: 0 <= k < |records| ==> |records[k]| == w
    ensures Start(records, i) == w * i
  {
    if i > 0 {
      EqualStarts(records, w, i - 1);
      PartSlice(records, i - 1);
      assert w * i == w * (i - 1) + w;
    }
  }

  lemma UpTo17(ids: seq<nat>)
    requires |ids| == 17 && forall i :: 0 <= i < 17 ==> ids[i] == i
    ensures forall id: nat :: id in ids <==> id < 17
  {
    forall id: nat | id < 17 ensures id in ids {
      assert ids[id] == id;
    }
  }

  lemma LargestRecords(records: seq<bytes>) returns (s: Store)
    requires |records| == 17 && forall k :: 0 <= k < 17 ==> |records[k]| == MAX_RECORD
    ensures WellFormed(s) && s.count == 17 && forall i :: 0 <= i < 17 ==> Get(s, i).Ok?
    ensures forall i :: 0 <= i <= 17 ==> Off(s, i) == MAX_RECORD * i
  {
    hide Join, Index, Open, Get, Off;
    EqualStarts(records, MAX_RECORD, 17);
    StartEnds(records);
    WriterRoundTrip(records, None);
    s := Open(Index(17, records), Join(records), None).value;
    forall i | 0 <= i <= 17 ensures Off(s, i) == MAX_RECORD * i {
      WrittenOffset(s, records, i);
      EqualStarts(records, MAX_RECORD, i);
    }
  }

  lemma OneLongSpan(s: Store, ids: seq<nat>)
    requires WellFormed(s) && s.count == 17 && forall i :: 0 <= i <= 17 ==> Off(s, i) == MAX_RECORD * i
    requires |ids| == 17 && forall i :: 0 <= i < 17 ==> ids[i] == i
    ensures !Bounded(SpansOf(BlobRanges(s, ids), GAP))
  {
    var rs := BlobRanges(s, ids);
    hide SpansOf, WellFormed, Off;
    AdjacentMerge(rs, GAP);
    assert SpansOf(rs, GAP)[0] == Span(0, 17 * MAX_RECORD);
  }

  lemma AllWanted(s: Store, ids: seq<nat>)
    requires s.count == 17 && |ids| == 17 && forall i :: 0 <= i < 17 ==> ids[i] == i
    ensures Ordered.Ascending(Wanted(s, ids)) == ids
  {
    UpTo17(ids);
    Ordered.AscendingUnique(Wanted(s, ids), ids);
  }

  /** Seventeen adjacent records of the largest size: each is served alone, but together they
      merge into one read past the bound, so the batch fails. */
  lemma GetManyFallsShort() returns (s: Store, ids: seq<nat>)
    ensures WellFormed(s) && (forall id :: id in ids ==> id < s.count && Get(s, id).Ok?)
    ensures !WavesBounded(s, ids)
  {
    hide Get, SpansOf, WellFormed, Off, Bounded, Wanted;
    var record: bytes := seq(MAX_RECORD, _ => 0);
    s := LargestRecords(seq(17, _ => record));
    ids := seq(17, i => i);
    AllWanted(s, ids);
    OneLongSpan(s, ids);
  }
}
