/** Pass 2 of the ranked build and the positional record store it writes (examples/openalex/stream.go). */
module RankedEmit {
  import opened Wrappers
  import opened Bytes
  import opened RankedBuild
  import Records
  import RangeReader

  // ----- resolving an ID -----

  function IdReached(lookup: seq<IdDoc>, id: nat): nat -> bool {
    (i: nat) => i < |lookup| && lookup[i].id >= id
  }

  /** The document of an ID, by binary search of the lookup. */
  function DocOf(lookup: seq<IdDoc>, id: nat): Option<nat> {
    var i := RangeReader.Search(0, |lookup|, IdReached(lookup, id));
    if i < |lookup| && lookup[i].id == id then Some(lookup[i].doc) else None
  }

  /** Where the search stops. */
  lemma SearchStops(lookup: seq<IdDoc>, id: nat)
    requires forall i, j :: 0 <= i < j < |lookup| ==> lookup[i].id < lookup[j].id
    ensures var i := RangeReader.Search(0, |lookup|, IdReached(lookup, id));
            && (forall k: nat :: k < i ==> lookup[k].id < id) && (i < |lookup| ==> lookup[i].id >= id)
  {
    var p := IdReached(lookup, id);
    assert RangeReader.Monotone(p, |lookup|);
    RangeReader.SearchFindsFirst(0, |lookup|, |lookup|, p);
    hide RangeReader.Search;
    forall k: nat | k < RangeReader.Search(0, |lookup|, p) ensures lookup[k].id < id {
      assert !p(k);
    }
  }

  /** The lookup resolves exactly the ranked IDs, each to its rank. */
  lemma DocOfIsRank(ranked: seq<Work>, lookup: seq<IdDoc>, id: nat)
    requires IsLookup(ranked, lookup)
    ensures match DocOf(lookup, id)
            case Some(d) => d < |ranked| && ranked[d].id == id
            case None => forall d :: 0 <= d < |ranked| ==> ranked[d].id != id
  {
    hide RangeReader.Search, IdReached;
    SearchStops(lookup, id);
    var i := RangeReader.Search(0, |lookup|, IdReached(lookup, id));
    if DocOf(lookup, id).Some? {
      assert lookup[i] in lookup;
    } else {
      forall d: nat | d < |ranked| ensures ranked[d].id != id {
        var e := IdDoc(ranked[d].id, d);
        assert e in lookup;
        var k :| 0 <= k < |lookup| && lookup[k] == e;
        assert k > i ==> lookup[i].id < lookup[k].id;
      }
    }
  }

  // ----- pass 2 -----

  /** The record of the first line pass 2 accepts for the ID. */
  function FirstRec(lines: seq<Line>, id: nat): Option<bytes> {
    if lines == [] then None
    else
      var r := FirstRec(lines[..|lines| - 1], id);
      match lines[|lines| - 1].full
      case None => r
      case Some(f) => if r.None? && f.id == id then Some(f.rec) else r
  }

  datatype RecMeta = RecMeta(doc: nat, off: nat, ln: nat)

  /** The temporary file holds exactly the first record of each work met so far, and `metas` says where. */
  ghost predicate Emitted(ranked: seq<Work>, lines: seq<Line>, metas: seq<RecMeta>, tmp: bytes) {
    && (forall i, j :: 0 <= i < j < |metas| ==> metas[i].doc != metas[j].doc)
    && (forall i :: 0 <= i < |metas| ==> MetaHolds(ranked, lines, metas[i], tmp))
    && (forall d: nat :: d < |ranked| && FirstRec(lines, ranked[d].id).Some? ==> HasDoc(metas, d))
  }

  ghost predicate MetaHolds(ranked: seq<Work>, lines: seq<Line>, m: RecMeta, tmp: bytes) {
    m.doc < |ranked| && m.off + m.ln <= |tmp| && FirstRec(lines, ranked[m.doc].id) == Some(tmp[m.off..m.off + m.ln])
  }

  ghost predicate HasDoc(metas: seq<RecMeta>, d: nat) {
    exists i :: 0 <= i < |metas| && metas[i].doc == d
  }

  lemma RecKept(lines: seq<Line>, line: Line, id: nat)
    ensures FirstRec(lines, id).Some? ==> FirstRec(lines + [line], id) == FirstRec(lines, id)
    ensures FirstRec(lines, id).None? ==>
              FirstRec(lines + [line], id) == if line.full.Some? && line.full.value.id == id
                then Some(line.full.value.rec) else None
  {
    assert (lines + [line])[..|lines|] == lines;
  }

  lemma EmittedSkips(ranked: seq<Work>, lines: seq<Line>, line: Line, metas: seq<RecMeta>, tmp: bytes)
    requires Emitted(ranked, lines, metas, tmp)
    requires forall d: nat :: d < |ranked| && line.full.Some? && line.full.value.id == ranked[d].id ==> HasDoc(metas, d)
    ensures Emitted(ranked, lines + [line], metas, tmp)
  {
    hide FirstRec, HasDoc;
    forall i | 0 <= i < |metas| ensures MetaHolds(ranked, lines + [line], metas[i], tmp) {
      assert MetaHolds(ranked, lines, metas[i], tmp);
      RecKept(lines, line, ranked[metas[i].doc].id);
    }
    forall d: nat | d < |ranked| && FirstRec(lines + [line], ranked[d].id).Some? ensures HasDoc(metas, d) {
      RecKept(lines, line, ranked[d].id);
    }
  }

  lemma EmittedNext(entries: seq<Work>, ranked: seq<Work>, lines: seq<Line>, line: Line, metas: seq<RecMeta>,
                    tmp: bytes, d: nat)
    requires IsRanking(entries, ranked) && Emitted(ranked, lines, metas, tmp) && d < |ranked| && !HasDoc(metas, d)
    requires line.full.Some? && line.full.value.id == ranked[d].id
    ensures Emitted(ranked, lines + [line], metas + [RecMeta(d, |tmp|, |line.full.value.rec|)],
                    tmp + line.full.value.rec)
  {
    hide FirstRec;
    var rec := line.full.value.rec;
    var after, more := tmp + rec, metas + [RecMeta(d, |tmp|, |rec|)];
    forall i | 0 <= i < |more| ensures MetaHolds(ranked, lines + [line], more[i], after) {
      if i < |metas| {
        assert MetaHolds(ranked, lines, metas[i], tmp);
        assert after[metas[i].off..metas[i].off + metas[i].ln] == tmp[metas[i].off..metas[i].off + metas[i].ln];
      } else {
        assert after[|tmp|..|tmp| + |rec|] == rec;
      }
      RecKept(lines, line, ranked[more[i].doc].id);
    }
    forall e: nat | e < |ranked| && FirstRec(lines + [line], ranked[e].id).Some? ensures HasDoc(more, e) {
      RecKept(lines, line, ranked[e].id);
      if FirstRec(lines, ranked[e].id).Some? {
        var i :| 0 <= i < |metas| && metas[i].doc == e;
        assert more[i].doc == e;
      } else {
        assert more[|metas|].doc == e;
      }
    }
  }

  /** The documents marked as seen are those with a record. */
  ghost predicate Marks(seen: seq<bool>, metas: seq<RecMeta>) {
    forall d: nat :: d < |seen| ==> (seen[d] <==> HasDoc(metas, d))
  }

  lemma MarksNext(seen: seq<bool>, metas: seq<RecMeta>, m: RecMeta)
    requires Marks(seen, metas) && m.doc < |seen|
    ensures Marks(seen[m.doc := true], metas + [m])
  {
    var more := metas + [m];
    forall d: nat | d < |seen| ensures HasDoc(more, d) <==> HasDoc(metas, d) || d == m.doc {
      assert more[|metas|] == m;
      if HasDoc(metas, d) {
        var i :| 0 <= i < |metas| && metas[i].doc == d;
        assert more[i].doc == d;
      }
    }
  }

  lemma NothingEmitted(ranked: seq<Work>, seen: seq<bool>)
    requires forall d :: 0 <= d < |seen| ==> !seen[d]
    ensures Emitted(ranked, [], [], []) && Marks(seen, [])
  {
  }

  /** Streams the lines again and emits one record for each work of the lookup: its first. */
  method Emit(lines: seq<Line>, lookup: seq<IdDoc>, ghost entries: seq<Work>, ghost ranked: seq<Work>)
    returns (metas: seq<RecMeta>, tmp: bytes)
    requires IsRanking(entries, ranked) && IsLookup(ranked, lookup)
    ensures Emitted(ranked, lines, metas, tmp)
  {
    hide IsRanking, IsLookup, Emitted, Marks, HasDoc, DocOf;
    LookupLength(ranked, lookup);
    var seenDoc := new bool[|lookup|](_ => false);
    metas, tmp := [], [];
    NothingEmitted(ranked, seenDoc[..]);
    assert lines[..0] == [];
    for i := 0 to |lines|
      invariant Emitted(ranked, lines[..i], metas, tmp) && Marks(seenDoc[..], metas)
    {
      assert lines[..i + 1] == lines[..i] + [lines[i]];
      var full := lines[i].full;
      if full.None? {
        EmittedSkips(ranked, lines[..i], lines[i], metas, tmp);
        continue;
      }
      DocOfIsRank(ranked, lookup, full.value.id);
      var doc := DocOf(lookup, full.value.id);
      if doc.None? {
        EmittedSkips(ranked, lines[..i], lines[i], metas, tmp);
        continue;
      }
      SeenMeans(seenDoc[..], metas, doc.value);
      if seenDoc[doc.value] {
        OthersDiffer(entries, ranked, doc.value);
        EmittedSkips(ranked, lines[..i], lines[i], metas, tmp);
        continue;
      }
      var m := RecMeta(doc.value, |tmp|, |full.value.rec|);
      EmittedNext(entries, ranked, lines[..i], lines[i], metas, tmp, doc.value);
      MarksNext(seenDoc[..], metas, m);
      ghost var was := seenDoc[..];
      seenDoc[doc.value] := true;
      assert seenDoc[..] == was[doc.value := true];
      metas := metas + [m];
      tmp := tmp + full.value.rec;
    }
    assert lines[..|lines|] == lines;
  }

  lemma LookupLength(ranked: seq<Work>, lookup: seq<IdDoc>)
    requires IsLookup(ranked, lookup)
    ensures |lookup| == |ranked|
  {
  }

  lemma SeenMeans(seen: seq<bool>, metas: seq<RecMeta>, d: nat)
    requires Marks(seen, metas) && d < |seen|
    ensures seen[d] <==> HasDoc(metas, d)
  {
  }

  lemma OthersDiffer(entries: seq<Work>, ranked: seq<Work>, d: nat)
    requires IsRanking(entries, ranked) && d < |ranked|
    ensures forall e: nat :: e < |ranked| && ranked[e].id == ranked[d].id ==> e == d
  {
  }

  // ----- the record store, in rank order -----

  function ByDocMeta(a: RecMeta, b: RecMeta): bool {
    a.doc <= b.doc
  }

  /** The records stand in document order without a gap, from document 0. */
  ghost predicate Aligned(sorted: seq<RecMeta>) {
    forall i :: 0 <= i < |sorted| ==> sorted[i].doc == i
  }

  function RecordsAt(sorted: seq<RecMeta>, tmp: bytes): (recs: seq<bytes>)
    ensures |recs| == |sorted|
    ensures forall i :: 0 <= i < |sorted| && sorted[i].off + sorted[i].ln <= |tmp| ==>
              recs[i] == tmp[sorted[i].off..sorted[i].off + sorted[i].ln]
  {
    seq(|sorted|, i requires 0 <= i < |sorted| =>
      if sorted[i].off + sorted[i].ln <= |tmp| then tmp[sorted[i].off..sorted[i].off + sorted[i].ln] else [])
  }

  /** The offset file of the records: a zero, then where each record ends. */
  function Offsets(recs: seq<bytes>): bytes {
    Layout(Records.OffsetFields(recs))
  }

  lemma OffsetsNext(recs: seq<bytes>, rec: bytes)
    ensures Join(recs + [rec]) == Join(recs) + rec
    ensures Offsets(recs + [rec]) == Offsets(recs) + LE(|Join(recs)| + |rec|, 8)
  {
    hide LE;
    JoinAppend(recs, rec);
    assert (recs + [rec])[..|recs|] == recs;
    LayoutAppend(Records.OffsetFields(recs), [Fld(|Join(recs)| + |rec|, 8)]);
    LayoutOne(Fld(|Join(recs)| + |rec|, 8));
  }

  lemma OffsetsNone()
    ensures Join([]) == [] && Offsets([]) == LE(0, 8)
  {
    LayoutOne(Fld(0, 8));
    assert Records.OffsetFields([]) == [Fld(0, 8)];
  }

  /** Rewrites the records in document order; refuses when slot `i` is not document `i`. */
  method WriteRecordsOrdered(tmp: bytes, metas: seq<RecMeta>) returns (r: Result<(bytes, bytes)>)
    requires forall i :: 0 <= i < |metas| ==> metas[i].off + metas[i].ln <= |tmp|
    ensures r.Ok? <==> Aligned(SortBy(metas, ByDocMeta))
    ensures r.Ok? ==> var recs := RecordsAt(SortBy(metas, ByDocMeta), tmp); r.value == (Offsets(recs), Join(recs))
  {
    hide Offsets, Join, LE, SortBy;
    SortSorts(metas, ByDocMeta);
    var sorted := SortBy(metas, ByDocMeta);
    SortedWithin(metas, sorted, tmp);
    for i := 0 to |sorted|
      invariant forall j :: 0 <= j < i ==> sorted[j].doc == j
    {
      if sorted[i].doc != i {
        return Err(Misaligned);
      }
    }
    ghost var recs := RecordsAt(sorted, tmp);
    OffsetsNone();
    var idx, bin, cum := LE(0, 8), [], 0;
    assert recs[..0] == [];
    for i := 0 to |sorted|
      invariant bin == Join(recs[..i]) && cum == |bin| && idx == Offsets(recs[..i])
    {
      var buf := tmp[sorted[i].off..sorted[i].off + sorted[i].ln];
      assert recs[..i + 1] == recs[..i] + [buf];
      OffsetsNext(recs[..i], buf);
      bin := bin + buf;
      cum := cum + sorted[i].ln;
      idx := idx + LE(cum, 8);
    }
    assert recs[..|sorted|] == recs;
    r := Ok((idx, bin));
  }

  lemma SortedWithin(metas: seq<RecMeta>, sorted: seq<RecMeta>, tmp: bytes)
    requires multiset(sorted) == multiset(metas) && forall i :: 0 <= i < |metas| ==> metas[i].off + metas[i].ln <= |tmp|
    ensures forall i :: 0 <= i < |sorted| ==> sorted[i].off + sorted[i].ln <= |tmp|
  {
    SameMembers(sorted, metas);
    forall i | 0 <= i < |sorted| ensures sorted[i].off + sorted[i].ln <= |tmp| {
      assert sorted[i] in sorted;
    }
  }

  // ----- when the store is aligned -----

  ghost predicate Accepted(ranked: seq<Work>, lines: seq<Line>, d: nat) {
    d < |ranked| && FirstRec(lines, ranked[d].id).Some?
  }

  /** Pass 2 accepted a line for the `m` best-ranked works and for none after them. */
  ghost predicate AcceptsFirst(ranked: seq<Work>, lines: seq<Line>, m: nat) {
    m <= |ranked| && forall d: nat :: Accepted(ranked, lines, d) <==> d < m
  }

  ghost predicate Increasing(sorted: seq<RecMeta>) {
    forall i, j :: 0 <= i < j < |sorted| ==> sorted[i].doc < sorted[j].doc
  }

  /** The sorted metas list exactly the accepted documents, ascending. */
  lemma SortedMetas(ranked: seq<Work>, lines: seq<Line>, metas: seq<RecMeta>, tmp: bytes)
    requires Emitted(ranked, lines, metas, tmp)
    ensures var sorted := SortBy(metas, ByDocMeta);
            && Increasing(sorted) && (forall i :: 0 <= i < |sorted| ==> MetaHolds(ranked, lines, sorted[i], tmp))
            && forall d: nat :: Accepted(ranked, lines, d) <==> HasDoc(sorted, d)
  {
    hide MetaHolds, FirstRec, SortBy;
    SortSorts(metas, ByDocMeta);
    var sorted := SortBy(metas, ByDocMeta);
    SameMembers(sorted, metas);
    forall i, j | 0 <= i < j < |sorted| ensures sorted[i].doc < sorted[j].doc {
      DocsDiffer(metas, sorted, i, j);
      assert ByDocMeta(sorted[i], sorted[j]);
    }
    forall i | 0 <= i < |sorted| ensures MetaHolds(ranked, lines, sorted[i], tmp) {
      assert sorted[i] in metas;
    }
    forall d: nat ensures Accepted(ranked, lines, d) <==> HasDoc(sorted, d) {
      if Accepted(ranked, lines, d) {
        var i :| 0 <= i < |metas| && metas[i].doc == d;
        assert metas[i] in sorted;
      }
      if HasDoc(sorted, d) {
        var i :| 0 <= i < |sorted| && sorted[i].doc == d;
        HoldsAccepted(ranked, lines, sorted[i], tmp);
      }
    }
  }

  lemma HoldsAccepted(ranked: seq<Work>, lines: seq<Line>, m: RecMeta, tmp: bytes)
    requires MetaHolds(ranked, lines, m, tmp)
    ensures Accepted(ranked, lines, m.doc)
  {
  }

  lemma DocsDiffer(metas: seq<RecMeta>, sorted: seq<RecMeta>, i: nat, j: nat)
    requires multiset(sorted) == multiset(metas) && i < j < |sorted|
    requires forall i, j :: 0 <= i < j < |metas| ==> metas[i].doc != metas[j].doc
    ensures sorted[i].doc != sorted[j].doc
  {
    StillDistinct(metas, sorted);
    SameMembers(sorted, metas);
    assert sorted[i] in sorted && sorted[j] in sorted;
    var k :| 0 <= k < |metas| && metas[k] == sorted[i];
    var l :| 0 <= l < |metas| && metas[l] == sorted[j];
    assert k != l;
  }

  lemma {:induction false} AtLeastIndex(sorted: seq<RecMeta>, i: nat)
    requires Increasing(sorted) && i < |sorted|
    ensures sorted[i].doc >= i
  {
    if i > 0 {
      AtLeastIndex(sorted, i - 1);
    }
  }

  /** An increasing list has no gap exactly when it lists an initial run. */
  lemma AlignedMeans(ranked: seq<Work>, lines: seq<Line>, sorted: seq<RecMeta>)
    requires Increasing(sorted) && forall d: nat :: Accepted(ranked, lines, d) <==> HasDoc(sorted, d)
    ensures Aligned(sorted) <==> exists m :: AcceptsFirst(ranked, lines, m)
    ensures Aligned(sorted) ==> AcceptsFirst(ranked, lines, |sorted|)
  {
    hide FirstRec;
    if Aligned(sorted) {
      forall d: nat ensures HasDoc(sorted, d) <==> d < |sorted| {
        if d < |sorted| {
          assert sorted[d].doc == d;
        }
      }
      if |sorted| > 0 {
        assert Accepted(ranked, lines, |sorted| - 1);
      }
      assert AcceptsFirst(ranked, lines, |sorted|);
    }
    if m :| AcceptsFirst(ranked, lines, m) {
      forall i | 0 <= i < |sorted| ensures sorted[i].doc == i {
        AtLeastIndex(sorted, i);
        assert HasDoc(sorted, sorted[i].doc);
        forall d: nat | d <= i ensures HasDoc(sorted, d) {
          assert Accepted(ranked, lines, d);
        }
        NoGap(sorted, i);
      }
    }
  }

  lemma {:induction false} NoGap(sorted: seq<RecMeta>, i: nat)
    requires Increasing(sorted) && i < |sorted| && forall d: nat :: d <= i ==> HasDoc(sorted, d)
    ensures sorted[i].doc == i
  {
    AtLeastIndex(sorted, i);
    assert HasDoc(sorted, i);
    var k :| 0 <= k < |sorted| && sorted[k].doc == i;
    if k < i {
      NoGap(sorted, k);
    }
  }

  // ----- both passes -----

  /** The whole build: it fails exactly when the works pass 2 accepts are not the best-ranked ones
      without a gap, and otherwise slot `i` holds the record of the work of rank `i`. */
  method StreamBuild(lines: seq<Line>, limit: int) returns (r: Result<(bytes, bytes)>)
    ensures exists ranked :: Builds(lines, limit, ranked, r)
  {
    hide Builds, IsRanking, IsLookup, Emitted, Offsets, Join, FirstRec, SortBy, Aligned, Increasing, Accepted;
    var lookup, ranked := RankPass(lines, limit);
    var metas, tmp := Emit(lines, lookup, Ranked(lines, limit), ranked);
    EmittedWithin(ranked, lines, metas, tmp);
    SortedMetas(ranked, lines, metas, tmp);
    AlignedMeans(ranked, lines, SortBy(metas, ByDocMeta));
    ghost var recs := RecordsAt(SortBy(metas, ByDocMeta), tmp);
    r := WriteRecordsOrdered(tmp, metas);
    if r.Ok? {
      RecordsAligned(ranked, lines, SortBy(metas, ByDocMeta), tmp);
    }
    BuildsBy(lines, limit, ranked, r, recs);
  }

  /** What the build gives: a store of the best-ranked works' records, or a refusal. */
  ghost predicate Builds(lines: seq<Line>, limit: int, ranked: seq<Work>, r: Result<(bytes, bytes)>) {
    && IsRanking(Ranked(lines, limit), ranked)
    && (r.Ok? <==> exists m :: AcceptsFirst(ranked, lines, m))
    && (r.Ok? ==> exists recs :: StoreOf(lines, ranked, recs, r.value))
  }

  /** Slot `i` of the store holds the record of the work of rank `i`, for every work with a record. */
  ghost predicate StoreOf(lines: seq<Line>, ranked: seq<Work>, recs: seq<bytes>, store: (bytes, bytes)) {
    && store == (Offsets(recs), Join(recs)) && AcceptsFirst(ranked, lines, |recs|)
    && forall i :: 0 <= i < |recs| ==> FirstRec(lines, ranked[i].id) == Some(recs[i])
  }

  lemma BuildsBy(lines: seq<Line>, limit: int, ranked: seq<Work>, r: Result<(bytes, bytes)>, recs: seq<bytes>)
    requires IsRanking(Ranked(lines, limit), ranked) && (r.Ok? <==> exists m :: AcceptsFirst(ranked, lines, m))
    requires r.Ok? ==> StoreOf(lines, ranked, recs, r.value)
    ensures Builds(lines, limit, ranked, r)
  {
  }

  lemma EmittedWithin(ranked: seq<Work>, lines: seq<Line>, metas: seq<RecMeta>, tmp: bytes)
    requires Emitted(ranked, lines, metas, tmp)
    ensures forall i :: 0 <= i < |metas| ==> metas[i].off + metas[i].ln <= |tmp|
  {
    forall i | 0 <= i < |metas| ensures metas[i].off + metas[i].ln <= |tmp| {
      assert MetaHolds(ranked, lines, metas[i], tmp);
    }
  }

  lemma RecordsAligned(ranked: seq<Work>, lines: seq<Line>, sorted: seq<RecMeta>, tmp: bytes)
    requires Aligned(sorted) && forall i :: 0 <= i < |sorted| ==> MetaHolds(ranked, lines, sorted[i], tmp)
    ensures |sorted| <= |ranked|
    ensures var recs := RecordsAt(sorted, tmp); forall i :: 0 <= i < |recs| ==>
              FirstRec(lines, ranked[i].id) == Some(recs[i])
  {
    hide FirstRec;
    var recs := RecordsAt(sorted, tmp);
    if sorted != [] {
      assert MetaHolds(ranked, lines, sorted[|sorted| - 1], tmp);
    }
    forall i | 0 <= i < |recs| ensures FirstRec(lines, ranked[i].id) == Some(recs[i]) {
      assert MetaHolds(ranked, lines, sorted[i], tmp);
    }
  }

  /** Both passes accept the same lines. */
  ghost predicate SameLines(lines: seq<Line>) {
    forall i :: 0 <= i < |lines| ==> (match lines[i].rank
                                      case None => lines[i].full.None?
                                      case Some(w) => lines[i].full.Some? && lines[i].full.value.id == w.id)
  }

  lemma {:induction false} WorkHasRecord(lines: seq<Line>, w: Work)
    requires SameLines(lines) && w in AllWorks(lines)
    ensures FirstRec(lines, w.id).Some?
    decreases |lines|
  {
    var front := lines[..|lines| - 1];
    assert SameLines(front);
    if w in AllWorks(front) {
      WorkHasRecord(front, w);
    }
  }

  /** When both passes accept the same lines every work gets its record: the store is complete,
      and the misalignment check does not fire. */
  lemma SameLinesAlign(lines: seq<Line>, limit: int, ranked: seq<Work>)
    requires SameLines(lines) && IsRanking(Ranked(lines, limit), ranked)
    ensures AcceptsFirst(ranked, lines, |ranked|)
  {
    hide FirstRec, AllWorks;
    forall d: nat | d < |ranked| ensures FirstRec(lines, ranked[d].id).Some? {
      assert ranked[d] in ranked;
      WorkHasRecord(lines, ranked[d]);
    }
  }

  lemma TwoRanked()
    ensures var works := [Work(1, 5), Work(2, 3)]; IsRanking(works, works)
  {
    var works := [Work(1, 5), Work(2, 3)];
    assert works[0] in works && works[1] in works;
  }

  /** The check does not see works missing from the end: here the second of two works gets no
      record, and the build would still accept. */
  lemma MissingTailUnseen()
    ensures var lines := [Line(Some(Work(1, 5)), Some(Full(1, [7]))), Line(Some(Work(2, 3)), None)];
            var ranked := [Work(1, 5), Work(2, 3)];
            IsRanking(Ranked(lines, 0), ranked) && AcceptsFirst(ranked, lines, 1) && |ranked| == 2
  {
    var one := [Line(Some(Work(1, 5)), Some(Full(1, [7])))];
    var lines := one + [Line(Some(Work(2, 3)), None)];
    var ranked := [Work(1, 5), Work(2, 3)];
    assert lines[..1] == one && one[..0] == [];
    assert AllWorks(one) == [Work(1, 5)];
    assert AllWorks(lines) == ranked;
    assert FirstRec(one, 1) == Some([7]) && FirstRec(one, 2) == None;
    assert FirstRec(lines, 1) == Some([7]) && FirstRec(lines, 2) == None;
    TwoRanked();
    hide IsRanking, FirstRec, AllWorks;
    forall d: nat ensures Accepted(ranked, lines, d) <==> d < 1 {
      if d < 2 {
        assert d == 0 || d == 1;
      }
    }
  }
}
