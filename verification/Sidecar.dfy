/** The impact sidecar file: header, sparse index, entry table, impact bytes. Writing it
    (rust/src/bm25.rs, bm25.go), opening it, and finding a term's entry by its posting offset:
    one stripe of the table (rust/src/bm25.rs), or one probe at a time (bm25_read.go). */
module Sidecar {
  import opened Wrappers
  import opened Bytes
  import opened RangeIndex
  import opened Impacts
  import RangeReader
  import Inverted
  import Ordered

  /** The scoring configuration. Floats are their bit patterns; `quantize` turns a frequency, a
      document length, the sum of the lengths and the document count into an impact byte. */
  datatype Params = Params(scale: nat, k1: nat, b: nat, avg: (nat, nat) -> nat, quantize: (nat, nat, nat, nat) -> byte)

  function Sum(lens: seq<nat>): nat {
    if lens == [] then 0 else Sum(lens[..|lens| - 1]) + lens[|lens| - 1]
  }

  function LenOf(lens: seq<nat>, doc: nat): nat {
    if doc < |lens| then lens[doc] else 0
  }

  /** One impact byte for each document of the term, in posting order. */
  function ImpactBytes(p: Params, tfs: seq<DocTf>, lens: seq<nat>, sum: nat): (b: bytes)
    ensures |b| == |tfs|
    ensures forall i :: 0 <= i < |tfs| ==> b[i] == p.quantize(tfs[i].tf, LenOf(lens, tfs[i].doc), sum, |lens|)
  {
    seq<byte>(|tfs|, i requires 0 <= i < |tfs| => p.quantize(tfs[i].tf, LenOf(lens, tfs[i].doc), sum, |lens|))
  }

  type Dict = seq<(bytes, nat)>

  /** An entry for each dictionary term: its posting offset and its impact bytes. */
  function EntriesOfDict(p: Params, dict: Dict, terms: Stats, lens: seq<nat>): (es: seq<Entry>)
    ensures |es| == |dict|
    ensures forall i :: 0 <= i < |dict| && dict[i].0 in terms ==>
              es[i] == Entry(dict[i].1, ImpactBytes(p, terms[dict[i].0], lens, Sum(lens)))
  {
    seq(|dict|, i requires 0 <= i < |dict| =>
      if dict[i].0 in terms then Entry(dict[i].1, ImpactBytes(p, terms[dict[i].0], lens, Sum(lens)))
         else Entry(dict[i].1, []))
  }

  // ----- the layout -----

  function EntriesAt(n: nat): nat { SIDECAR_HEADER + 8 * SparseCount(n, STRIDE) }

  function ImpactsAt(n: nat): nat { EntriesAt(n) + ROW * n }

  function SideHeader(p: Params, n: nat, docs: nat, sum: nat): (fs: seq<Fld>)
    ensures |fs| == 13
  {
    [Fld(SIDECAR_MAGIC, 4), Fld(SIDECAR_VERSION, 2), Fld(0, 2), Fld(p.scale, 4), Fld(p.k1, 4), Fld(p.b, 4),
     Fld(p.avg(sum, docs), 4),
     Fld(n, 4), Fld(STRIDE, 4), Fld(EntriesAt(n), 8), Fld(ImpactsAt(n), 8), Fld(docs, 8), Fld(0, 8)]
  }

  function SideMeta(p: Params, es: seq<Entry>, docs: nat, sum: nat): seq<Fld> {
    SideHeader(p, |es|, docs, sum) + Sparse(es, STRIDE) + DictFields(es, 0, |es|)
  }

  /** The sidecar of these entries over `docs` documents of `sum` tokens. */
  function SidecarOf(p: Params, es: seq<Entry>, docs: nat, sum: nat): bytes {
    Layout(SideMeta(p, es, docs, sum)) + Join(PostingsOf(es))
  }

  lemma SideWidths(p: Params, n: nat, docs: nat, sum: nat)
    ensures var h := SideHeader(p, n, docs, sum);
            && Width(h, 0) == 0 && Width(h, 1) == 4 && Width(h, 3) == 8 && Width(h, 4) == 12 && Width(h, 5) == 16
            && Width(h, 6) == 20 && Width(h, 7) == 24 && Width(h, 8) == 28
            && Width(h, 9) == 32 && Width(h, 10) == 40 && Width(h, 11) == 48 && Width(h, 13) == SIDECAR_HEADER
  {
    hide EntriesAt, ImpactsAt;
    var h := SideHeader(p, n, docs, sum);
    assert Width(h, 0) == 0;
    hide Width;
    WidthNext(h, 0); WidthNext(h, 1); WidthNext(h, 2); WidthNext(h, 3); WidthNext(h, 4); WidthNext(h, 5);
      WidthNext(h, 6);
    WidthNext(h, 7); WidthNext(h, 8); WidthNext(h, 9); WidthNext(h, 10); WidthNext(h, 11); WidthNext(h, 12);
  }

  /** Row `p` of the entry table: posting offset, where its impacts start, how many there are. */
  ghost predicate EntryAt(file: bytes, es: seq<Entry>, i: nat)
    requires i < |es|
  {
    var at := EntriesAt(|es|) + ROW * i;
    && FieldsAt(file, at, es[i].key, 8) && FieldsAt(file, at + 8, Start(PostingsOf(es), i), 8)
    && FieldsAt(file, at + 16, |es[i].posting|, 4)
    && ReadAt(file, ImpactsAt(|es|) + Start(PostingsOf(es), i), |es[i].posting|) == Some(es[i].posting)
  }

  ghost predicate SideHeaderAt(file: bytes, p: Params, n: nat, docs: nat) {
    && FieldsAt(file, 0, SIDECAR_MAGIC, 4) && FieldsAt(file, 4, SIDECAR_VERSION, 2) && FieldsAt(file, 8, p.scale, 4)
    && FieldsAt(file, 24, n, 4) && FieldsAt(file, 28, STRIDE, 4) && FieldsAt(file, 32, EntriesAt(n), 8)
    && FieldsAt(file, 40, ImpactsAt(n), 8) && FieldsAt(file, 48, docs, 8)
  }

  /** What the file holds, in the terms a reader addresses it by. */
  ghost predicate SideLaidOut(file: bytes, p: Params, es: seq<Entry>, docs: nat) {
    && SideHeaderAt(file, p, |es|, docs)
    && (forall i: nat :: i < SparseCount(|es|, STRIDE) ==>
        FieldsAt(file, SIDECAR_HEADER + 8 * i, KeyAt(es, i * STRIDE), 8))
    && (forall i: nat :: i < |es| ==> EntryAt(file, es, i))
    && |file| == ImpactsAt(|es|) + |Join(PostingsOf(es))|
  }

  ghost predicate SideFits(p: Params, es: seq<Entry>, docs: nat, sum: nat) {
    && p.scale < TWO_32 && |es| < TWO_32 && docs < TWO_64 && |SidecarOf(p, es, docs, sum)| < TWO_64
    && forall i :: 0 <= i < |es| ==> es[i].key < TWO_64 && |es[i].posting| < TWO_32
  }

  lemma SideHead(p: Params, es: seq<Entry>, docs: nat, sum: nat, d: seq<Fld>, k: nat)
    ensures var a := SideHeader(p, |es|, docs, sum) + Sparse(es, STRIDE);
            Width(a, |a|) == EntriesAt(|es|) && Width(a + d, |a| + k) == EntriesAt(|es|) + Width(d, k)
  {
    hide Width, SideHeader, Sparse, SparseCount;
    var h, s := SideHeader(p, |es|, docs, sum), Sparse(es, STRIDE);
    SideWidths(p, |es|, docs, sum);
    SparseWidth(es, STRIDE, |s|);
    WidthAppend(h, s, |s|);
    WidthAppend(h + s, d, k);
  }

  lemma SideMetaSize(p: Params, es: seq<Entry>, docs: nat, sum: nat)
    ensures |Layout(SideMeta(p, es, docs, sum))| == ImpactsAt(|es|)
  {
    hide Width, SideHeader, Sparse, Layout, SparseCount, EntriesAt, DictFields;
    var d := DictFields(es, 0, |es|);
    SideHead(p, es, docs, sum, d, |d|);
    DictWidths(es, 0, |es|);
    LayoutSize(SideMeta(p, es, docs, sum));
  }

  lemma SideHeaderLaidOut(p: Params, es: seq<Entry>, docs: nat, sum: nat)
    requires SideFits(p, es, docs, sum)
    ensures SideHeaderAt(SidecarOf(p, es, docs, sum), p, |es|, docs)
  {
    hide Width, Sparse, SparseCount, DictFields, Layout, Power, FieldsAt, Join, PostingsOf, EntriesAt, ImpactsAt;
    var file, h := SidecarOf(p, es, docs, sum), SideHeader(p, |es|, docs, sum);
    var rest, post := Sparse(es, STRIDE) + DictFields(es, 0, |es|), Join(PostingsOf(es));
    SideMetaSize(p, es, docs, sum);
    OffsetsFit(p, es, docs, sum);
    SideWidths(p, |es|, docs, sum);
    PowerLiterals();
    NoWidth();
    assert SideMeta(p, es, docs, sum) == [] + h + rest;
    GroupField(file, [], h, rest, post, 0);
    GroupField(file, [], h, rest, post, 1);
    GroupField(file, [], h, rest, post, 3);
    GroupField(file, [], h, rest, post, 7);
    GroupField(file, [], h, rest, post, 8);
    GroupField(file, [], h, rest, post, 9);
    GroupField(file, [], h, rest, post, 10);
    GroupField(file, [], h, rest, post, 11);
  }

  /** The scoring parameters stand in the header: k1, b and the average length. */
  lemma ConfigLaidOut(p: Params, es: seq<Entry>, docs: nat, sum: nat)
    ensures var file := SidecarOf(p, es, docs, sum);
            && (p.k1 < TWO_32 ==> FieldsAt(file, 12, p.k1, 4)) && (p.b < TWO_32 ==> FieldsAt(file, 16, p.b, 4))
            && (p.avg(sum, docs) < TWO_32 ==> FieldsAt(file, 20, p.avg(sum, docs), 4))
  {
    hide Width, Sparse, SparseCount, DictFields, Layout, Power, FieldsAt, Join, PostingsOf, EntriesAt, ImpactsAt;
    var file, h := SidecarOf(p, es, docs, sum), SideHeader(p, |es|, docs, sum);
    var rest, post := Sparse(es, STRIDE) + DictFields(es, 0, |es|), Join(PostingsOf(es));
    SideWidths(p, |es|, docs, sum);
    PowerLiterals();
    NoWidth();
    assert SideMeta(p, es, docs, sum) == [] + h + rest;
    if p.k1 < TWO_32 {
      GroupField(file, [], h, rest, post, 4);
    }
    if p.b < TWO_32 {
      GroupField(file, [], h, rest, post, 5);
    }
    if p.avg(sum, docs) < TWO_32 {
      GroupField(file, [], h, rest, post, 6);
    }
  }

  lemma NoWidth()
    ensures Width([], 0) == 0
  {
  }

  lemma OffsetsFit(p: Params, es: seq<Entry>, docs: nat, sum: nat)
    requires SideFits(p, es, docs, sum)
    ensures EntriesAt(|es|) <= ImpactsAt(|es|) < TWO_64
    ensures forall i :: 0 <= i <= |es| ==> Start(PostingsOf(es), i) < TWO_64
  {
    hide SideMeta, Layout, Join, SparseCount;
    SideMetaSize(p, es, docs, sum);
    forall i | 0 <= i <= |es| ensures Start(PostingsOf(es), i) < TWO_64 {
      StartsGrow(PostingsOf(es), i, |es|);
    }
  }

  lemma SideSparseLaidOut(p: Params, es: seq<Entry>, docs: nat, sum: nat, i: nat)
    requires i < SparseCount(|es|, STRIDE) && KeyAt(es, i * STRIDE) < TWO_64
    ensures FieldsAt(SidecarOf(p, es, docs, sum), SIDECAR_HEADER + 8 * i, KeyAt(es, i * STRIDE), 8)
  {
    var s := Sparse(es, STRIDE);
    assert s[i] == Fld(KeyAt(es, i * STRIDE), 8);
    hide Width, SideHeader, Sparse, DictFields, KeyAt, SparseCount, Layout, Power, FieldsAt, Join;
    SideWidths(p, |es|, docs, sum);
    SparseWidth(es, STRIDE, i);
    PowerLiterals();
    GroupField(SidecarOf(p, es, docs, sum), SideHeader(p, |es|, docs, sum), s, DictFields(es, 0, |es|),
               Join(PostingsOf(es)), i);
  }

  lemma SideRowField(p: Params, es: seq<Entry>, docs: nat, sum: nat, i: nat, j: nat, f: Fld)
    requires i < |es| && j < 3 && f == DictRow(es, 0, i)[j] && f.v < Power(f.n)
    ensures FieldsAt(SidecarOf(p, es, docs, sum), EntriesAt(|es|) + ROW * i + 8 * j, f.v, f.n)
  {
    hide Width, SideHeader, Sparse, DictFields, DictRow, Layout, Power, FieldsAt, Join, SparseCount, PostingsOf,
         EntriesAt;
    var a, d := SideHeader(p, |es|, docs, sum) + Sparse(es, STRIDE), DictFields(es, 0, |es|);
    SideHead(p, es, docs, sum, [], 0);
    DictFieldAt(es, 0, |es|, i, j);
    LastGroupField(SidecarOf(p, es, docs, sum), a, d, Join(PostingsOf(es)), 3 * i + j);
  }

  lemma SideEntryLaidOut(p: Params, es: seq<Entry>, docs: nat, sum: nat, i: nat)
    requires SideFits(p, es, docs, sum) && i < |es|
    ensures EntryAt(SidecarOf(p, es, docs, sum), es, i)
  {
    hide SideMeta, Power, FieldsAt, EntriesAt, Join, Start, PostingsOf, ReadAt, Layout;
    var meta, ps := Layout(SideMeta(p, es, docs, sum)), PostingsOf(es);
    PowerLiterals();
    SideMetaSize(p, es, docs, sum);
    OffsetsFit(p, es, docs, sum);
    PostingSlice(ps, i);
    PostingIsPart(es, i);
    SliceOfTail(meta, Join(ps), Start(ps, i), ps[i]);
    var row := DictRow(es, 0, i);
    SideRowField(p, es, docs, sum, i, 0, row[0]);
    SideRowField(p, es, docs, sum, i, 1, row[1]);
    SideRowField(p, es, docs, sum, i, 2, row[2]);
  }

  lemma PostingIsPart(es: seq<Entry>, i: nat)
    requires i < |es|
    ensures |PostingsOf(es)| == |es| && PostingsOf(es)[i] == es[i].posting
  {
  }

  /** Everything the writer puts in the sidecar is where a reader looks for it. */
  lemma SideWrittenLaidOut(p: Params, es: seq<Entry>, docs: nat, sum: nat)
    requires SideFits(p, es, docs, sum)
    ensures SideLaidOut(SidecarOf(p, es, docs, sum), p, es, docs)
  {
    hide SideMeta, Layout, SparseCount, SideHeaderAt, EntryAt, KeyAt, Join, FieldsAt, ImpactsAt;
    var file := SidecarOf(p, es, docs, sum);
    SideHeaderLaidOut(p, es, docs, sum);
    SideMetaSize(p, es, docs, sum);
    forall i: nat | i < SparseCount(|es|, STRIDE)
      ensures FieldsAt(file, SIDECAR_HEADER + 8 * i, KeyAt(es, i * STRIDE), 8) {
      KeysFit(es, i * STRIDE);
      SideSparseLaidOut(p, es, docs, sum, i);
    }
    forall i: nat | i < |es| ensures EntryAt(file, es, i) {
      SideEntryLaidOut(p, es, docs, sum, i);
    }
  }

  lemma KeysFit(es: seq<Entry>, i: nat)
    requires forall i :: 0 <= i < |es| ==> es[i].key < TWO_64
    ensures KeyAt(es, i) < TWO_64
  {
  }

  // ----- the in-memory writer -----

  ghost predicate OffsetsAscend(dict: Dict, n: nat)
    requires n <= |dict|
  {
    forall i :: 0 < i < n ==> dict[i - 1].1 < dict[i].1
  }

  /** What the writer demands: documents, ascending offsets, statistics for every term. */
  ghost predicate Writable(dict: Dict, terms: Stats, lens: seq<nat>) {
    lens != [] && OffsetsAscend(dict, |dict|) && forall i :: 0 <= i < |dict| ==> dict[i].0 in terms
  }

  ghost predicate WithinLens(terms: Stats, lens: seq<nat>) {
    forall t, e :: t in terms && e in terms[t] ==> e.doc < |lens|
  }

  /** The rows gathered for the first `i` terms, and their impact bytes. */
  ghost predicate RowsOf(es: seq<Entry>, i: nat, rows: seq<(nat, nat, nat)>, impacts: bytes) {
    && i <= |es| == |PostingsOf(es)| && |rows| == i && impacts == Join(PostingsOf(es)[..i])
    && forall j :: 0 <= j < i ==> rows[j] == (es[j].key, Start(PostingsOf(es), j), |es[j].posting|)
  }

  lemma RowsNext(es: seq<Entry>, i: nat, rows: seq<(nat, nat, nat)>, impacts: bytes)
    requires RowsOf(es, i, rows, impacts) && i < |es|
    ensures RowsOf(es, i + 1, rows + [(es[i].key, |impacts|, |es[i].posting|)], impacts + es[i].posting)
  {
    hide PostingsOf, Join;
    PostingStep(es, i);
  }

  lemma RowsNone(es: seq<Entry>)
    ensures RowsOf(es, 0, [], [])
  {
  }

  method WriteImpacts(dict: Dict, terms: Stats, lens: seq<nat>, p: Params) returns (r: Result<bytes>)
    requires WithinLens(terms, lens)
    ensures r.Ok? <==> Writable(dict, terms, lens)
    ensures r.Ok? ==> r.value == SidecarOf(p, EntriesOfDict(p, dict, terms, lens), |lens|, Sum(lens))
    ensures r.Ok? ==> forall docs :: terms == StatsOf(docs) && lens == Lens(docs) ==>
              FollowsCorpus(r.value, p, dict, docs, n => n)
  {
    hide RowsOf, SidecarOf, WithinLens, FollowsCorpus, StatsOf, EntriesOfDict;
    if lens == [] {
      return Err(Malformed);
    }
    var sum := SumOf(lens);
    ghost var es := EntriesOfDict(p, dict, terms, lens);
    RowsNone(es);
    var rows: seq<(nat, nat, nat)>, impacts: bytes := [], [];
    for i := 0 to |dict|
      invariant RowsOf(es, i, rows, impacts)
      invariant OffsetsAscend(dict, i) && forall j :: 0 <= j < i ==> dict[j].0 in terms
    {
      if i > 0 && dict[i].1 <= dict[i - 1].1 {
        return Err(Malformed);
      }
      if dict[i].0 !in terms {
        return Err(Malformed);
      }
      var tfs := terms[dict[i].0];
      RowsNext(es, i, rows, impacts);
      rows := rows + [(dict[i].1, |impacts|, |tfs|)];
      impacts := impacts + ImpactBytes(p, tfs, lens, sum);
    }
    var out := Assemble(p, rows, impacts, |lens|, sum, es);
    forall docs | terms == StatsOf(docs) && lens == Lens(docs) ensures FollowsCorpus(out, p, dict, docs, n => n) {
      StatsListed(dict, docs);
      SidecarFollows(p, dict, terms, docs, n => n);
    }
    r := Ok(out);
  }

  // ----- the impact bytes, from the documents -----

  lemma {:induction false} SumAppend(a: seq<nat>, b: seq<nat>)
    ensures Sum(a + b) == Sum(a) + Sum(b)
    decreases |b|
  {
    if b == [] {
      assert a + b == a;
    } else {
      assert (a + b)[..|a + b| - 1] == a + b[..|b| - 1];
      SumAppend(a, b[..|b| - 1]);
    }
  }

  /** The sum of the lengths is the number of tokens in the corpus. */
  lemma {:induction false} SumIsTokens(docs: seq<seq<bytes>>)
    ensures Sum(Lens(docs)) == |AllTokens(docs)|
  {
    if docs != [] {
      SumIsTokens(docs[..|docs| - 1]);
      assert Lens(docs)[..|docs| - 1] == Lens(docs[..|docs| - 1]);
    }
  }

  /** Where the impact bytes of dictionary term `i` start: one byte for each document of the terms before. */
  ghost function RowStart(dict: Dict, docs: seq<seq<bytes>>, i: nat): nat
    requires i <= |dict|
  {
    if i == 0 then 0 else RowStart(dict, docs, i - 1) + |Inverted.Holding(docs, dict[i - 1].0)|
  }

  /** The byte of a term and a document that holds it, at the document's rank among those that do: made
      from the term's count there, as `seen`, the document's length, and the corpus's tokens and documents. */
  ghost predicate ByteFollows(file: bytes, p: Params, dict: Dict, docs: seq<seq<bytes>>, seen: nat -> nat, i: nat,
                              d: nat)
    requires i < |dict| && d < |docs|
  {
    var at := ImpactsAt(|dict|) + RowStart(dict, docs, i) + Ordered.Rank(Inverted.Holding(docs, dict[i].0), d) - 1;
    && 0 <= at < |file|
    && file[at] == p.quantize(seen(multiset(docs[d])[dict[i].0]), |docs[d]|, |AllTokens(docs)|, |docs|)
  }

  ghost predicate ImpactsFollow(file: bytes, p: Params, dict: Dict, docs: seq<seq<bytes>>, seen: nat -> nat) {
    forall i: nat, d: nat :: i < |dict| && d < |docs| && dict[i].0 in docs[d] ==>
      ByteFollows(file, p, dict, docs, seen, i, d)
  }

  /** The file of a corpus: the scoring parameters with the average of its own tokens and documents, and
      the impact bytes. */
  ghost predicate FollowsCorpus(file: bytes, p: Params, dict: Dict, docs: seq<seq<bytes>>, seen: nat -> nat) {
    && ImpactsFollow(file, p, dict, docs, seen)
    && (p.k1 < TWO_32 ==> FieldsAt(file, 12, p.k1, 4)) && (p.b < TWO_32 ==> FieldsAt(file, 16, p.b, 4))
    && (p.avg(|AllTokens(docs)|, |docs|) < TWO_32 ==> FieldsAt(file, 20, p.avg(|AllTokens(docs)|, |docs|), 4))
  }

  /** The statistics list the documents that hold `t`, in order, with their counts as `seen`. */
  ghost predicate Listed(terms: Stats, t: bytes, docs: seq<seq<bytes>>, seen: nat -> nat) {
    && t in terms && |terms[t]| == |Inverted.Holding(docs, t)|
    && forall d :: d in Inverted.Holding(docs, t) ==>
         var j := Ordered.Rank(Inverted.Holding(docs, t), d) - 1;
         0 <= j < |terms[t]| && terms[t][j] == DocTf(d, seen(Occurs(docs[d], t)))
  }

  ghost predicate AllListed(dict: Dict, terms: Stats, docs: seq<seq<bytes>>, seen: nat -> nat) {
    forall i :: 0 <= i < |dict| ==> Listed(terms, dict[i].0, docs, seen)
  }

  lemma {:induction false} RowStarts(p: Params, dict: Dict, terms: Stats, docs: seq<seq<bytes>>, seen: nat -> nat,
                                     i: nat)
    requires i <= |dict| && AllListed(dict, terms, docs, seen)
    ensures var es := EntriesOfDict(p, dict, terms, Lens(docs));
              |PostingsOf(es)| == |dict| && Start(PostingsOf(es), i) == RowStart(dict, docs, i)
  {
    hide Join, Inverted.Holding, Sum, AllListed, Listed, Start, PostingsOf;
    var es := EntriesOfDict(p, dict, terms, Lens(docs));
    PostingCount(es);
    if i == 0 {
      StartZero(PostingsOf(es));
    } else {
      RowStarts(p, dict, terms, docs, seen, i - 1);
      PostingIsPart(es, i - 1);
      PartSlice(PostingsOf(es), i - 1);
      ListedSize(dict, terms, docs, seen, i - 1);
    }
  }

  lemma ListedSize(dict: Dict, terms: Stats, docs: seq<seq<bytes>>, seen: nat -> nat, i: nat)
    requires i < |dict| && AllListed(dict, terms, docs, seen)
    ensures dict[i].0 in terms && |terms[dict[i].0]| == |Inverted.Holding(docs, dict[i].0)|
  {
    hide Inverted.Holding, Ordered.Rank, Occurs;
    assert Listed(terms, dict[i].0, docs, seen);
  }

  lemma PostingCount(es: seq<Entry>)
    ensures |PostingsOf(es)| == |es|
  {
  }

  lemma StartZero(ps: seq<bytes>)
    ensures Start(ps, 0) == 0
  {
    assert ps[..0] == [];
  }

  lemma SidecarByte(p: Params, es: seq<Entry>, docs: nat, sum: nat, i: nat, j: nat)
    requires i < |es| && j < |es[i].posting|
    ensures |PostingsOf(es)| == |es|
    ensures var at, file := ImpactsAt(|es|) + Start(PostingsOf(es), i) + j, SidecarOf(p, es, docs, sum);
              at < |file| && file[at] == es[i].posting[j]
  {
    hide SideMeta, Layout, Join, Start, ImpactsAt;
    SideMetaSize(p, es, docs, sum);
    PostingIsPart(es, i);
    PartSlice(PostingsOf(es), i);
    var post, s := Join(PostingsOf(es)), Start(PostingsOf(es), i);
    assert post[s..s + |es[i].posting|][j] == post[s + j];
  }

  lemma FollowsOne(p: Params, dict: Dict, terms: Stats, docs: seq<seq<bytes>>, seen: nat -> nat, i: nat, d: nat)
    requires AllListed(dict, terms, docs, seen) && i < |dict| && d < |docs| && dict[i].0 in docs[d]
    ensures var file := SidecarOf(p, EntriesOfDict(p, dict, terms, Lens(docs)), |docs|, Sum(Lens(docs)));
              ByteFollows(file, p, dict, docs, seen, i, d)
  {
    hide SidecarOf, Sum, Start, PostingsOf, ImpactsAt, RowStart, Ordered.Rank, AllTokens, Occurs;
    var es := EntriesOfDict(p, dict, terms, Lens(docs));
    assert Listed(terms, dict[i].0, docs, seen);
    var j := Ordered.Rank(Inverted.Holding(docs, dict[i].0), d) - 1;
    RowStarts(p, dict, terms, docs, seen, i);
    SidecarByte(p, es, |docs|, Sum(Lens(docs)), i, j);
    OccursIs(docs[d], dict[i].0);
    SumIsTokens(docs);
  }

  /** A sidecar of such statistics is the file of the corpus. */
  lemma SidecarFollows(p: Params, dict: Dict, terms: Stats, docs: seq<seq<bytes>>, seen: nat -> nat)
    requires AllListed(dict, terms, docs, seen)
    ensures FollowsCorpus(SidecarOf(p, EntriesOfDict(p, dict, terms, Lens(docs)), |docs|, Sum(Lens(docs))), p, dict,
                          docs,
                          seen)
  {
    hide SidecarOf, Sum, ByteFollows, EntriesOfDict, AllListed, FieldsAt, AllTokens;
    SumIsTokens(docs);
    ConfigLaidOut(p, EntriesOfDict(p, dict, terms, Lens(docs)), |docs|, Sum(Lens(docs)));
    forall i: nat, d: nat | i < |dict| && d < |docs| && dict[i].0 in docs[d]
      ensures ByteFollows(SidecarOf(p, EntriesOfDict(p, dict, terms, Lens(docs)), |docs|, Sum(Lens(docs))), p, dict,
                          docs,
                          seen, i, d)
    {
      FollowsOne(p, dict, terms, docs, seen, i, d);
    }
  }

  /** The corpus's own statistics are listed so. */
  lemma StatsListed(dict: Dict, docs: seq<seq<bytes>>)
    requires forall i :: 0 <= i < |dict| ==> dict[i].0 in StatsOf(docs)
    ensures AllListed(dict, StatsOf(docs), docs, n => n)
  {
    hide StatsOf, Listed;
    forall i | 0 <= i < |dict| ensures Listed(StatsOf(docs), dict[i].0, docs, n => n) {
      StatsListedOne(dict[i].0, docs);
    }
  }

  lemma StatsListedOne(t: bytes, docs: seq<seq<bytes>>)
    requires t in StatsOf(docs)
    ensures Listed(StatsOf(docs), t, docs, n => n)
  {
    hide TfList, Ordered.Rank, Occurs, Inverted.Holding;
    StatsFollowPosting(docs, t);
    forall d | d in Inverted.Holding(docs, t)
      ensures d < |docs|
      ensures var j := Ordered.Rank(Inverted.Holding(docs, t), d) - 1;
              0 <= j < |TfList(docs, t)| && TfList(docs, t)[j] == DocTf(d, Occurs(docs[d], t))
    {
      HeldIn(docs, t, d);
      TfAtRank(docs, t, d);
    }
  }

  lemma HeldIn(docs: seq<seq<bytes>>, t: bytes, d: nat)
    requires d in Inverted.Holding(docs, t)
    ensures d < |docs|
  {
  }

  method SumOf(lens: seq<nat>) returns (s: nat)
    ensures s == Sum(lens)
  {
    s := 0;
    for i := 0 to |lens|
      invariant s == Sum(lens[..i])
    {
      assert lens[..i + 1][..i] == lens[..i];
      s := s + lens[i];
    }
    assert lens[..|lens|] == lens;
  }

  lemma RowIs(es: seq<Entry>, rows: seq<(nat, nat, nat)>, impacts: bytes, i: nat)
    requires RowsOf(es, |es|, rows, impacts) && i < |es|
    ensures |rows| == |es| && rows[i] == (es[i].key, 0 + Start(PostingsOf(es), i), |es[i].posting|)
  {
  }

  lemma RowsEnd(es: seq<Entry>, rows: seq<(nat, nat, nat)>, impacts: bytes)
    requires RowsOf(es, |es|, rows, impacts)
    ensures |rows| == |es| && impacts == Join(PostingsOf(es))
  {
    assert PostingsOf(es)[..|es|] == PostingsOf(es);
  }

  /** Header, sparse index, rows and impact bytes, put together. */
  method Assemble(p: Params, rows: seq<(nat, nat, nat)>, impacts: bytes, docs: nat, sum: nat, ghost es: seq<Entry>)
    returns (out: bytes)
    requires RowsOf(es, |es|, rows, impacts)
    ensures out == SidecarOf(p, es, docs, sum)
  {
    hide Layout, LE, Join, DictFields, SparseFields, SideHeader, Start, PostingsOf, RowsOf, SparseCount;
    RowsEnd(es, rows, impacts);
    var n := |rows|;
    LayoutEmpty(es, STRIDE, 0);
    var sparse := [];
    for i := 0 to SparseCount(n, STRIDE)
      invariant sparse == Layout(SparseFields(es, STRIDE, i))
    {
      SparseCountMeans(n, STRIDE, i);
      SparseStep(es, STRIDE, i);
      RowIs(es, rows, impacts, i * STRIDE);
      sparse := sparse + LE(rows[i * STRIDE].0, 8);
    }
    var table := [];
    for i := 0 to n
      invariant table == Layout(DictFields(es, 0, i))
    {
      DictStep(es, 0, i);
      RowIs(es, rows, impacts, i);
      table := table + (LE(rows[i].0, 8) + LE(rows[i].1, 8) + LE(rows[i].2, 4));
    }
    LayoutAppend(SideHeader(p, n, docs, sum) + Sparse(es, STRIDE), DictFields(es, 0, n));
    LayoutAppend(SideHeader(p, n, docs, sum), Sparse(es, STRIDE));
    out := Layout(SideHeader(p, n, docs, sum)) + sparse + table + impacts;
  }

  // ----- opening -----

  datatype Index = Index(file: bytes, scale: nat, n: nat, stride: nat, entriesOff: nat, impactsOff: nat, docs: nat,
                         sparse: seq<nat>)

  /** Boots the sidecar: the header and the resident sparse index. `usable` says whether a scale's
      bits are a finite positive float. */
  function Open(file: bytes, usable: nat -> bool): Result<Index> {
    if |file| < SIDECAR_HEADER then Err(Truncated)
    else if Field(file, 0, 4) != SIDECAR_MAGIC then Err(BadMagic)
    else if Field(file, 4, 2) != SIDECAR_VERSION then Err(BadVersion)
    else
      var scale, n, stride := Field(file, 8, 4), Field(file, 24, 4), Field(file, 28, 4);
      if stride == 0 || !usable(scale) then Err(Malformed)
      else
        var count := SparseCount(n, stride);
        if SIDECAR_HEADER + 8 * count > |file| then Err(Truncated)
        else Ok(Index(file, scale, n, stride, Field(file, 32, 8), Field(file, 40, 8), Field(file, 48, 8),
                      RangeReader.SparseKeys(file, SIDECAR_HEADER, count)))
  }

  /** `x` is what opening the sidecar of `es` gives. */
  ghost predicate Opens(x: Index, p: Params, es: seq<Entry>, docs: nat) {
    && SideLaidOut(x.file, p, es, docs) && KeySorted(es)
    && x.n == |es| && x.stride == STRIDE && x.entriesOff == EntriesAt(|es|) && x.impactsOff == ImpactsAt(|es|)
    && x.docs == docs
    && x.scale == p.scale && |x.sparse| == SparseCount(|es|, STRIDE)
    && forall i: nat :: i < |x.sparse| ==> x.sparse[i] == KeyAt(es, i * STRIDE)
  }

  lemma OpensHead(file: bytes, p: Params, es: seq<Entry>, docs: nat, usable: nat -> bool)
    requires SideHeaderAt(file, p, |es|, docs) && usable(p.scale) && |file| >= EntriesAt(|es|)
    ensures Open(file, usable) == Ok(Index(file, p.scale, |es|, STRIDE, EntriesAt(|es|), ImpactsAt(|es|), docs,
                                           RangeReader.SparseKeys(file, SIDECAR_HEADER, SparseCount(|es|, STRIDE))))
  {
    hide SparseCount, ImpactsAt;
  }

  /** A written sidecar opens. */
  lemma OpensSidecar(p: Params, es: seq<Entry>, docs: nat, sum: nat, usable: nat -> bool)
    requires SideFits(p, es, docs, sum) && KeySorted(es) && usable(p.scale)
    ensures var o := Open(SidecarOf(p, es, docs, sum), usable); o.Ok? && Opens(o.value, p, es, docs)
  {
    hide SidecarOf, SparseCount, Open, SideHeaderAt, KeySorted, EntryAt, FieldsAt, Join;
    var file := SidecarOf(p, es, docs, sum);
    SideWrittenLaidOut(p, es, docs, sum);
    OpensHead(file, p, es, docs, usable);
    var keys := Open(file, usable).value.sparse;
    forall i: nat | i < |keys| ensures keys[i] == KeyAt(es, i * STRIDE) {
      assert FieldsAt(file, SIDECAR_HEADER + 8 * i, KeyAt(es, i * STRIDE), 8);
      FieldIs(file, SIDECAR_HEADER + 8 * i, KeyAt(es, i * STRIDE), 8);
    }
  }

  lemma FieldIs(file: bytes, off: nat, v: nat, n: nat)
    requires FieldsAt(file, off, v, n)
    ensures off + n <= |file| && Field(file, off, n) == v
  {
  }

  // ----- finding an entry: one stripe of the table -----

  /** Where the stripe that could hold `h` lies: its offset, its length in rows, its first row. */
  function EntryStripe(x: Index, h: nat): (s: (nat, int, nat)) {
    var i := RangeReader.Search(0, |x.sparse|, RangeReader.KeyAbove(x.sparse, h));
    var first := (if i == 0 then 0 else i - 1) * x.stride;
    var count := if x.n - first < x.stride then x.n - first else x.stride;
    (x.entriesOff + ROW * first, count, first)
  }

  /** The binary search of a stripe: which of the rows [lo, hi) has the key, by probing the middle. */
  function FindRow(block: bytes, lo: nat, hi: nat, h: nat): (r: Option<nat>)
    requires lo <= hi && ROW * hi <= |block|
    ensures r.Some? ==> lo <= r.value < hi && Field(block, ROW * r.value, 8) == h
    decreases hi - lo
  {
    if lo == hi then None
    else
      var mid := (lo + hi) / 2;
      var key := Field(block, ROW * mid, 8);
      if key < h then FindRow(block, mid + 1, hi, h)
      else if key > h then FindRow(block, lo, mid, h)
      else Some(mid)
  }

  datatype Row = Row(rel: nat, card: nat)

  /** The entry of a posting offset, from one stripe read. */
  function EntryOf(x: Index, h: nat): Result<Row> {
    var (at, count, _) := EntryStripe(x, h);
    if count < 0 then Err(Malformed)
    else match ReadAt(x.file, at, ROW * count)
      case None => Err(OutOfRange)
      case Some(block) =>
        match FindRow(block, 0, count, h)
        case None => Err(Malformed)
        case Some(i) => Ok(Row(Field(block, ROW * i + 8, 8), Field(block, ROW * i + 16, 4)))
  }

  lemma SparseAscends(x: Index, p: Params, es: seq<Entry>, docs: nat, i: nat, j: nat)
    requires Opens(x, p, es, docs) && i <= j < |x.sparse|
    ensures i * STRIDE <= j * STRIDE < |es| && x.sparse[i] == es[i * STRIDE].key <= x.sparse[j] == es[j * STRIDE].key
  {
    hide SideLaidOut, SparseCount;
    SparseCountMeans(|es|, STRIDE, j);
    TimesMonotone(i, j, STRIDE);
  }

  /** How many sparse keys are at most `h`. */
  lemma SparseSearch(x: Index, p: Params, es: seq<Entry>, docs: nat, h: nat)
    requires Opens(x, p, es, docs)
    ensures var i := RangeReader.Search(0, |x.sparse|, RangeReader.KeyAbove(x.sparse, h));
            && (forall k: nat :: k < i ==> x.sparse[k] <= h) && (i < |x.sparse| ==> x.sparse[i] > h)
  {
    hide SideLaidOut, SparseCount, KeySorted;
    var above := RangeReader.KeyAbove(x.sparse, h);
    assert RangeReader.Monotone(above, |x.sparse|) by {
      forall i: nat, j: nat | i <= j < |x.sparse| && above(i) ensures above(j) {
        SparseAscends(x, p, es, docs, i, j);
      }
    }
    RangeReader.SearchFindsFirst(0, |x.sparse|, |x.sparse|, above);
    forall k: nat | k < RangeReader.Search(0, |x.sparse|, above) ensures x.sparse[k] <= h {
      assert !above(k);
    }
  }

  /** The stripe is a run of the table's rows, and holds every row with the key. */
  lemma StripeHolds(x: Index, p: Params, es: seq<Entry>, docs: nat, h: nat)
    requires Opens(x, p, es, docs)
    ensures var (at, count, first) := EntryStripe(x, h);
            && at == EntriesAt(|es|) + ROW * first && 0 <= count && first + count <= |es|
            && forall i :: 0 <= i < |es| && es[i].key == h ==> first <= i < first + count
  {
    hide SideLaidOut, SparseCount, RangeReader.Search;
    SparseSearch(x, p, es, docs, h);
    var i := RangeReader.Search(0, |x.sparse|, RangeReader.KeyAbove(x.sparse, h));
    var slot := if i == 0 then 0 else i - 1;
    SparseCountMeans(|es|, STRIDE, 0);
    SparseCountMeans(|es|, STRIDE, slot);
    SparseCountMeans(|es|, STRIDE, slot + 1);
    TimesSucc(slot, STRIDE);
    forall r | 0 <= r < |es| && es[r].key == h ensures slot * STRIDE <= r && r < slot * STRIDE + STRIDE {
      RowInSlot(x, p, es, docs, h, i, r);
    }
  }

  lemma RowInSlot(x: Index, p: Params, es: seq<Entry>, docs: nat, h: nat, i: nat, r: nat)
    requires Opens(x, p, es, docs) && r < |es| && es[r].key == h && i <= |x.sparse|
    requires (forall k: nat :: k < i ==> x.sparse[k] <= h) && (i < |x.sparse| ==> x.sparse[i] > h)
    ensures var slot := if i == 0 then 0 else i - 1; slot * STRIDE <= r < slot * STRIDE + STRIDE
  {
    hide SideLaidOut, SparseCount;
    SparseCountMeans(|es|, STRIDE, 0);
    if i > 0 {
      SparseAscends(x, p, es, docs, i - 1, i - 1);
    }
    if i < |x.sparse| {
      SparseAscends(x, p, es, docs, i, i);
    } else {
      SparseCountMeans(|es|, STRIDE, i);
    }
  }

  /** Row `i` of a block shows entry `first + i`. */
  ghost predicate BlockShows(block: bytes, es: seq<Entry>, first: nat, count: nat) {
    && |block| == ROW * count && first + count <= |es|
    && forall i: nat :: i < count ==> RowShows(block, es, first, i)
  }

  ghost predicate RowShows(block: bytes, es: seq<Entry>, first: nat, i: nat) {
    && first + i < |es| && FieldsAt(block, ROW * i, es[first + i].key, 8)
    && FieldsAt(block, ROW * i + 8, Start(PostingsOf(es), first + i), 8)
    && FieldsAt(block, ROW * i + 16, |es[first + i].posting|, 4)
  }

  lemma BlockOfRows(file: bytes, p: Params, es: seq<Entry>, docs: nat, first: nat, count: nat)
    requires SideLaidOut(file, p, es, docs) && first + count <= |es|
    ensures var block := ReadAt(file, EntriesAt(|es|) + ROW * first, ROW * count);
            block.Some? && BlockShows(block.value, es, first, count)
  {
    hide SideHeaderAt, Start, KeyAt, Join, Field, PostingsOf, EntriesAt, EntryAt;
    var at := EntriesAt(|es|) + ROW * first;
    var block := file[at..at + ROW * count];
    forall i: nat | i < count ensures RowShows(block, es, first, i) {
      RowOfBlock(file, es, first, count, i, block);
    }
  }

  lemma RowOfBlock(file: bytes, es: seq<Entry>, first: nat, count: nat, i: nat, block: bytes)
    requires i < count && first + count <= |es| && EntryAt(file, es, first + i)
    requires EntriesAt(|es|) + ROW * first + ROW * count <= |file|
    requires block == file[EntriesAt(|es|) + ROW * first..EntriesAt(|es|) + ROW * first + ROW * count]
    ensures RowShows(block, es, first, i)
  {
    hide Start, PostingsOf, Field, EntriesAt, ImpactsAt;
    var at, size := EntriesAt(|es|) + ROW * first, ROW * count;
    SliceField(file, at, size, ROW * i, 8);
    SliceField(file, at, size, ROW * i + 8, 8);
    SliceField(file, at, size, ROW * i + 16, 4);
  }

  lemma FindRowStep(block: bytes, lo: nat, hi: nat, h: nat)
    requires lo <= hi && ROW * hi <= |block|
    ensures lo == hi ==> FindRow(block, lo, hi, h) == None
    ensures lo < hi ==>
              var mid := (lo + hi) / 2;
              var key := Field(block, ROW * mid, 8);
              FindRow(block, lo, hi, h)
              == if key < h then FindRow(block, mid + 1, hi, h) else if key > h then FindRow(block, lo, mid, h)
                else Some(mid)
  {
    hide Field;
  }

  /** The binary search finds the key exactly when a row of the block has it. */
  lemma {:induction false} FindRowFinds(block: bytes, es: seq<Entry>, first: nat, count: nat, lo: nat, hi: nat, h: nat)
    requires BlockShows(block, es, first, count) && KeySorted(es) && lo <= hi <= count
    ensures match FindRow(block, lo, hi, h)
            case Some(i) => lo <= i < hi && es[first + i].key == h
            case None => forall r :: first + lo <= r < first + hi && r < |es| ==> es[r].key != h
    decreases hi - lo
  {
    hide BlockShows, KeySorted, Field, FindRow;
    BlockLength(block, es, first, count);
    FindRowStep(block, lo, hi, h);
    if lo < hi {
      var mid := (lo + hi) / 2;
      BlockKeyAt(block, es, first, count, mid);
      KeysAround(es, first + mid, h);
      if es[first + mid].key < h {
        FindRowFinds(block, es, first, count, mid + 1, hi, h);
      } else if es[first + mid].key > h {
        FindRowFinds(block, es, first, count, lo, mid, h);
      }
    }
  }

  lemma BlockKeyAt(block: bytes, es: seq<Entry>, first: nat, count: nat, i: nat)
    requires BlockShows(block, es, first, count) && i < count
    ensures first + i < |es| && ROW * i + 20 <= |block| && Field(block, ROW * i, 8) == es[first + i].key
  {
    hide Start, PostingsOf;
    assert RowShows(block, es, first, i);
  }

  lemma KeysAround(es: seq<Entry>, m: nat, h: nat)
    requires KeySorted(es) && m < |es|
    ensures es[m].key < h ==> forall r :: 0 <= r <= m ==> es[r].key != h
    ensures es[m].key > h ==> forall r :: m <= r < |es| ==> es[r].key != h
  {
    forall r | 0 <= r < m ensures es[r].key < es[m].key {
    }
  }

  /** The stripe lookup finds the entry of every posting offset in the table, and fails on every
      other. */
  lemma EntryFound(x: Index, p: Params, es: seq<Entry>, docs: nat, h: nat)
    requires Opens(x, p, es, docs)
    ensures (forall i :: 0 <= i < |es| ==> es[i].key != h) ==> EntryOf(x, h) == Err(Malformed)
    ensures forall i :: 0 <= i < |es| && es[i].key == h ==>
              EntryOf(x, h) == Ok(Row(Start(PostingsOf(es), i), |es[i].posting|))
  {
    hide SideLaidOut, SparseCount, EntryStripe, FindRow, BlockShows, ReadAt, Start, PostingsOf, EntriesAt;
    var (at, count, first) := EntryStripe(x, h);
    StripeHolds(x, p, es, docs, h);
    BlockOfRows(x.file, p, es, docs, first, count);
    var block := ReadAt(x.file, at, ROW * count).value;
    BlockLength(block, es, first, count);
    FindRowFinds(block, es, first, count, 0, count, h);
    if FindRow(block, 0, count, h).Some? {
      var i := FindRow(block, 0, count, h).value;
      BlockRow(block, es, first, count, i);
      assert forall r :: 0 <= r < |es| && es[r].key == h ==> r == first + i;
    }
  }

  lemma BlockLength(block: bytes, es: seq<Entry>, first: nat, count: nat)
    requires BlockShows(block, es, first, count)
    ensures |block| == ROW * count && first + count <= |es|
  {
  }

  lemma BlockRow(block: bytes, es: seq<Entry>, first: nat, count: nat, i: nat)
    requires BlockShows(block, es, first, count) && i < count
    ensures first + i < |es| && ROW * i + 20 <= |block|
    ensures Row(Field(block, ROW * i + 8, 8), Field(block, ROW * i + 16, 4))
            == Row(Start(PostingsOf(es), first + i), |es[first + i].posting|)
  {
    hide Start, PostingsOf;
    assert RowShows(block, es, first, i);
  }

  // ----- finding an entry: one read for each probe -----

  function EntryRead(x: Index, i: nat): Option<(nat, Row)> {
    match ReadAt(x.file, x.entriesOff + ROW * i, ROW)
    case None => None
    case Some(b) => Some((Field(b, 0, 8), Row(Field(b, 8, 8), Field(b, 16, 4))))
  }

  lemma EntryReads(x: Index, p: Params, es: seq<Entry>, docs: nat, i: nat)
    requires Opens(x, p, es, docs) && i < |es|
    ensures EntryRead(x, i) == Some((es[i].key, Row(Start(PostingsOf(es), i), |es[i].posting|)))
  {
    hide SideLaidOut, SparseCount, KeySorted, Start, PostingsOf, EntriesAt;
    BlockOfRows(x.file, p, es, docs, i, 1);
    var block := ReadAt(x.file, EntriesAt(|es|) + ROW * i, ROW).value;
    assert RowShows(block, es, i, 0);
  }

  /** The reference reader's search of the whole table. `es` is what the file holds, when known. */
  method FindEntry(x: Index, h: nat, ghost es: Option<seq<Entry>>, ghost p: Params, ghost docs: nat)
    returns (r: Result<Option<Row>>)
    requires es.Some? ==> Opens(x, p, es.value, docs)
    ensures es.Some? ==> r.Ok?
    ensures es.Some? && r.value.None? ==> forall i :: 0 <= i < |es.value| ==> es.value[i].key != h
    ensures es.Some? && r.value.Some? ==>
              exists i :: 0 <= i < |es.value| && es.value[i].key == h
                && r.value.value == Row(Start(PostingsOf(es.value), i), |es.value[i].posting|)
  {
    hide SideLaidOut, SparseCount, EntryRead, Start, PostingsOf;
    var lo: nat, hi: nat := 0, x.n;
    while lo < hi
      invariant lo <= hi <= x.n
      invariant es.Some? ==> forall i :: 0 <= i < |es.value| && (i < lo || i >= hi) ==> es.value[i].key != h
    {
      var mid := (lo + hi) / 2;
      if es.Some? {
        EntryReads(x, p, es.value, docs, mid);
      }
      var e := EntryRead(x, mid);
      if e.None? {
        return Err(OutOfRange);
      }
      if e.value.0 == h {
        return Ok(Some(e.value.1));
      } else if e.value.0 < h {
        lo := mid + 1;
      } else {
        hi := mid;
      }
    }
    r := Ok(None);
  }

  /** All the impact bytes of a posting offset. */
  method ImpactsOf(x: Index, h: nat, ghost es: Option<seq<Entry>>, ghost p: Params, ghost docs: nat)
    returns (r: Result<Option<bytes>>)
    requires es.Some? ==> Opens(x, p, es.value, docs)
    ensures es.Some? && r.Ok? && r.value.None? ==> forall i :: 0 <= i < |es.value| ==> es.value[i].key != h
    ensures es.Some? && r.Ok? && r.value.Some? ==>
              exists i :: 0 <= i < |es.value| && es.value[i] == Entry(h, r.value.value)
    ensures es.Some? && r.Err? ==>
              exists i :: 0 <= i < |es.value| && es.value[i].key == h && |es.value[i].posting| > MAX_READ
  {
    hide Opens, Start, PostingsOf;
    var row := FindEntry(x, h, es, p, docs);
    if row.Err? {
      return Err(row.error);
    }
    if row.value.None? {
      return Ok(None);
    }
    var Row(rel, card) := row.value.value;
    if es.Some? {
      var i :| 0 <= i < |es.value| && es.value[i].key == h
        && Row(rel, card) == Row(Start(PostingsOf(es.value), i), |es.value[i].posting|);
      ImpactsRead(x, p, es.value, docs, i);
    }
    var buf := if card > MAX_READ then None else if card == 0 then Some([])
      else ReadAt(x.file, x.impactsOff + rel, card);
    r := if buf.None? then Err(OutOfRange) else Ok(Some(buf.value));
  }

  lemma ImpactsRead(x: Index, p: Params, es: seq<Entry>, docs: nat, i: nat)
    requires Opens(x, p, es, docs) && i < |es|
    ensures ReadAt(x.file, x.impactsOff + Start(PostingsOf(es), i), |es[i].posting|) == Some(es[i].posting)
    ensures |es[i].posting| == 0 ==> es[i].posting == []
  {
    hide SparseCount, KeySorted, SideHeaderAt, ImpactsAt, KeyAt, Start, PostingsOf, FieldsAt, Join;
    assert EntryAt(x.file, es, i);
  }
}
