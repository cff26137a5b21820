/** A document's rank in a posting addresses its impact byte (rust/src/bm25.rs, bm25.go). */
module ImpactAddressing {
  import opened Wrappers
  import opened Bytes
  import RangeIndex
  import opened Impacts
  import opened Sidecar
  import opened Bm25
  import Bm25Search
  import Inverted
  import Ordered

  /** The entries of the sidecar built over `docs` for `dict`. */
  ghost function EntriesOver(p: Params, dict: Dict, docs: seq<seq<bytes>>): seq<RangeIndex.Entry> {
    EntriesOfDict(p, dict, StatsOf(docs), Lens(docs))
  }

  lemma ByteOfEntry(x: Sidecar.Index, p: Params, es: seq<RangeIndex.Entry>, docs: nat, i: nat, j: nat)
    requires Opens(x, p, es, docs) && i < |es| && j < |es[i].posting|
    ensures var at := x.impactsOff + Start(RangeIndex.PostingsOf(es), i) + j;
              at < |x.file| && x.file[at] == es[i].posting[j]
  {
    hide Opens, RangeIndex.PostingsOf, Start;
    ImpactsRead(x, p, es, docs, i);
    var at := x.impactsOff + Start(RangeIndex.PostingsOf(es), i);
    assert x.file[at..at + |es[i].posting|][j] == x.file[at + j];
  }

  /** For every dictionary term and every document of its posting, the stripe lookup followed by
      start + rank - 1 reads the byte quantized from that frequency and document length. */
  lemma AddressSound(x: Sidecar.Index, p: Params, dict: Dict, docs: seq<seq<bytes>>, i: nat, d: nat)
    requires Opens(x, p, EntriesOver(p, dict, docs), |docs|) && i < |dict| && d in Inverted.Holding(docs, dict[i].0)
    ensures EntryOf(x, dict[i].1).Ok?
    ensures var at := Address(x, EntryOf(x, dict[i].1).value, Inverted.Holding(docs, dict[i].0), d);
            at < |x.file| && d < |docs|
            && x.file[at] == p.quantize(multiset(docs[d])[dict[i].0], |docs[d]|, |AllTokens(docs)|, |docs|)
  {
    hide Opens, TfList, Ordered.Rank, RangeIndex.PostingsOf, Start, EntryOf, Inverted.Holding, Sum;
    var t, es := dict[i].0, EntriesOver(p, dict, docs);
    Inverted.IndexAt(docs, t);
    HeldIn(docs, t, d);
    RankPositive(Inverted.Holding(docs, t), d);
    TfAtRank(docs, t, d);
    OccursIs(docs[d], t);
    SumIsTokens(docs);
    EntryFound(x, p, es, |docs|, dict[i].1);
    ByteOfEntry(x, p, es, |docs|, i, Ordered.Rank(Inverted.Holding(docs, t), d) - 1);
  }

  lemma HeldIn(docs: seq<seq<bytes>>, t: bytes, d: nat)
    requires d in Inverted.Holding(docs, t)
    ensures d < |docs| && t in StatsOf(docs) && StatsOf(docs)[t] == TfList(docs, t)
  {
    Inverted.KeysMeans(docs, t);
  }

  /** The head of a posting addresses the same byte, so a head-only rerank reads the right ones. */
  lemma HeadAddressSound(x: Sidecar.Index, row: Row, t: Bm25Search.TermHead, boundary: nat, d: nat)
    requires Bm25Search.SplitAt(t, boundary) && d in t.head
    ensures Address(x, row, t.head, d) == Address(x, row, t.head + t.tail, d)
  {
    hide Ordered.Rank;
    Bm25Search.HeadRanks(t, boundary, d);
  }

  /** A posting offset that is not in the dictionary has no entry. */
  lemma AbsentFails(x: Sidecar.Index, p: Params, dict: Dict, docs: seq<seq<bytes>>, h: nat)
    requires Opens(x, p, EntriesOver(p, dict, docs), |docs|) && forall i :: 0 <= i < |dict| ==> dict[i].1 != h
    ensures EntryOf(x, h) == Err(Malformed)
  {
    hide Opens, EntryOf;
    var es := EntriesOver(p, dict, docs);
    forall i | 0 <= i < |es| ensures es[i].key != h {
    }
    EntryFound(x, p, es, |docs|, h);
  }

}
