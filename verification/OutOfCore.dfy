/** The out-of-core impact build agrees with the in-memory one (build_impacts.rs,
    rust/src/bm25.rs): for any chunking, as long as no frequency passes what the spill can hold. */
module OutOfCore {
  import opened Wrappers
  import opened Bytes
  import opened RangeIndex
  import opened Impacts
  import opened ImpactRuns
  import opened ImpactMerge
  import opened Sidecar
  import Inverted
  import TermOrder

  /** The chunks [cuts[i], cuts[i + 1]) make up the corpus. */
  ghost predicate Chunks(docs: seq<seq<bytes>>, cuts: seq<nat>) {
    && cuts != [] && cuts[0] == 0 && cuts[|cuts| - 1] == |docs|
    && (forall i :: 0 < i < |cuts| ==> cuts[i - 1] <= cuts[i]) && (forall i :: 0 <= i < |cuts| ==> cuts[i] <= |docs|)
  }

  ghost predicate RunsOf(docs: seq<seq<bytes>>, cuts: seq<nat>, runs: seq<Run>) {
    |cuts| == |runs| + 1 && forall i :: 0 <= i < |runs| ==> runs[i] == RunOf(docs, cuts[i], cuts[i + 1])
  }

  lemma RunIsSorted(docs: seq<seq<bytes>>, lo: nat, hi: nat)
    ensures RunSorted(RunOf(docs, lo, hi))
  {
    TermOrder.SortedTermsList(KeysIn(docs, lo, hi));
  }

  /** A run has a term's capped list when the chunk has the term. */
  lemma RunPairs(docs: seq<seq<bytes>>, lo: nat, hi: nat, t: bytes)
    requires hi <= |docs|
    ensures PairsOf(RunOf(docs, lo, hi), t) == CapAll(TfListIn(docs, t, lo, hi))
    ensures HasTerm(RunOf(docs, lo, hi), t) <==> t in KeysIn(docs, lo, hi)
  {
    hide KeysIn, TfListIn, TermOrder.Sorted, RunSorted;
    var run, terms := RunOf(docs, lo, hi), TermOrder.SortedTerms(KeysIn(docs, lo, hi));
    TermOrder.SortedTermsList(KeysIn(docs, lo, hi));
    KeysInLists(docs, t, lo, hi);
    RunIsSorted(docs, lo, hi);
    if t in terms {
      var i :| 0 <= i < |terms| && terms[i] == t;
      assert run[i].term == t;
      BeforeDiffers(run, i);
      PairsPresent(run, t, i);
    } else {
      forall k | 0 <= k < |run| ensures run[k].term != t {
        assert terms[k] in terms;
      }
      PairsAbsent(run, t);
      assert CapAll([]) == [];
    }
  }

  lemma BeforeDiffers(run: Run, i: nat)
    requires RunSorted(run) && i < |run|
    ensures forall k :: 0 <= k < i ==> run[k].term != run[i].term
  {
    forall k | 0 <= k < i ensures run[k].term != run[i].term {
      TermOrder.LessNot(run[k].term, run[i].term);
    }
  }

  /** What the runs hold for a term is its whole list, capped. */
  lemma {:induction false} JoinedIsList(docs: seq<seq<bytes>>, cuts: seq<nat>, runs: seq<Run>, t: bytes, n: nat)
    requires Chunks(docs, cuts) && RunsOf(docs, cuts, runs) && n <= |runs|
    ensures Joined(runs, t, n) == CapAll(TfList(docs[..cuts[n]], t))
    decreases n
  {
    hide TfListIn, CapAll, RunOf;
    if n == 0 {
      CapNothing(docs, t);
    } else {
      JoinedIsList(docs, cuts, runs, t, n - 1);
      RunPairs(docs, cuts[n - 1], cuts[n], t);
      TfListCut(docs, t, cuts[n - 1], cuts[n]);
      CapAppend(TfList(docs[..cuts[n - 1]], t), TfListIn(docs, t, cuts[n - 1], cuts[n]));
    }
  }

  lemma CapNothing(docs: seq<seq<bytes>>, t: bytes)
    ensures CapAll(TfList(docs[..0], t)) == []
  {
  }

  lemma JoinedWhole(docs: seq<seq<bytes>>, cuts: seq<nat>, runs: seq<Run>, t: bytes)
    requires Chunks(docs, cuts) && RunsOf(docs, cuts, runs)
    ensures Joined(runs, t, |runs|) == CapAll(TfList(docs, t))
  {
    hide Joined, TfList, CapAll, RunsOf;
    RunCount(docs, cuts, runs);
    JoinedIsList(docs, cuts, runs, t, |runs|);
    assert docs[..|docs|] == docs;
  }

  lemma RunCount(docs: seq<seq<bytes>>, cuts: seq<nat>, runs: seq<Run>)
    requires RunsOf(docs, cuts, runs)
    ensures |cuts| == |runs| + 1
  {
  }

  lemma {:induction false} SomeChunk(cuts: seq<nat>, d: nat, n: nat) returns (i: nat)
    requires 0 < n < |cuts| && cuts[0] <= d < cuts[n]
    ensures i < n && cuts[i] <= d < cuts[i + 1]
    decreases n
  {
    if d >= cuts[n - 1] {
      i := n - 1;
    } else {
      i := SomeChunk(cuts, d, n - 1);
    }
  }

  /** The runs have exactly the corpus's terms. */
  lemma RunsHaveTerms(docs: seq<seq<bytes>>, cuts: seq<nat>, runs: seq<Run>, t: bytes)
    requires Chunks(docs, cuts) && RunsOf(docs, cuts, runs)
    ensures InSome(runs, t) <==> t in StatsOf(docs)
  {
    hide RunOf, HasTerm, TfList;
    Inverted.KeysMeans(docs, t);
    if t in StatsOf(docs) {
      var d: nat :| d < |docs| && t in docs[d];
      var i := SomeChunk(cuts, d, |cuts| - 1);
      RunPairs(docs, cuts[i], cuts[i + 1], t);
      assert HasTerm(runs[i], t);
    }
    if InSome(runs, t) {
      var i :| 0 <= i < |runs| && HasTerm(runs[i], t);
      RunPairs(docs, cuts[i], cuts[i + 1], t);
      var d: nat :| cuts[i] <= d < cuts[i + 1] && d < |docs| && t in docs[d];
    }
  }

  lemma RunsSorted(docs: seq<seq<bytes>>, cuts: seq<nat>, runs: seq<Run>)
    requires RunsOf(docs, cuts, runs)
    ensures AllSorted(runs)
  {
    hide RunOf, RunSorted;
    forall i | 0 <= i < |runs| ensures RunSorted(runs[i]) {
      RunIsSorted(docs, cuts[i], cuts[i + 1]);
    }
  }

  // ----- against the in-memory writer -----

  /** The statistics as the spill holds them. */
  ghost function CappedStats(docs: seq<seq<bytes>>): Stats {
    map t | t in StatsOf(docs) :: CapAll(TfList(docs, t))
  }

  /** The dictionary lists exactly the corpus's terms. */
  ghost predicate DictOf(dict: Dict, docs: seq<seq<bytes>>) {
    DictSorted(dict) && forall t :: t in StatsOf(docs) <==> InFirst(dict, |dict|, t)
  }

  lemma SameTermsMeans(docs: seq<seq<bytes>>, cuts: seq<nat>, runs: seq<Run>, dict: Dict)
    requires Chunks(docs, cuts) && RunsOf(docs, cuts, runs) && DictSorted(dict)
    ensures SameTerms(dict, runs) <==> DictOf(dict, docs)
  {
    hide RunsOf, InSome, StatsOf, InFirst, DictSorted;
    forall t ensures InSome(runs, t) <==> t in StatsOf(docs) {
      RunsHaveTerms(docs, cuts, runs, t);
    }
  }

  lemma InDict(dict: Dict, i: nat)
    requires i < |dict|
    ensures InFirst(dict, |dict|, dict[i].0)
  {
  }

  /** Whatever the chunking, the merge writes what the in-memory writer writes for capped statistics. */
  lemma EntriesAgree(p: Params, dict: Dict, docs: seq<seq<bytes>>, cuts: seq<nat>, runs: seq<Run>)
    requires Chunks(docs, cuts) && RunsOf(docs, cuts, runs) && DictOf(dict, docs)
    ensures EntriesOfRuns(p, dict, runs, Lens(docs)) == EntriesOfDict(p, dict, CappedStats(docs), Lens(docs))
  {
    hide RunsOf, Chunks, Joined, TfList, CapAll, ImpactBytes, InFirst, DictSorted, Sum;
    var a, b := EntriesOfRuns(p, dict, runs, Lens(docs)), EntriesOfDict(p, dict, CappedStats(docs), Lens(docs));
    forall i | 0 <= i < |dict| ensures a[i] == b[i] {
      InDict(dict, i);
      JoinedWhole(docs, cuts, runs, dict[i].0);
    }
  }

  // ----- exactly when -----

  lemma {:induction false} SameStarts(a: seq<bytes>, b: seq<bytes>, i: nat)
    requires |a| == |b| && i <= |a| && forall k :: 0 <= k < |a| ==> |a[k]| == |b[k]|
    ensures Start(a, i) == Start(b, i)
    decreases i
  {
    if i > 0 {
      SameStarts(a, b, i - 1);
      PartSlice(a, i - 1);
      PartSlice(b, i - 1);
    }
  }

  /** Equal sidecars of entries of equal sizes hold equal impact bytes. */
  lemma SidecarsTell(p: Params, a: seq<Entry>, b: seq<Entry>, docs: nat, sum: nat, i: nat)
    requires |a| == |b| && (forall k :: 0 <= k < |a| ==> |a[k].posting| == |b[k].posting|)
    requires SidecarOf(p, a, docs, sum) == SidecarOf(p, b, docs, sum) && i < |a|
    ensures a[i].posting == b[i].posting
  {
    hide SideMeta, Layout, Join, Start, ImpactsAt;
    SideMetaSize(p, a, docs, sum);
    SideMetaSize(p, b, docs, sum);
    var m, n := Layout(SideMeta(p, a, docs, sum)), Layout(SideMeta(p, b, docs, sum));
    assert SidecarOf(p, a, docs, sum)[|m|..] == Join(PostingsOf(a))
           && SidecarOf(p, b, docs, sum)[|n|..] == Join(PostingsOf(b));
    SameStarts(PostingsOf(a), PostingsOf(b), i);
    PostingSlice(PostingsOf(a), i);
    PostingSlice(PostingsOf(b), i);
  }

  lemma SameSizes(p: Params, dict: Dict, docs: seq<seq<bytes>>)
    requires DictOf(dict, docs)
    ensures var a, b := EntriesOfDict(p, dict, CappedStats(docs), Lens(docs)),
            EntriesOfDict(p, dict, StatsOf(docs), Lens(docs));
            forall k :: 0 <= k < |dict| ==> |a[k].posting| == |b[k].posting|
  {
    hide TfList, Sum, DictSorted, InFirst;
    forall k | 0 <= k < |dict| ensures dict[k].0 in StatsOf(docs) {
      InDict(dict, k);
    }
  }

  /** The scoring gives each of a document's frequencies the byte it gives the capped one. */
  ghost predicate SameByte(p: Params, docs: seq<seq<bytes>>, d: nat, t: bytes)
    requires d < |docs|
  {
    p.quantize(Occurs(docs[d], t), |docs[d]|, Sum(Lens(docs)), |docs|)
    == p.quantize(Capped(Occurs(docs[d], t)), |docs[d]|, Sum(Lens(docs)), |docs|)
  }

  ghost predicate SameBytes(p: Params, docs: seq<seq<bytes>>) {
    forall d: nat, t :: d < |docs| && t in docs[d] ==> SameByte(p, docs, d, t)
  }

  /** A term's impact bytes from capped frequencies are those from the frequencies exactly when
      each of its documents' bytes is. */
  lemma TermAgrees(p: Params, docs: seq<seq<bytes>>, t: bytes)
    ensures ImpactBytes(p, CapAll(TfList(docs, t)), Lens(docs), Sum(Lens(docs)))
            == ImpactBytes(p, TfList(docs, t), Lens(docs), Sum(Lens(docs)))
            <==> forall d: nat :: d < |docs| && t in docs[d] ==> SameByte(p, docs, d, t)
  {
    hide TfList, Sum, Occurs, Ordered.Lists;
    var tfs, lens := TfList(docs, t), Lens(docs);
    var a, b := ImpactBytes(p, CapAll(tfs), lens, Sum(lens)), ImpactBytes(p, tfs, lens, Sum(lens));
    TfListDocs(docs, t);
    forall j | 0 <= j < |tfs| ensures tfs[j].doc < |docs| && (a[j] == b[j] <==> SameByte(p, docs, tfs[j].doc, t)) {
      assert tfs[j] in tfs;
    }
    if a == b {
      forall d: nat | d < |docs| && t in docs[d] ensures SameByte(p, docs, d, t) {
        var j := DocListed(docs, t, d);
      }
    } else {
      var j :| 0 <= j < |tfs| && a[j] != b[j];
      assert tfs[j] in tfs;
      DocHolds(docs, t, j);
    }
  }

  lemma DocListed(docs: seq<seq<bytes>>, t: bytes, d: nat) returns (j: nat)
    requires d < |docs| && t in docs[d]
    ensures j < |TfList(docs, t)| && TfList(docs, t)[j].doc == d
  {
    TfListDocs(docs, t);
    assert d in Inverted.Holding(docs, t);
    var q := DocsOf(TfList(docs, t));
    j :| 0 <= j < |q| && q[j] == d;
  }

  lemma DocHolds(docs: seq<seq<bytes>>, t: bytes, j: nat)
    requires j < |TfList(docs, t)|
    ensures TfList(docs, t)[j].doc < |docs| && t in docs[TfList(docs, t)[j].doc]
  {
    TfListDocs(docs, t);
    assert DocsOf(TfList(docs, t))[j] in Inverted.Holding(docs, t);
  }

  lemma EntriesSame(p: Params, dict: Dict, docs: seq<seq<bytes>>)
    requires DictOf(dict, docs)
    ensures EntriesOfDict(p, dict, CappedStats(docs), Lens(docs)) == EntriesOfDict(p, dict, StatsOf(docs), Lens(docs))
            <==> SameBytes(p, docs)
  {
    hide TfList, CapAll, ImpactBytes, DictSorted, InFirst, Sum, SameByte;
    var a, b := EntriesOfDict(p, dict, CappedStats(docs), Lens(docs)),
      EntriesOfDict(p, dict, StatsOf(docs), Lens(docs));
    forall i | 0 <= i < |dict|
      ensures dict[i].0 in StatsOf(docs)
      ensures a[i] == b[i] <==> forall d: nat :: d < |docs| && dict[i].0 in docs[d] ==> SameByte(p, docs, d, dict[i].0)
    {
      InDict(dict, i);
      TermAgrees(p, docs, dict[i].0);
    }
    if a == b {
      forall d: nat, t | d < |docs| && t in docs[d] ensures SameByte(p, docs, d, t) {
        Inverted.KeysMeans(docs, t);
        var i := InDictAt(dict, t);
        assert a[i] == b[i];
      }
    }
  }

  lemma InDictAt(dict: Dict, t: bytes) returns (i: nat)
    requires InFirst(dict, |dict|, t)
    ensures i < |dict| && dict[i].0 == t
  {
    i :| 0 <= i < |dict| && dict[i].0 == t;
  }

  /** For any chunking and any scoring, the out-of-core sidecar is the in-memory one exactly when
      the scoring gives each frequency of each document the byte it gives it capped at 255. */
  lemma OutOfCoreAgrees(p: Params, dict: Dict, docs: seq<seq<bytes>>, cuts: seq<nat>, runs: seq<Run>)
    requires Chunks(docs, cuts) && RunsOf(docs, cuts, runs) && DictOf(dict, docs)
    ensures SidecarOf(p, EntriesOfRuns(p, dict, runs, Lens(docs)), |docs|, Sum(Lens(docs)))
            == SidecarOf(p, EntriesOfDict(p, dict, StatsOf(docs), Lens(docs)), |docs|, Sum(Lens(docs)))
            <==> SameBytes(p, docs)
  {
    hide SidecarOf, RunsOf, Chunks, DictOf, Sum, TfList, SameBytes, EntriesOfRuns, CappedStats, StatsOf;
    EntriesAgree(p, dict, docs, cuts, runs);
    EntriesSame(p, dict, docs);
    SameSizes(p, dict, docs);
    var a, b := EntriesOfDict(p, dict, CappedStats(docs), Lens(docs)),
      EntriesOfDict(p, dict, StatsOf(docs), Lens(docs));
    if SidecarOf(p, a, |docs|, Sum(Lens(docs))) == SidecarOf(p, b, |docs|, Sum(Lens(docs))) {
      forall i | 0 <= i < |a| ensures a[i] == b[i] {
        SidecarsTell(p, a, b, |docs|, Sum(Lens(docs)), i);
        SameKeys(p, dict, docs, i);
      }
      assert a == b;
    }
  }

  lemma SameKeys(p: Params, dict: Dict, docs: seq<seq<bytes>>, i: nat)
    requires i < |dict|
    ensures EntriesOfDict(p, dict, CappedStats(docs), Lens(docs))[i].key
            == EntriesOfDict(p, dict, StatsOf(docs), Lens(docs))[i].key
  {
    hide TfList, CapAll, ImpactBytes, Sum;
  }

  /** No scoring tells the two apart when no term occurs more than 255 times in a document. */
  lemma NoneCappedAgrees(p: Params, docs: seq<seq<bytes>>)
    requires forall d: nat, t :: d < |docs| && t in docs[d] ==> Occurs(docs[d], t) <= 255
    ensures SameBytes(p, docs)
  {
    forall d: nat, t | d < |docs| && t in docs[d] ensures SameByte(p, docs, d, t) {
      assert Capped(Occurs(docs[d], t)) == Occurs(docs[d], t);
    }
  }

  // ----- and when it does not -----

  /** The impact byte of the default parameters, k1 = 1.2 and b = 0.75, in exact arithmetic: 255
      times the saturated frequency, rounded to the nearest and clamped to 1..255. */
  function DefaultByte(tf: nat, dl: nat, sum: nat, n: nat): (b: byte)
    ensures b >= 1
  {
    var num, den := 255 * (10 * sum * tf), 10 * sum * tf + 3 * sum + 9 * dl * n;
    if den == 0 then 1
    else
      var x := (2 * num + den) / (2 * den);
      if x < 1 then 1 else if x > 255 then 255 else x
  }

  function Copies(t: bytes, n: nat): (tokens: seq<bytes>)
    ensures |tokens| == n
  {
    if n == 0 then [] else Copies(t, n - 1) + [t]
  }

  lemma {:induction false} CopiesOccur(t: bytes, n: nat)
    ensures Occurs(Copies(t, n), t) == n
    ensures n > 0 ==> t in Copies(t, n)
  {
    if n > 0 {
      CopiesOccur(t, n - 1);
      assert Copies(t, n)[..n - 1] == Copies(t, n - 1);
    }
  }

  /** One document with a thousand copies of a term: in memory its byte is 255, out of core 254. */
  lemma ThousandCopiesDiffer(p: Params)
    requires p.quantize == DefaultByte
    ensures !SameBytes(p, [Copies([97], 1000)])
  {
    var docs := [Copies([97], 1000)];
    hide Copies;
    CopiesOccur([97], 1000);
    assert Lens(docs) == [1000];
    assert Sum([1000]) == 1000 by { assert [1000][..0] == []; }
    hide Occurs;
    assert DefaultByte(1000, 1000, 1000, 1) == 255;
    assert DefaultByte(255, 1000, 1000, 1) == 254;
    assert [97] in docs[0] && !SameByte(p, docs, 0, [97]);
  }

  // ----- the two builds, run -----

  /** Spills every chunk, then merges: both phases of the out-of-core build. It succeeds exactly
      when the dictionary lists the corpus's terms. */
  method BuildOutOfCore(p: Params, dict: Dict, docs: seq<seq<bytes>>, cuts: seq<nat>) returns (r: Result<bytes>)
    requires Chunks(docs, cuts) && DictSorted(dict)
    ensures r.Ok? <==> DictOf(dict, docs)
    ensures r.Ok? ==> r.value == SidecarOf(p, EntriesOfDict(p, dict, CappedStats(docs), Lens(docs)), |docs|,
                                           Sum(Lens(docs)))
    ensures r.Ok? ==> FollowsCorpus(r.value, p, dict, docs, Capped)
  {
    hide SidecarOf, DictOf, DictSorted, RunOf, Spilled, SameTerms, EntriesOfRuns, EntriesOfDict, CappedStats,
         FollowsCorpus;
    var runs: seq<Run>, lens: seq<nat> := [], [];
    for c := 0 to |cuts| - 1
      invariant |runs| == c && forall i :: 0 <= i < c ==> runs[i] == RunOf(docs, cuts[i], cuts[i + 1])
      invariant lens == Lens(docs)[..cuts[c]]
    {
      var m, chunkLens := SpillChunk(docs, cuts[c], cuts[c + 1]);
      var run := WriteRun(m, docs, cuts[c], cuts[c + 1]);
      runs := runs + [run];
      lens := lens + chunkLens;
      assert Lens(docs)[..cuts[c + 1]] == Lens(docs)[..cuts[c]] + Lens(docs)[cuts[c]..cuts[c + 1]];
    }
    assert lens == Lens(docs);
    RunsSorted(docs, cuts, runs);
    SameTermsMeans(docs, cuts, runs, dict);
    r := Merge(p, dict, runs, lens, |docs|, |dict|);
    if r.Ok? {
      EntriesAgree(p, dict, docs, cuts, runs);
      CappedListed(dict, docs);
      SidecarFollows(p, dict, CappedStats(docs), docs, Capped);
    }
  }

  lemma CappedListed(dict: Dict, docs: seq<seq<bytes>>)
    requires DictOf(dict, docs)
    ensures AllListed(dict, CappedStats(docs), docs, Capped)
  {
    hide StatsOf, CappedStats, Listed, DictSorted, InFirst;
    forall i | 0 <= i < |dict| ensures dict[i].0 in StatsOf(docs) {
      InDict(dict, i);
    }
    StatsListed(dict, docs);
    forall i | 0 <= i < |dict| ensures Listed(CappedStats(docs), dict[i].0, docs, Capped) {
      assert Listed(StatsOf(docs), dict[i].0, docs, n => n);
      CappedOne(dict[i].0, docs);
    }
  }

  lemma CappedOne(t: bytes, docs: seq<seq<bytes>>)
    requires Listed(StatsOf(docs), t, docs, n => n)
    ensures Listed(CappedStats(docs), t, docs, Capped)
  {
    hide TfList, Ordered.Rank, Occurs, Inverted.Holding;
  }

  /** Which corpora one build accepts and the other refuses: out of core, a corpus without
      documents and a dictionary whose offsets do not ascend pass; in memory, a dictionary that
      lacks some term of the corpus does. */
  lemma AcceptedByOne(dict: Dict, docs: seq<seq<bytes>>)
    requires DictSorted(dict)
    ensures DictOf(dict, docs) ==>
              (Writable(dict, StatsOf(docs), Lens(docs)) <==> docs != [] && OffsetsAscend(dict, |dict|))
    ensures Writable(dict, StatsOf(docs), Lens(docs)) ==>
              (DictOf(dict, docs) <==> forall t :: t in StatsOf(docs) ==> InFirst(dict, |dict|, t))
  {
    hide DictSorted, OffsetsAscend, StatsOf, InFirst;
    forall i | 0 <= i < |dict| ensures InFirst(dict, |dict|, dict[i].0) {
      InDict(dict, i);
    }
    if Writable(dict, StatsOf(docs), Lens(docs)) {
      forall t | InFirst(dict, |dict|, t) ensures t in StatsOf(docs) {
        var i := InDictAt(dict, t);
      }
    }
  }
}
