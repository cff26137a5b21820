/** The tiered top-K over a term-bodied split set (rust/src/splitset.rs): the first split alone, then
    the rest in waves, until the page is full. A term-bodied set has no n-gram keys, so no split is
    pruned. */
module TieredSearch {
  import opened Wrappers
  import opened Bytes
  import opened Inverted
  import opened Splits
  import opened SplitRun
  import opened FrontCoding
  import opened TermIndex
  import opened TermWritten
  import opened TermSearch
  import opened TermOpen
  import opened TermSplitBuilder
  import CorpusSearch
  import TermQuery
  import Ordered

  /** How many splits one wave opens. */
  const DESCENT_WAVE := 8

  /** The file of a split holds the index of its documents. */
  ghost predicate SplitFile(fmt: Format, docs: seq<seq<bytes>>, row: Spec, file: bytes) {
    IsFileOf(fmt, IndexOf(Covered(docs, row)), file) && FileFits(fmt, IndexOf(Covered(docs, row)), file)
  }

  /** The files of a split set that covers `docs`. */
  ghost predicate SplitFiles(fmt: Format, docs: seq<seq<bytes>>, specs: seq<Spec>, files: seq<bytes>) {
    && |files| == |specs| && Tiles(specs, |docs|) && OnlyEmptyIsEmpty(fmt.codec) && Faithful(fmt.codec)
    && forall i :: 0 <= i < |files| ==> SplitFile(fmt, docs, specs[i], files[i])
  }

  /** The file's router fits one bounded read. */
  predicate RouterReads(file: bytes) {
    |file| >= 40 && Field(file, 16, 8) <= MAX_READ
  }

  function Page(q: seq<nat>, limit: nat): seq<nat> {
    if limit <= |q| then q[..limit] else q
  }

  /** A page is filled alike by what each split alone would put on it. */
  lemma PageGrows(out: seq<nat>, all: seq<nat>, more: seq<nat>, limit: nat)
    requires Page(out, limit) == Page(all, limit)
    ensures Page(out + Page(more, limit), limit) == Page(all + more, limit)
    ensures |out| >= limit <==> |all| >= limit
  {
    assert Page(out, limit) <= out && Page(all, limit) <= all;
    if |out| >= limit {
      assert (out + Page(more, limit))[..limit] == out[..limit] && (all + more)[..limit] == all[..limit];
    } else {
      assert out == all;
      assert Page(out + Page(more, limit), limit) == Page(out + more, limit);
    }
  }

  lemma RebasedPage(q: seq<nat>, lo: nat, limit: nat)
    ensures Rebased(Page(q, limit), lo) == Page(Rebased(q, lo), limit)
  {
  }

  /** The page after `n` splits is that of their whole matches. */
  ghost predicate PageOf(out: seq<nat>, docs: seq<seq<bytes>>, specs: seq<Spec>, terms: seq<bytes>, n: nat,
                         limit: nat) {
    n <= |specs| && Page(out, limit) == Page(AndBySplit(docs, specs[..n], terms), limit)
  }

  lemma PageStep(out: seq<nat>, docs: seq<seq<bytes>>, specs: seq<Spec>, terms: seq<bytes>, n: nat, limit: nat,
                 local: seq<nat>)
    requires PageOf(out, docs, specs, terms, n, limit) && n < |specs|
    requires local == Ordered.FirstN(Inverted.Matching(Covered(docs, specs[n]), terms), limit)
    ensures PageOf(out + Rebased(local, specs[n].docIdLo), docs, specs, terms, n + 1, limit)
  {
    hide AndBySplit, Rebased, Ordered.Ascending, And, Inverted.Matching, IndexOf, Covered, Page;
    var part := Covered(docs, specs[n]);
    var all := Ordered.Ascending(Inverted.Matching(part, terms));
    AndMatches(part, terms);
    FirstIsPage(Inverted.Matching(part, terms), limit);
    AndBySplitNext(docs, specs, terms, n);
    RebasedPage(all, specs[n].docIdLo, limit);
    PageGrows(out, AndBySplit(docs, specs[..n], terms), Rebased(all, specs[n].docIdLo), limit);
  }

  lemma FirstIsPage(s: set<nat>, limit: nat)
    ensures Ordered.FirstN(s, limit) == Page(Ordered.Ascending(s), limit)
  {
  }

  lemma {:induction false} EarlierFirst(docs: seq<seq<bytes>>, specs: seq<Spec>, terms: seq<bytes>, n: nat, m: nat)
    requires n <= m <= |specs|
    ensures AndBySplit(docs, specs[..n], terms) <= AndBySplit(docs, specs[..m], terms)
    decreases m
  {
    hide AndBySplit, And, IndexOf, Covered, Rebased, Ordered.Ascending;
    if n < m {
      EarlierFirst(docs, specs, terms, n, m - 1);
      AndBySplitNext(docs, specs, terms, m - 1);
    }
  }

  /** A full page, or one after every split, is the first documents of the corpus that match. */
  lemma PageDone(out: seq<nat>, docs: seq<seq<bytes>>, specs: seq<Spec>, terms: seq<bytes>, n: nat, limit: nat)
    requires PageOf(out, docs, specs, terms, n, limit) && Tiles(specs, |docs|) && (n == |specs| || |out| >= limit)
    ensures Page(out, limit) == Ordered.FirstN(Inverted.Matching(docs, terms), limit)
  {
    hide AndBySplit, Ordered.Ascending, Inverted.Matching, Tiles;
    assert specs[..|specs|] == specs;
    EarlierFirst(docs, specs, terms, n, |specs|);
    AndBySplitIsAnd(docs, specs, |docs|, terms);
    MatchingAll(docs, terms);
    FirstIsPage(Inverted.Matching(docs, terms), limit);
  }

  lemma MatchingAll(docs: seq<seq<bytes>>, terms: seq<bytes>)
    ensures Splits.MatchingIn(docs, terms, 0, |docs|) == Inverted.Matching(docs, terms)
  {
  }

  lemma PageStarts(docs: seq<seq<bytes>>, specs: seq<Spec>, terms: seq<bytes>, limit: nat)
    ensures PageOf([], docs, specs, terms, 0, limit)
  {
    NoSplits(docs, terms);
    assert specs[..0] == [];
  }

  /** How many documents match in the first `n` splits. */
  ghost function Found(docs: seq<seq<bytes>>, specs: seq<Spec>, terms: seq<bytes>, n: nat): nat
    requires n <= |specs|
  {
    |AndBySplit(docs, specs[..n], terms)|
  }

  /** Opens one split and searches it for the whole page. */
  method SearchSplit(codec: Codec, load: Load, file: bytes, tokens: seq<bytes>, limit: nat,
                     ghost fmt: Format, ghost docs: seq<seq<bytes>>, ghost row: Spec)
    returns (r: Result<seq<nat>>)
    requires codec == fmt.codec && OnlyEmptyIsEmpty(codec) && Faithful(codec) && Loads(fmt, load)
    requires SplitFile(fmt, docs, row, file)
    ensures r.Ok? <==> RouterReads(file)
    ensures r.Ok? ==> r.value == Ordered.FirstN(Inverted.Matching(Covered(docs, row), TermQuery.TermsOf(tokens)), limit)
  {
    hide Of, Inverted.Matching, IndexOf, Covered, OnlyEmptyIsEmpty, Ordered.FirstN, OpenTermIndex, Loads, IsFileOf,
         Field;
    ghost var f, src := OpensFile(fmt, IndexOf(Covered(docs, row)), file, load);
    var index := OpenTermIndex(file, load);
    if index.Err? {
      return Err(index.error);
    }
    r := CorpusSearch.Search(codec, index.value.1, tokens, limit, src, Covered(docs, row));
  }

  /** Searches splits `from` to `to`, each for the whole page, and appends their hits in split order. */
  method Wave(codec: Codec, load: Load, files: seq<bytes>, specs: seq<Spec>, from: nat, to: nat, tokens: seq<bytes>,
              limit: nat, before: seq<nat>, ghost fmt: Format, ghost docs: seq<seq<bytes>>)
    returns (r: Result<seq<nat>>)
    requires codec == fmt.codec && Loads(fmt, load) && SplitFiles(fmt, docs, specs, files) && from <= to <= |files|
    requires PageOf(before, docs, specs, TermQuery.TermsOf(tokens), from, limit)
    ensures r.Ok? <==> forall i :: from <= i < to ==> RouterReads(files[i])
    ensures r.Ok? ==> PageOf(r.value, docs, specs, TermQuery.TermsOf(tokens), to, limit)
  {
    hide PageOf, Inverted.Matching, IndexOf, Covered, Rebased, Tiles, OnlyEmptyIsEmpty, Ordered.FirstN, RouterReads,
         Loads, SplitFile;
    var out := before;
    for i := from to to
      invariant PageOf(out, docs, specs, TermQuery.TermsOf(tokens), i, limit)
      invariant forall j :: from <= j < i ==> RouterReads(files[j])
    {
      var local := SearchSplit(codec, load, files[i], tokens, limit, fmt, docs, specs[i]);
      if local.Err? {
        return Err(local.error);
      }
      PageStep(out, docs, specs, TermQuery.TermsOf(tokens), i, limit, local.value);
      out := out + Rebased(local.value, specs[i].docIdLo);
    }
    r := Ok(out);
  }

  lemma PageFull(out: seq<nat>, docs: seq<seq<bytes>>, specs: seq<Spec>, terms: seq<bytes>, n: nat, limit: nat)
    requires PageOf(out, docs, specs, terms, n, limit)
    ensures |out| < limit <==> Found(docs, specs, terms, n) < limit
  {
  }

  /** The tiered top-K: the first `limit` documents of the corpus that hold every query term, wherever
      the descent stops. A query that the first split can answer opens no other, and no more than
      seven splits are opened beyond those a split-by-split descent needs. It fails exactly when
      the router of a split that it opens passes one bounded read. */
  method SearchTiered(codec: Codec, load: Load, files: seq<bytes>, specs: seq<Spec>, tokens: seq<bytes>, limit: nat,
                      ghost fmt: Format, ghost docs: seq<seq<bytes>>)
    returns (r: Result<seq<nat>>, opens: nat)
    requires codec == fmt.codec && Loads(fmt, load) && SplitFiles(fmt, docs, specs, files)
    ensures r.Ok? ==> r.value == Ordered.FirstN(Inverted.Matching(docs, TermQuery.TermsOf(tokens)), limit)
    ensures opens <= |files| && (limit == 0 ==> opens == 0)
    ensures r.Ok? <==> forall i :: 0 <= i < opens ==> RouterReads(files[i])
    ensures opens > 1 ==>
              exists n :: 1 <= n < opens <= n + DESCENT_WAVE && Found(docs, specs, TermQuery.TermsOf(tokens), n) < limit
  {
    hide PageOf, SplitFile, Inverted.Matching, Ordered.FirstN, Found, Tiles, OnlyEmptyIsEmpty, Loads, RouterReads,
         Faithful;
    ghost var terms := TermQuery.TermsOf(tokens);
    PageStarts(docs, specs, terms, limit);
    opens := 0;
    if limit == 0 || |specs| == 0 {
      PageDone([], docs, specs, terms, 0, limit);
      return Ok([]), opens;
    }
    opens := 1;
    r := Wave(codec, load, files, specs, 0, 1, tokens, limit, [], fmt, docs);
    while r.Ok? && opens < |specs| && |r.value| < limit
      invariant 1 <= opens <= |specs| && (r.Ok? ==> PageOf(r.value, docs, specs, terms, opens, limit))
      invariant r.Ok? <==> forall i :: 0 <= i < opens ==> RouterReads(files[i])
      invariant opens > 1 ==> exists n :: 1 <= n < opens <= n + DESCENT_WAVE && Found(docs, specs, terms, n) < limit
      decreases |specs| - opens
    {
      PageFull(r.value, docs, specs, terms, opens, limit);
      var end := if opens + DESCENT_WAVE < |specs| then opens + DESCENT_WAVE else |specs|;
      r := Wave(codec, load, files, specs, opens, end, tokens, limit, r.value, fmt, docs);
      opens := end;
    }
    if r.Ok? {
      PageDone(r.value, docs, specs, terms, opens, limit);
      r := Ok(Page(r.value, limit));
    }
  }

  // ----- over a finished builder -----

  /** The files of a finished builder are what the tiered search needs, so its result is that of the
      documents that were added. */
  lemma FinishedFiles(cfg: Config, fmt: Format, docs: seq<seq<bytes>>, forced: set<nat>, s: State<bytes>)
    requires Consistent(RulesOf(cfg, fmt), docs, forced, s) && NoneEmpty(s.blobs) && s.openCount == 0
    requires Faithful(fmt.codec) && OnlyEmptyIsEmpty(fmt.codec) && |s.blobs| == |s.specs|
    requires forall i :: 0 <= i < |s.blobs| ==> FileFits(fmt, IndexOf(Covered(docs, s.specs[i])), s.blobs[i])
    ensures SplitFiles(fmt, docs, s.specs, s.blobs)
  {
    hide Consistent, RulesOf, IsFileOf, FileFits, Tiles, OnlyEmptyIsEmpty, Faithful, IndexOf, Covered;
    StateMeans(RulesOf(cfg, fmt), docs, forced, s);
    forall i | 0 <= i < |s.blobs| ensures SplitFile(fmt, docs, s.specs[i], s.blobs[i]) {
      SealedIsFile(cfg, fmt, docs, forced, s, i);
    }
  }
}
