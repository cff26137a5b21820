/** A search over the written files, seen from the documents they were built from: resolving the
    query, fetching heads, falling back to tails, finding sidecar rows and addressing impact bytes
    (rust/src/terms.rs, rust/src/bm25.rs) come to a ranking computed from the documents alone. */
module CorpusSearch {
  import opened Wrappers
  import opened Bytes
  import opened FrontCoding
  import opened Splits
  import opened TermIndex
  import opened TermSearch
  import opened TermQuery
  import opened Inverted
  import opened Impacts
  import opened Bm25
  import opened Bm25Search
  import opened ImpactAddressing
  import Sidecar
  import MinMatch
  import Ordered
  import RangeIndex
  import TermOrder

  type Params = Sidecar.Params

  // ----- the ranking, from the documents -----

  /** What a term adds to document `d`. */
  ghost function TermScore(docs: seq<seq<bytes>>, p: Params, w: Weights, t: bytes, d: nat): real {
    if d < |docs| && t in docs[d]
    then w.idf(|Holding(docs, t)|, |docs|) * (p.quantize(multiset(docs[d])[t], |docs[d]|, |AllTokens(docs)|,
                                                         |docs|) as real) * w.scale(p.scale) / 255.0
    else 0.0
  }

  /** What the first `n` terms add to document `d`, in term order. */
  ghost function DocScore(docs: seq<seq<bytes>>, p: Params, w: Weights, terms: seq<bytes>, d: nat, n: nat): real
    requires n <= |terms|
  {
    if n == 0 then 0.0 else DocScore(docs, p, w, terms, d, n - 1) + TermScore(docs, p, w, terms[n - 1], d)
  }

  ghost function AllScored(docs: seq<seq<bytes>>, p: Params, w: Weights, terms: seq<bytes>,
                           candidates: seq<nat>): (q: seq<Scored>)
    ensures |q| == |candidates| && forall i :: 0 <= i < |q| ==>
              q[i] == Scored(candidates[i], DocScore(docs, p, w, terms, candidates[i], |terms|))
  {
    seq(|candidates|, i requires 0 <= i < |candidates| => Scored(candidates[i],
                                                                 DocScore(docs, p, w, terms, candidates[i], |terms|)))
  }

  /** The `k` best of the first `m` documents in the set. */
  ghost function Best(docs: seq<seq<bytes>>, p: Params, w: Weights, terms: seq<bytes>, found: set<nat>, m: nat,
                      k: nat): seq<Scored> {
    Bm25.Take(SortScored(AllScored(docs, p, w, terms, Ordered.FirstN(found, m))), k)
  }

  /** The documents that hold at least `need` of the terms. */
  ghost function HoldingSome(docs: seq<seq<bytes>>, terms: seq<bytes>, need: nat): set<nat> {
    set d: nat | d < |docs| && TermsIn(docs[d], terms) >= need
  }

  /** How many of the terms the document has. */
  function TermsIn(tokens: seq<bytes>, terms: seq<bytes>): nat {
    if terms == [] then 0 else TermsIn(tokens, terms[..|terms| - 1]) + if terms[|terms| - 1] in tokens then 1 else 0
  }

  /** The strict ranking: the `k` best of the first `m` documents that hold every query term. */
  ghost function StrictRanking(docs: seq<seq<bytes>>, p: Params, w: Weights, tokens: seq<bytes>, m: nat,
                               k: nat): seq<Scored> {
    Best(docs, p, w, TermsOf(tokens), Inverted.Matching(docs, TermsOf(tokens)), m, k)
  }

  /** The lenient ranking: terms that no document holds are dropped, and the candidates are the
      documents that hold enough of the rest. */
  ghost function LenientRanking(docs: seq<seq<bytes>>, p: Params, w: Weights, tokens: seq<bytes>, m: nat, k: nat,
                                minMatch: nat): seq<Scored> {
    var terms := Kept(IndexOf(docs), TermsOf(tokens));
    if terms == [] then []
    else Best(docs, p, w, terms, HoldingSome(docs, terms, Clamp(minMatch, 1, |terms|)), m, k)
  }

  /** `r` lists the `k` best documents of the window by `score`: as many as there are, each with its score,
      higher scores first and equal ones by document; every document left out has a lower score than each
      returned, or the same and a larger number. */
  ghost predicate Ranks(r: seq<Scored>, window: set<nat>, score: nat -> real, k: nat) {
    && |r| == (if k <= |window| then k else |window|)
    && (forall i :: 0 <= i < |r| ==> r[i].doc in window && r[i].score == score(r[i].doc))
    && (forall i, j :: 0 <= i < j < |r| ==>
          r[i].score >= r[j].score && (r[i].score == r[j].score ==> r[i].doc < r[j].doc))
    && forall d, i :: d in window && 0 <= i < |r| && (forall j :: 0 <= j < |r| ==> r[j].doc != d) ==>
         r[i].score >= score(d) && (r[i].score == score(d) ==> r[i].doc < d)
  }

  lemma {:induction false} DistinctOnce(q: seq<Scored>, x: Scored)
    requires forall i, j :: 0 <= i < j < |q| ==> q[i].doc != q[j].doc
    ensures multiset(q)[x] <= 1
    decreases |q|
  {
    if q != [] {
      var front, last := q[..|q| - 1], q[|q| - 1];
      assert q == front + [last];
      DistinctOnce(front, x);
      if x == last {
        assert x !in front;
      }
    }
  }

  /** A part of documents that differ has no document twice. */
  lemma PartDistinct(all: seq<Scored>, r: seq<Scored>, rest: seq<Scored>, i: nat, j: nat)
    requires forall i, j :: 0 <= i < j < |all| ==> all[i].doc != all[j].doc
    requires multiset(all) == multiset(r) + multiset(rest) && i < j < |r|
    ensures r[i].doc != r[j].doc
  {
    var x, y := r[i], r[j];
    assert x in multiset(all) && y in multiset(all);
    var a :| 0 <= a < |all| && all[a] == x;
    var b :| 0 <= b < |all| && all[b] == y;
    if x.doc == y.doc {
      DistinctOnce(all, x);
      CountedTwice(r, i, j);
    }
  }

  lemma CountedTwice(r: seq<Scored>, i: nat, j: nat)
    requires i < j < |r| && r[i] == r[j]
    ensures multiset(r)[r[i]] >= 2
  {
    var low, high := r[..j], r[j..];
    assert r == low + high && low[i] == r[i] && high[0] == r[i];
    assert r[i] in low && r[i] in high;
  }

  /** The best of distinct documents in this sense. */
  lemma TopRanks(r: seq<Scored>, all: seq<Scored>, window: set<nat>, score: nat -> real, k: nat)
    requires Top(r, all, k) && |all| == |window|
    requires forall i :: 0 <= i < |all| ==> all[i].doc in window && all[i].score == score(all[i].doc)
    requires forall i, j :: 0 <= i < j < |all| ==> all[i].doc != all[j].doc
    requires forall d :: d in window ==> exists i :: 0 <= i < |all| && all[i].doc == d
    ensures Ranks(r, window, score, k)
  {
    hide Descending;
    var rest: seq<Scored> :|
      && multiset(all) == multiset(r) + multiset(rest)
      && forall i, j :: 0 <= i < |r| && 0 <= j < |rest| ==>
           r[i].score >= rest[j].score && (r[i].score == rest[j].score ==> r[i].doc <= rest[j].doc);
    forall i: nat | i < |r| ensures r[i] in all {
      InPart(all, r, rest, r[i]);
    }
    forall i: nat, j: nat | i < j < |r| ensures r[i].doc != r[j].doc {
      PartDistinct(all, r, rest, i, j);
    }
    forall d: nat, i: nat | d in window && i < |r| && (forall j :: 0 <= j < |r| ==> r[j].doc != d)
      ensures r[i].score >= score(d) && (r[i].score == score(d) ==> r[i].doc < d)
    {
      var a :| 0 <= a < |all| && all[a].doc == d;
      InPart(all, r, rest, all[a]);
    }
    RanksMeans(r, window, score, k);
  }

  lemma InPart(all: seq<Scored>, r: seq<Scored>, rest: seq<Scored>, x: Scored)
    requires multiset(all) == multiset(r) + multiset(rest)
    ensures x in all <==> x in r || x in rest
  {
    assert x in all <==> x in multiset(all);
  }

  lemma RanksMeans(r: seq<Scored>, window: set<nat>, score: nat -> real, k: nat)
    requires |r| == (if k <= |window| then k else |window|) && Descending(r)
    requires forall i: nat :: i < |r| ==> r[i].doc in window && r[i].score == score(r[i].doc)
    requires forall i: nat, j: nat :: i < j < |r| ==> r[i].doc != r[j].doc
    requires forall d: nat, i: nat :: d in window && i < |r| && (forall j :: 0 <= j < |r| ==> r[j].doc != d) ==>
               r[i].score >= score(d) && (r[i].score == score(d) ==> r[i].doc < d)
    ensures Ranks(r, window, score, k)
  {
  }

  /** The window: the first `m` documents of those found. */
  lemma BestRanks(docs: seq<seq<bytes>>, p: Params, w: Weights, terms: seq<bytes>, found: set<nat>, m: nat, k: nat)
    ensures Ranks(Best(docs, p, w, terms, found, m, k), Ordered.FirstOf(found, m),
                  (d: nat) => DocScore(docs, p, w, terms, d, |terms|), k)
  {
    hide Top, Ranks, DocScore, Ordered.FirstN, Ordered.FirstOf;
    Ordered.FirstNMeans(found, m);
    var candidates := Ordered.FirstN(found, m);
    var all := AllScored(docs, p, w, terms, candidates);
    TakeIsTop(all, k);
    ListSize(candidates, Ordered.FirstOf(found, m));
    TopRanks(Best(docs, p, w, terms, found, m, k), all, Ordered.FirstOf(found, m),
             (d: nat) => DocScore(docs, p, w, terms, d, |terms|), k);
  }

  lemma ListSize(q: seq<nat>, s: set<nat>)
    requires Ordered.Lists(q, s)
    ensures |q| == |s|
  {
    Ordered.AscendingUnique(s, q);
  }

  /** The documents that hold at least `need` different ones of the terms. */
  ghost function HoldingAtLeast(docs: seq<seq<bytes>>, terms: set<bytes>, need: nat): set<nat> {
    set d: nat | d < |docs| && |terms * KeySet(docs[d])| >= need
  }

  /** The query's terms that some document holds. */
  ghost function HeldTerms(docs: seq<seq<bytes>>, tokens: seq<bytes>): set<bytes> {
    set t | t in tokens && exists d :: 0 <= d < |docs| && t in docs[d]
  }

  /** What the lenient search is to answer: of the first `m` documents that hold enough of the query's held
      terms, the `k` best; nothing when no term is held. */
  ghost predicate LenientRanks(r: seq<Scored>, docs: seq<seq<bytes>>, p: Params, w: Weights, tokens: seq<bytes>,
                               m: nat, k: nat, minMatch: nat) {
    var held, terms := HeldTerms(docs, tokens), Kept(IndexOf(docs), TermsOf(tokens));
    && KeySet(terms) == held && |terms| == |held|
    && if held == {} then r == []
       else
         var need := if minMatch < 1 then 1 else if minMatch > |held| then |held| else minMatch;
         Ranks(r, Ordered.FirstOf(HoldingAtLeast(docs, held, need), m),
                  (d: nat) => DocScore(docs, p, w, terms, d, |terms|), k)
  }

  lemma {:induction false} KeptSorted(m: TermMap, terms: seq<bytes>)
    requires TermOrder.Sorted(terms)
    ensures TermOrder.Sorted(Kept(m, terms))
  {
    if terms != [] {
      var front, last := terms[..|terms| - 1], terms[|terms| - 1];
      KeptSorted(m, front);
      forall i | 0 <= i < |Kept(m, front)| ensures TermOrder.Less(Kept(m, front)[i], last) {
        assert Kept(m, front)[i] in front;
      }
    }
  }

  lemma LastIsNew(terms: seq<bytes>)
    requires TermOrder.Sorted(terms) && terms != []
    ensures var front, last := terms[..|terms| - 1], terms[|terms| - 1];
            TermOrder.Sorted(front) && last !in front && KeySet(terms) == KeySet(front) + {last}
  {
    var front, last := terms[..|terms| - 1], terms[|terms| - 1];
    forall i | 0 <= i < |front| ensures front[i] != last {
      TermOrder.LessNot(terms[i], last);
    }
    assert terms == front + [last];
  }

  lemma {:induction false} SortedCount(tokens: seq<bytes>, terms: seq<bytes>)
    requires TermOrder.Sorted(terms)
    ensures TermsIn(tokens, terms) == |KeySet(terms) * KeySet(tokens)| && |KeySet(terms)| == |terms|
    decreases |terms|
  {
    if terms == [] {
      assert KeySet(terms) == {};
    } else {
      hide TermOrder.Sorted;
      var front, last := terms[..|terms| - 1], terms[|terms| - 1];
      LastIsNew(terms);
      assert last in KeySet(tokens) <==> last in tokens;
      assert last !in KeySet(front);
      hide KeySet;
      SortedCount(tokens, front);
      CountsOne(KeySet(front), last, KeySet(tokens));
    }
  }

  lemma CountsOne(a: set<bytes>, x: bytes, held: set<bytes>)
    requires x !in a
    ensures |(a + {x}) * held| == |a * held| + (if x in held then 1 else 0) && |a + {x}| == |a| + 1
  {
    assert (a + {x}) * held == if x in held then a * held + {x} else a * held;
  }

  lemma KeptAreHeld(docs: seq<seq<bytes>>, tokens: seq<bytes>)
    ensures var terms := Kept(IndexOf(docs), TermsOf(tokens));
            TermOrder.Sorted(terms) && KeySet(terms) == HeldTerms(docs, tokens)
  {
    hide IndexOf, Kept, TermOrder.Sorted;
    TermOrder.SortedTermsList(KeySet(tokens));
    KeptSorted(IndexOf(docs), TermsOf(tokens));
    forall t ensures t in IndexOf(docs) <==> exists d :: 0 <= d < |docs| && t in docs[d] {
      KeysMeans(docs, t);
      IndexKeys(docs, t);
    }
  }

  lemma IndexKeys(docs: seq<seq<bytes>>, t: bytes)
    ensures t in IndexOf(docs) <==> t in KeysOf(docs)
  {
  }

  lemma LenientIsRanks(docs: seq<seq<bytes>>, p: Params, w: Weights, tokens: seq<bytes>, m: nat, k: nat, minMatch: nat)
    ensures LenientRanks(LenientRanking(docs, p, w, tokens, m, k, minMatch), docs, p, w, tokens, m, k, minMatch)
  {
    hide IndexOf, Kept, TermsOf, Ranks, Best, DocScore, Ordered.FirstOf, TermsIn, TermOrder.Sorted, HeldTerms;
    var terms := Kept(IndexOf(docs), TermsOf(tokens));
    KeptAreHeld(docs, tokens);
    SortedCount([], terms);
    assert terms == [] <==> KeySet(terms) == {};
    var need := Clamp(minMatch, 1, |terms|);
    forall d: nat | d < |docs| ensures d in HoldingSome(docs, terms, need)
      <==> d in HoldingAtLeast(docs, KeySet(terms), need) {
      SortedCount(docs[d], terms);
    }
    assert HoldingSome(docs, terms, need) == HoldingAtLeast(docs, KeySet(terms), need);
    BestRanks(docs, p, w, terms, HoldingSome(docs, terms, need), m, k);
  }

  // ----- the files -----

  /** The writer's dictionary of a term index. */
  function DictOf(src: Source): Sidecar.Dict {
    TermSearch.Entries(Flatten(src.groups))
  }

  /** The term index and the sidecar are those of these documents. */
  ghost predicate BuiltFrom(codec: Codec, f: TermFile, x: Sidecar.Index, src: Source, p: Params,
                            docs: seq<seq<bytes>>) {
    && Of(codec, f, src) && OnlyEmptyIsEmpty(codec) && src.m == IndexOf(docs)
    && Sidecar.Opens(x, p, EntriesOver(p, DictOf(src), docs), |docs|) && Bounded(x)
  }

  /** A dictionary term's sidecar row counts the documents that hold it. */
  lemma RowCounts(x: Sidecar.Index, p: Params, dict: Sidecar.Dict, docs: seq<seq<bytes>>, i: nat)
    requires Sidecar.Opens(x, p, EntriesOver(p, dict, docs), |docs|) && i < |dict| && dict[i].0 in StatsOf(docs)
    ensures Sidecar.EntryOf(x, dict[i].1).Ok? && Sidecar.EntryOf(x, dict[i].1).value.card == |Holding(docs, dict[i].0)|
  {
    hide Sidecar.Opens, Sidecar.EntryOf, RangeIndex.PostingsOf, Start, Holding, TfList;
    var es := EntriesOver(p, dict, docs);
    Sidecar.EntryFound(x, p, es, |docs|, dict[i].1);
    StatsFollowPosting(docs, dict[i].0);
    assert es[i].key == dict[i].1;
  }

  /** What a resolved term of the index is in terms of the documents. */
  lemma HeadMeans(codec: Codec, src: Source, docs: seq<seq<bytes>>, t: bytes, h: TermHead) returns (i: nat)
    requires HeadIs(codec, src, t, h) && src.m == IndexOf(docs)
    ensures i < |DictOf(src)| && DictOf(src)[i] == (t, h.headOff) && t in StatsOf(docs)
            && Whole(src, t) == Holding(docs, t)
  {
    hide Flatten, TfList;
    var items := Flatten(src.groups);
    var it :| it in items && it.term == t && it.headOff == h.headOff;
    i :| 0 <= i < |items| && items[i] == it;
  }

  /** Reranking reads, for a document that holds the term, the byte quantized from it. */
  lemma PartIs(codec: Codec, f: TermFile, x: Sidecar.Index, src: Source, p: Params, w: Weights, docs: seq<seq<bytes>>,
               t: bytes, h: TermHead, d: nat)
    requires BuiltFrom(codec, f, x, src, p, docs) && HeadIs(codec, src, t, h)
    ensures Sidecar.EntryOf(x, h.headOff).Ok?
    ensures d in Whole(src, t) ==> Address(x, Sidecar.EntryOf(x, h.headOff).value, Whole(src, t), d) < |x.file|
    ensures (if d in Whole(src, t) then Part(x, w, Sidecar.EntryOf(x, h.headOff).value,
                                             Posting(h.headOff, Whole(src, t)), d) else 0.0)
            == TermScore(docs, p, w, t, d)
  {
    hide Of, HeadIs, Sidecar.EntryOf, Address, Whole, StatsOf, AllTokens, DictOf, EntriesOver;
    var i := HeadMeans(codec, src, docs, t, h);
    RowCounts(x, p, DictOf(src), docs, i);
    if d in Holding(docs, t) {
      AddressSound(x, p, DictOf(src), docs, i, d);
      OpensMeans(x, p, EntriesOver(p, DictOf(src), docs), |docs|);
    }
  }

  lemma OpensMeans(x: Sidecar.Index, p: Params, es: seq<RangeIndex.Entry>, docs: nat)
    requires Sidecar.Opens(x, p, es, docs)
    ensures x.docs == docs && x.scale == p.scale
  {
  }

  // ----- reranking -----

  /** The postings of resolved terms are those of the documents. */
  ghost predicate Resolved(codec: Codec, src: Source, terms: seq<bytes>, heads: seq<TermHead>, ps: seq<Posting>) {
    && HeadsAre(codec, src, terms, heads) && |ps| == |terms|
    && forall i :: 0 <= i < |ps| ==> ps[i] == Posting(heads[i].headOff, Whole(src, terms[i]))
  }

  lemma RowsFound(codec: Codec, f: TermFile, x: Sidecar.Index, src: Source, p: Params, w: Weights,
                  docs: seq<seq<bytes>>, terms: seq<bytes>, heads: seq<TermHead>, ps: seq<Posting>)
    requires BuiltFrom(codec, f, x, src, p, docs) && Resolved(codec, src, terms, heads, ps)
    ensures EntriesFor(x, ps).Some?
  {
    hide BuiltFrom, HeadIs, Sidecar.EntryOf, Whole, TermScore, Part;
    forall i | 0 <= i < |ps| ensures Sidecar.EntryOf(x, ps[i].headOff).Ok? {
      PartIs(codec, f, x, src, p, w, docs, terms[i], heads[i], 0);
    }
  }

  lemma AllAddressed(codec: Codec, f: TermFile, x: Sidecar.Index, src: Source, p: Params, w: Weights,
                     docs: seq<seq<bytes>>, terms: seq<bytes>, heads: seq<TermHead>, ps: seq<Posting>,
                     candidates: seq<nat>)
    requires BuiltFrom(codec, f, x, src, p, docs) && Resolved(codec, src, terms, heads, ps)
    ensures EntriesFor(x, ps).Some? && Addressed(x, EntriesFor(x, ps).value, ps, candidates)
  {
    hide BuiltFrom, HeadIs, Sidecar.EntryOf, Whole, TermScore, Part, Address;
    RowsFound(codec, f, x, src, p, w, docs, terms, heads, ps);
    var rows := EntriesFor(x, ps).value;
    forall t, c | 0 <= t < |ps| && 0 <= c < |candidates| && candidates[c] in ps[t].docs
      ensures Address(x, rows[t], ps[t].docs, candidates[c]) < |x.file|
    {
      PartIs(codec, f, x, src, p, w, docs, terms[t], heads[t], candidates[c]);
    }
  }

  lemma {:induction false} ScoreIs(codec: Codec, f: TermFile, x: Sidecar.Index, src: Source, p: Params, w: Weights,
                                   docs: seq<seq<bytes>>, terms: seq<bytes>, heads: seq<TermHead>, ps: seq<Posting>,
                                   d: nat, n: nat)
    requires BuiltFrom(codec, f, x, src, p, docs) && Resolved(codec, src, terms, heads, ps) && n <= |terms|
    ensures EntriesFor(x, ps).Some? && |EntriesFor(x, ps).value| == |ps|
    ensures Score(x, w, EntriesFor(x, ps).value, ps, d, n) == DocScore(docs, p, w, terms, d, n)
    decreases n
  {
    hide BuiltFrom, HeadIs, Sidecar.EntryOf, Whole, TermScore, Part, Score;
    RowsFound(codec, f, x, src, p, w, docs, terms, heads, ps);
    ScoreNext(x, w, EntriesFor(x, ps).value, ps, d, n);
    if n > 0 {
      ScoreIs(codec, f, x, src, p, w, docs, terms, heads, ps, d, n - 1);
      PartIs(codec, f, x, src, p, w, docs, terms[n - 1], heads[n - 1], d);
    }
  }

  /** Reranking over the files ranks by the documents' scores. */
  lemma RerankIs(codec: Codec, f: TermFile, x: Sidecar.Index, src: Source, p: Params, w: Weights, docs: seq<seq<bytes>>,
                 terms: seq<bytes>, heads: seq<TermHead>, found: set<nat>, m: nat, k: nat)
    requires BuiltFrom(codec, f, x, src, p, docs) && HeadsAre(codec, src, terms, heads) && heads != []
    ensures Reranked(x, w, PostingsOf(heads, FullSets(heads)), Ordered.FirstN(found, m), k)
            == Some(Best(docs, p, w, terms, found, m, k))
  {
    hide BuiltFrom, HeadIs, Score, DocScore, Addressed, Ordered.FirstN, SortScored, EntriesFor, Whole, HeadsAre;
    var ps, candidates := PostingsOf(heads, FullSets(heads)), Ordered.FirstN(found, m);
    FullIsWhole(codec, f, x, src, p, docs, terms, heads, ps);
    AllAddressed(codec, f, x, src, p, w, docs, terms, heads, ps, candidates);
    EntriesLength(x, ps);
    var rows := EntriesFor(x, ps).value;
    forall c | 0 <= c < |candidates|
      ensures ScoredAll(x, w, rows, ps, candidates)[c] == AllScored(docs, p, w, terms, candidates)[c]
    {
      ScoreIs(codec, f, x, src, p, w, docs, terms, heads, ps, candidates[c], |terms|);
    }
    assert ScoredAll(x, w, rows, ps, candidates) == AllScored(docs, p, w, terms, candidates);
    SortedLength(AllScored(docs, p, w, terms, candidates));
  }

  lemma FullIsWhole(codec: Codec, f: TermFile, x: Sidecar.Index, src: Source, p: Params, docs: seq<seq<bytes>>,
                    terms: seq<bytes>, heads: seq<TermHead>, ps: seq<Posting>)
    requires BuiltFrom(codec, f, x, src, p, docs) && HeadsAre(codec, src, terms, heads)
             && ps == PostingsOf(heads, FullSets(heads))
    ensures Resolved(codec, src, terms, heads, ps) && |heads| == |terms| == |ps|
  {
    hide Of, HeadIs, OnlyEmptyIsEmpty, AllSplit;
    HeadsSplit(codec, src, terms, heads);
  }

  // ----- what the postings of resolved terms have in common -----

  ghost predicate FullOf(docs: seq<seq<bytes>>, terms: seq<bytes>, sets: seq<set<nat>>) {
    |sets| == |terms| && forall i :: 0 <= i < |sets| ==> sets[i] == Holding(docs, terms[i])
  }

  lemma FullSetsAre(codec: Codec, src: Source, docs: seq<seq<bytes>>, terms: seq<bytes>, heads: seq<TermHead>)
    requires OnlyEmptyIsEmpty(codec) && src.m == IndexOf(docs) && HeadsAre(codec, src, terms, heads)
    ensures FullOf(docs, terms, FullSets(heads)) && AllSplit(heads, src.boundary)
  {
    hide HeadIs, OnlyEmptyIsEmpty, AllSplit, Whole;
    HeadsSplit(codec, src, terms, heads);
    forall i | 0 <= i < |heads| ensures FullSets(heads)[i] == Holding(docs, terms[i]) {
      var _ := HeadMeans(codec, src, docs, terms[i], heads[i]);
    }
  }

  lemma AllHold(docs: seq<seq<bytes>>, terms: seq<bytes>, sets: seq<set<nat>>)
    requires FullOf(docs, terms, sets) && terms != []
    ensures InterAll(sets) == Inverted.Matching(docs, terms)
  {
    hide InterAll;
    forall d: nat ensures d in InterAll(sets) <==> d in Inverted.Matching(docs, terms) {
      InterHas(sets, d);
      if forall i :: 0 <= i < |sets| ==> d in sets[i] {
        assert d in Holding(docs, terms[0]);
        forall t | t in terms ensures t in docs[d] {
          var i :| 0 <= i < |terms| && terms[i] == t;
          assert d in sets[i];
        }
      }
    }
  }

  lemma {:induction false} CountIs(docs: seq<seq<bytes>>, terms: seq<bytes>, sets: seq<set<nat>>, d: nat)
    requires FullOf(docs, terms, sets)
    ensures MinMatch.Count(sets, d) == if d < |docs| then TermsIn(docs[d], terms) else 0
    decreases |sets|
  {
    if sets != [] {
      CountIs(docs, terms[..|terms| - 1], sets[..|sets| - 1], d);
    }
  }

  lemma SomeHold(docs: seq<seq<bytes>>, terms: seq<bytes>, sets: seq<set<nat>>, need: nat)
    requires FullOf(docs, terms, sets) && need > 0
    ensures MinMatch.AtLeast(sets, need) == HoldingSome(docs, terms, need)
  {
    hide MinMatch.AtLeast, MinMatch.Count, FullOf;
    forall d: nat ensures d in MinMatch.AtLeast(sets, need) <==> d in HoldingSome(docs, terms, need) {
      MinMatch.AtLeastHas(sets, need, d);
      CountIs(docs, terms, sets, d);
    }
  }

  lemma {:induction false} KeptAll(m: TermMap, terms: seq<bytes>)
    requires forall t :: t in terms ==> t in m
    ensures Kept(m, terms) == terms
  {
    if terms != [] {
      var front, t := terms[..|terms| - 1], terms[|terms| - 1];
      assert terms == front + [t] && t in terms && forall u :: u in front ==> u in terms;
      KeptAll(m, front);
    }
  }

  lemma NoneHold(docs: seq<seq<bytes>>, terms: seq<bytes>)
    requires terms == [] || exists t :: t in terms && t !in IndexOf(docs)
    ensures Inverted.Matching(docs, terms) == {}
  {
    if t :| t in terms && t !in IndexOf(docs) {
      KeysMeans(docs, t);
    }
  }

  lemma BestOfNone(docs: seq<seq<bytes>>, p: Params, w: Weights, terms: seq<bytes>, m: nat, k: nat)
    ensures Best(docs, p, w, terms, {}, m, k) == []
  {
    FirstOfNone(m);
  }

  // ----- the searches -----

  /** The plain search over an index of `docs`: the first documents that hold every query term,
      whether or not the tails were fetched. */
  method Search(codec: Codec, f: TermFile, tokens: seq<bytes>, limit: nat, ghost src: Source,
                ghost docs: seq<seq<bytes>>)
    returns (r: Result<seq<nat>>)
    requires Of(codec, f, src) && OnlyEmptyIsEmpty(codec) && src.m == IndexOf(docs)
    ensures r == Ok(Ordered.FirstN(Inverted.Matching(docs, TermsOf(tokens)), limit))
  {
    hide Of, OnlyEmptyIsEmpty, HeadsAre, AllSplit, Inverted.Matching, IndexOf, TermsOf, Kept, InterAll, FullOf,
         Ordered.FirstN;
    var terms := TermsOf(tokens);
    FirstOfNone(limit);
    FirstNLength(Inverted.Matching(docs, terms), limit);
    if limit == 0 {
      return Ok([]);
    }
    var heads := QueryHeads(codec, f, tokens, false, Some(src));
    if heads.value.None? {
      NoneHold(docs, terms);
      return Ok([]);
    }
    var hs := heads.value.value;
    KeptAll(src.m, terms);
    HeadsLength(codec, src, terms, hs);
    FullSetsAre(codec, src, docs, terms, hs);
    AllHold(docs, terms, FullSets(hs));
    InterBelow(hs, src.boundary);
    var smallest := Smallest(HeadSets(hs));
    var acc := Intersect(smallest, HeadSets(hs));
    var hasTail := HasTail(hs);
    if |acc| >= limit || !hasTail {
      WindowOfHeads(Inverted.Matching(docs, terms), acc, src.boundary, limit);
      return Ok(Ordered.FirstN(acc, limit));
    }
    var sets := Upgrade(hs, {}, src.boundary);
    smallest := Smallest(sets.value);
    acc := Intersect(smallest, sets.value);
    r := Ok(Ordered.FirstN(acc, limit));
  }

  /** The strict BM25 search over files built from `docs` gives the `k` best of the first `m`
      documents that hold every query term, scored from the documents themselves. */
  method SearchStrict(codec: Codec, f: TermFile, x: Sidecar.Index, w: Weights, tokens: seq<bytes>, m: nat, k: nat,
                      ghost src: Source, ghost p: Params, ghost docs: seq<seq<bytes>>)
    returns (r: Result<seq<Scored>>)
    requires BuiltFrom(codec, f, x, src, p, docs)
    ensures r == Ok(StrictRanking(docs, p, w, tokens, m, k))
    ensures Ranks(r.value, Ordered.FirstOf(Inverted.Matching(docs, TermsOf(tokens)), m),
                  (d: nat) => DocScore(docs, p, w, TermsOf(tokens), d, |TermsOf(tokens)|), k)
  {
    hide Ranks, Ordered.FirstOf, Of, OnlyEmptyIsEmpty, Sidecar.Opens, HeadsAre, AllSplit, Best, Inverted.Matching,
         IndexOf, TermsOf, Kept, InterAll, Reranked, FullOf, Bounded;
    var terms := TermsOf(tokens);
    BestRanks(docs, p, w, terms, Inverted.Matching(docs, terms), m, k);
    var heads := QueryHeads(codec, f, tokens, false, Some(src));
    if heads.value.None? {
      NoneHold(docs, terms);
      BestOfNone(docs, p, w, terms, m, k);
      return Ok([]);
    }
    KeptAll(src.m, terms);
    HeadsLength(codec, src, terms, heads.value.value);
    FullSetsAre(codec, src, docs, terms, heads.value.value);
    AllHold(docs, terms, FullSets(heads.value.value));
    RerankIs(codec, f, x, src, p, w, docs, terms, heads.value.value, Inverted.Matching(docs, terms), m, k);
    r := SearchBm25(x, w, heads.value, {}, m, k, src.boundary);
  }

  lemma HeadsLength(codec: Codec, src: Source, terms: seq<bytes>, heads: seq<TermHead>)
    requires HeadsAre(codec, src, terms, heads)
    ensures |heads| == |terms|
  {
  }

  /** The min-should-match search over files built from `docs`: the terms no document holds are
      dropped, and the candidates are the documents that hold enough of the rest. */
  method SearchLenient(codec: Codec, f: TermFile, x: Sidecar.Index, w: Weights, tokens: seq<bytes>, m: nat, k: nat,
                       minMatch: nat, ghost src: Source, ghost p: Params, ghost docs: seq<seq<bytes>>)
    returns (r: Result<seq<Scored>>)
    requires BuiltFrom(codec, f, x, src, p, docs)
    ensures r == Ok(LenientRanking(docs, p, w, tokens, m, k, minMatch))
    ensures LenientRanks(r.value, docs, p, w, tokens, m, k, minMatch)
  {
    hide LenientRanks, Of, OnlyEmptyIsEmpty, Sidecar.Opens, HeadsAre, AllSplit, Best, HoldingSome, IndexOf, TermsOf,
         Kept, MinMatch.AtLeast, Reranked, FullOf, Bounded;
    ghost var terms := Kept(src.m, TermsOf(tokens));
    var heads := QueryHeads(codec, f, tokens, true, Some(src));
    HeadsLength(codec, src, terms, heads.value.value);
    FullSetsAre(codec, src, docs, terms, heads.value.value);
    if terms != [] {
      var need := Clamp(minMatch, 1, |heads.value.value|);
      SomeHold(docs, terms, FullSets(heads.value.value), need);
      RerankIs(codec, f, x, src, p, w, docs, terms, heads.value.value, HoldingSome(docs, terms, need), m, k);
    }
    r := SearchMinMatch(x, w, heads.value.value, {}, m, k, minMatch, src.boundary);
    LenientIsRanks(docs, p, w, tokens, m, k, minMatch);
  }

  // ----- when the two rankings agree -----

  lemma BestLength(docs: seq<seq<bytes>>, p: Params, w: Weights, terms: seq<bytes>, found: set<nat>, m: nat, k: nat)
    ensures Best(docs, p, w, terms, found, m, k) == [] <==> found == {} || m == 0 || k == 0
  {
    hide Ordered.FirstN, SortScored;
    FirstNEmpty(found, m);
    SortedLength(AllScored(docs, p, w, terms, Ordered.FirstN(found, m)));
  }

  lemma {:induction false} AllTermsIn(tokens: seq<bytes>, terms: seq<bytes>)
    ensures TermsIn(tokens, terms) <= |terms|
    ensures TermsIn(tokens, terms) == |terms| <==> forall t :: t in terms ==> t in tokens
  {
    if terms != [] {
      var front, t := terms[..|terms| - 1], terms[|terms| - 1];
      AllTermsIn(tokens, front);
      assert terms == front + [t] && t in terms && forall u :: u in terms <==> u in front || u == t;
    }
  }

  lemma HoldingAll(docs: seq<seq<bytes>>, terms: seq<bytes>)
    requires terms != []
    ensures HoldingSome(docs, terms, |terms|) == Inverted.Matching(docs, terms)
  {
    hide TermsIn;
    forall d: nat | d < |docs| ensures d in HoldingSome(docs, terms, |terms|) <==> d in Inverted.Matching(docs, terms) {
      AllTermsIn(docs[d], terms);
    }
  }

  lemma {:induction false} KeptSize(m: TermMap, terms: seq<bytes>)
    ensures |Kept(m, terms)| <= |terms|
  {
    if terms != [] {
      KeptSize(m, terms[..|terms| - 1]);
    }
  }

  /** Asking the lenient search for as many terms as the query has gives the strict ranking
      exactly when some document holds each term, or no document holds all the terms that any
      document holds, or nothing was asked for. */
  lemma LenientIsStrict(docs: seq<seq<bytes>>, p: Params, w: Weights, tokens: seq<bytes>, m: nat, k: nat)
    ensures LenientRanking(docs, p, w, tokens, m, k, |TermsOf(tokens)|) == StrictRanking(docs, p, w, tokens, m, k)
            <==> (forall t :: t in TermsOf(tokens) ==> t in IndexOf(docs))
                 || Inverted.Matching(docs, Kept(IndexOf(docs), TermsOf(tokens))) == {}
                 || m == 0 || k == 0
  {
    hide Best, HoldingSome, Inverted.Matching, IndexOf, TermsOf, Kept;
    var terms := TermsOf(tokens);
    var kept := Kept(IndexOf(docs), terms);
    KeptSize(IndexOf(docs), terms);
    MatchingNone(docs);
    if kept != [] {
      HoldingAll(docs, kept);
    }
    BestLength(docs, p, w, kept, Inverted.Matching(docs, kept), m, k);
    BestLength(docs, p, w, terms, Inverted.Matching(docs, terms), m, k);
    if forall t :: t in terms ==> t in IndexOf(docs) {
      KeptAll(IndexOf(docs), terms);
    } else {
      NoneHold(docs, terms);
    }
  }

  lemma MatchingNone(docs: seq<seq<bytes>>)
    ensures Inverted.Matching(docs, []) == {}
  {
  }

  /** A one-document corpus and a query with a term it lacks: the lenient search finds the
      document, the strict search nothing. */
  lemma LenientFindsMore(p: Params, w: Weights)
    ensures var docs, tokens := [[[97]]], [[97], [98]];
            && |TermsOf(tokens)| == 2 && StrictRanking(docs, p, w, tokens, 1, 1) == []
            && |LenientRanking(docs, p, w, tokens, 1, 1, 2)| == 1
            && LenientRanking(docs, p, w, tokens, 1, 1, 2)[0].doc == 0
  {
    var docs: seq<seq<bytes>>, tokens: seq<bytes> := [[[97]]], [[97], [98]];
    TwoTerms(tokens);
    var terms := TermsOf(tokens);
    OneKept(docs, terms);
    hide TermsOf, Kept, IndexOf;
    HoldingAll(docs, [[97]]);
    assert Inverted.Matching(docs, [[97]]) == {0};
    assert Inverted.Matching(docs, terms) == {} by { assert [98] in terms && [98] !in docs[0]; }
    FirstOfZero();
    BestOfNone(docs, p, w, terms, 1, 1);
    SortedOne(AllScored(docs, p, w, [[97]], [0]));
  }

  lemma TwoTerms(tokens: seq<bytes>)
    requires tokens == [[97], [98]]
    ensures TermsOf(tokens) == [[97], [98]]
  {
    var q := TermsOf(tokens);
    TermOrder.SortedTermsList(KeySet(tokens));
    assert KeySet(tokens) == {[97], [98]};
    assert [97] in q && [98] in q && |q| == 2;
    assert TermOrder.Less([97], [98]);
    TermOrder.LessNot([97], [98]);
    var i :| 0 <= i < 2 && q[i] == [97];
    var j :| 0 <= j < 2 && q[j] == [98];
  }

  lemma OneKept(docs: seq<seq<bytes>>, terms: seq<bytes>)
    requires docs == [[[97]]] && terms == [[97], [98]]
    ensures Kept(IndexOf(docs), terms) == [[97]] && [98] !in IndexOf(docs)
  {
    KeysMeans(docs, [97]);
    KeysMeans(docs, [98]);
    assert [97] in docs[0];
    assert terms[..1] == [[97]];
    assert Kept(IndexOf(docs), [[97]]) == Kept(IndexOf(docs), [[97]][..0]) + [[97]];
    assert Kept(IndexOf(docs), terms) == Kept(IndexOf(docs), terms[..1]);
  }

  lemma FirstOfZero()
    ensures Ordered.FirstN({0}, 1) == [0]
  {
    assert Ordered.Lists([0], {0});
    Ordered.AscendingUnique({0}, [0]);
  }

  lemma SortedOne(q: seq<Scored>)
    requires |q| == 1
    ensures SortScored(q) == q
  {
    assert q[1..] == [];
    assert SortScored([]) == [];
  }

  // ----- what the writers wrote -----

  /** Each posting takes at least its size field, so the offsets of the terms grow. */
  lemma OffsetsGrow(codec: Codec, m: TermMap, terms: seq<bytes>, boundary: nat, i: nat, j: nat)
    requires i < j < |terms| && terms[i] in m
    ensures ItemsOf(codec, m, terms, boundary)[i].headOff < ItemsOf(codec, m, terms, boundary)[j].headOff
  {
    hide Parts, Start, Join, PostingOf;
    var parts := Parts(codec, m, terms, boundary);
    PostingIs(codec, m[terms[i]], boundary);
    PartSlice(parts, i);
    StartsGrow(parts, i + 1, j);
  }

  lemma DictAt(codec: Codec, m: TermMap, boundary: nat, cap: nat, f: TermFile, groups: seq<seq<Item>>, i: nat)
    requires IsWritten(codec, m, boundary, cap, f, groups) && i < |TermSearch.Entries(Flatten(groups))|
    ensures var terms := TermOrder.SortedTerms(m.Keys);
            && i < |terms| && terms[i] in m
            && TermSearch.Entries(Flatten(groups))[i] == (terms[i], ItemsOf(codec, m, terms, boundary)[i].headOff)
  {
    hide Flatten, TermsFit, Emitted, ItemAt, Join, TermOrder.Sorted;
    var terms := TermOrder.SortedTerms(m.Keys);
    TermOrder.SortedTermsList(m.Keys);
    assert Flatten(groups) == ItemsOf(codec, m, terms, boundary);
    ItemTerm(codec, m, terms, boundary, i);
    assert terms[i] in terms;
  }

  lemma DictAscends(codec: Codec, m: TermMap, boundary: nat, cap: nat, f: TermFile, groups: seq<seq<Item>>, i: nat,
                    j: nat)
    requires IsWritten(codec, m, boundary, cap, f, groups) && i < j < |TermSearch.Entries(Flatten(groups))|
    ensures TermSearch.Entries(Flatten(groups))[i].1 < TermSearch.Entries(Flatten(groups))[j].1
  {
    hide IsWritten, Flatten, ItemAt, ItemsOf;
    DictAt(codec, m, boundary, cap, f, groups, i);
    DictAt(codec, m, boundary, cap, f, groups, j);
    OffsetsGrow(codec, m, TermOrder.SortedTerms(m.Keys), boundary, i, j);
  }

  lemma DictSorted(codec: Codec, boundary: nat, cap: nat, f: TermFile, groups: seq<seq<Item>>, p: Params,
                   docs: seq<seq<bytes>>, dict: Sidecar.Dict)
    requires IsWritten(codec, IndexOf(docs), boundary, cap, f, groups) && dict == TermSearch.Entries(Flatten(groups))
    ensures RangeIndex.KeySorted(EntriesOver(p, dict, docs)) && Sidecar.OffsetsAscend(dict, |dict|)
    ensures forall i :: 0 <= i < |dict| ==> dict[i].0 in StatsOf(docs)
  {
    hide IsWritten, Flatten, TfList, Holding, ItemAt, ItemsOf;
    forall i, j | 0 <= i < j < |dict| ensures dict[i].1 < dict[j].1 {
      DictAscends(codec, IndexOf(docs), boundary, cap, f, groups, i, j);
    }
    forall i | 0 <= i < |dict| ensures dict[i].0 in StatsOf(docs) && EntriesOver(p, dict, docs)[i].key == dict[i].1 {
      DictAt(codec, IndexOf(docs), boundary, cap, f, groups, i);
    }
  }

  /** The two writers' files of the same documents are what the searches need: the sidecar is
      written, opens, and with the term index is built from the documents. */
  lemma WrittenIsBuilt(codec: Codec, boundary: nat, cap: nat, f: TermFile, groups: seq<seq<Item>>, p: Params,
                       usable: nat -> bool, docs: seq<seq<bytes>>)
    requires IsWritten(codec, IndexOf(docs), boundary, cap, f, groups) && Faithful(codec) && OnlyEmptyIsEmpty(codec)
    requires Sidecar.SideFits(p, EntriesOver(p, TermSearch.Entries(Flatten(groups)), docs), |docs|,
                              Sidecar.Sum(Lens(docs))) && usable(p.scale)
    ensures var dict := TermSearch.Entries(Flatten(groups));
            var file := Sidecar.SidecarOf(p, EntriesOver(p, dict, docs), |docs|, Sidecar.Sum(Lens(docs)));
            && (docs != [] ==> Sidecar.Writable(dict, StatsOf(docs), Lens(docs)))
            && Sidecar.Open(file, usable).Ok?
            && BuiltFrom(codec, f, Sidecar.Open(file, usable).value, Source(IndexOf(docs), boundary, cap, groups), p,
                         docs)
  {
    hide IsWritten, Faithful, OnlyEmptyIsEmpty, Flatten, Sidecar.SidecarOf, Sidecar.Open, Sidecar.Opens,
         RangeIndex.KeySorted, IndexOf, StatsOf, Sidecar.Sum, Sidecar.OffsetsAscend, EntriesOver, Bounded;
    var dict := TermSearch.Entries(Flatten(groups));
    var es := EntriesOver(p, dict, docs);
    DictSorted(codec, boundary, cap, f, groups, p, docs, dict);
    Sidecar.OpensSidecar(p, es, |docs|, Sidecar.Sum(Lens(docs)), usable);
    var file := Sidecar.SidecarOf(p, es, |docs|, Sidecar.Sum(Lens(docs)));
    OpenBounded(file, usable, p, es, |docs|);
  }

  lemma OpenBounded(file: bytes, usable: nat -> bool, p: Params, es: seq<RangeIndex.Entry>, docs: nat)
    requires Sidecar.Open(file, usable).Ok? && Sidecar.Opens(Sidecar.Open(file, usable).value, p, es, docs)
             && |file| < TWO_64
    ensures Bounded(Sidecar.Open(file, usable).value)
  {
    hide RangeIndex.KeySorted, Sidecar.SideHeaderAt, Sidecar.EntryAt, RangeIndex.FieldsAt, Field;
  }
}
