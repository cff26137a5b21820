/** BM25 candidate search (rust/src/bm25.rs): reranking by stored impact bytes, and the two
    head-first searches. Scores are reals; the inverse document frequency is a function. */
module Bm25 {
  import opened Wrappers
  import opened Bytes
  import opened Impacts
  import opened Sidecar
  import opened MinMatch
  import RangeIndex
  import Coalesce
  import Fetch
  import Ordered
  import RangeReader

  const GAP: nat := 0x4000

  /** A query term's posting offset and the documents of the posting, or of its head. */
  datatype Posting = Posting(headOff: nat, docs: set<nat>)

  datatype Scored = Scored(doc: nat, score: real)

  /** The scoring functions: what a cardinality weighs in so many documents, and what the bits of
      the scale stand for. */
  datatype Weights = Weights(idf: (nat, nat) -> real, scale: nat -> real)

  // ----- ranking -----

  /** Higher scores first, equal ones by ascending document. */
  predicate Precedes(a: Scored, b: Scored) {
    a.score > b.score || (a.score == b.score && a.doc <= b.doc)
  }

  function InsertScored(q: seq<Scored>, x: Scored): seq<Scored> {
    if q == [] || Precedes(x, q[0]) then [x] + q else [q[0]] + InsertScored(q[1..], x)
  }

  /** The library sort. */
  function SortScored(q: seq<Scored>): seq<Scored> {
    if q == [] then [] else InsertScored(SortScored(q[1..]), q[0])
  }

  ghost predicate InOrder(q: seq<Scored>) {
    forall i, j :: 0 <= i < j < |q| ==> Precedes(q[i], q[j])
  }

  lemma {:induction false} InsertedHas(q: seq<Scored>, x: Scored)
    ensures multiset(InsertScored(q, x)) == multiset(q) + multiset{x}
    decreases |q|
  {
    if q == [] || Precedes(x, q[0]) {
      assert multiset([x] + q) == multiset([x]) + multiset(q);
    } else {
      InsertedHas(q[1..], x);
      assert q == [q[0]] + q[1..];
    }
  }

  lemma Cons(x: Scored, q: seq<Scored>)
    requires InOrder(q) && (q != [] ==> Precedes(x, q[0]))
    ensures InOrder([x] + q)
  {
  }

  lemma {:induction false} InsertedInOrder(q: seq<Scored>, x: Scored)
    requires InOrder(q)
    ensures InOrder(InsertScored(q, x))
    ensures InsertScored(q, x) != [] && (InsertScored(q, x)[0] == x || (q != [] && InsertScored(q, x)[0] == q[0]))
    decreases |q|
  {
    if q == [] || Precedes(x, q[0]) {
      Cons(x, q);
    } else {
      assert InOrder(q[1..]);
      InsertedInOrder(q[1..], x);
      Cons(q[0], InsertScored(q[1..], x));
    }
  }

  /** The sort orders the scored documents and loses none. */
  lemma {:induction false} SortedInOrder(q: seq<Scored>)
    ensures InOrder(SortScored(q)) && multiset(SortScored(q)) == multiset(q)
    decreases |q|
  {
    if q == [] {
      assert InOrder(SortScored(q));
    } else {
      hide InOrder, InsertScored;
      SortedInOrder(q[1..]);
      InsertedInOrder(SortScored(q[1..]), q[0]);
      InsertedHas(SortScored(q[1..]), q[0]);
      assert q == [q[0]] + q[1..];
    }
  }

  function Take<T>(q: seq<T>, k: nat): seq<T> {
    if k <= |q| then q[..k] else q
  }

  /** `r` is the `k` best of `all`: higher scores first, equal ones by document, and whatever is left
      out scores no more than anything returned, nor as much at a smaller document. */
  ghost predicate Top(r: seq<Scored>, all: seq<Scored>, k: nat) {
    && |r| == (if k <= |all| then k else |all|)
    && Descending(r)
    && exists rest: seq<Scored> ::
         && multiset(all) == multiset(r) + multiset(rest)
         && forall i, j :: 0 <= i < |r| && 0 <= j < |rest| ==>
              r[i].score >= rest[j].score && (r[i].score == rest[j].score ==> r[i].doc <= rest[j].doc)
  }

  lemma TakeIsTop(all: seq<Scored>, k: nat)
    ensures Top(Take(SortScored(all), k), all, k)
  {
    hide SortScored, InOrder, Descending, Top;
    SortedInOrder(all);
    var q := SortScored(all);
    var r := Take(q, k);
    var rest := q[|r|..];
    assert q == r + rest;
    assert |multiset(q)| == |multiset(all)|;
    OrderedPair(q);
    Parted(q, r, rest);
    IsTop(r, rest, all, k);
  }

  lemma IsTop(r: seq<Scored>, rest: seq<Scored>, all: seq<Scored>, k: nat)
    requires Descending(r) && multiset(all) == multiset(r) + multiset(rest)
    requires |r| == if k <= |all| then k else |all|
    requires forall i, j :: 0 <= i < |r| && 0 <= j < |rest| ==>
               r[i].score >= rest[j].score && (r[i].score == rest[j].score ==> r[i].doc <= rest[j].doc)
    ensures Top(r, all, k)
  {
    hide Descending;
  }

  /** Highest score first, and the smaller document first among equal scores. */
  ghost predicate Descending(q: seq<Scored>) {
    forall i, j :: 0 <= i < j < |q| ==>
      q[i].score >= q[j].score && (q[i].score == q[j].score ==> q[i].doc <= q[j].doc)
  }

  lemma OrderedPair(q: seq<Scored>)
    requires InOrder(q)
    ensures Descending(q)
  {
  }

  lemma Parted(q: seq<Scored>, r: seq<Scored>, rest: seq<Scored>)
    requires Descending(q) && q == r + rest
    ensures Descending(r)
    ensures forall i, j :: 0 <= i < |r| && 0 <= j < |rest| ==>
              r[i].score >= rest[j].score && (r[i].score == rest[j].score ==> r[i].doc <= rest[j].doc)
  {
    assert forall i :: 0 <= i < |r| ==> r[i] == q[i];
    assert forall j :: 0 <= j < |rest| ==> rest[j] == q[|r| + j];
  }

  // ----- what a rerank computes -----

  /** The entries of all the postings, when each has one. */
  function EntriesFor(x: Index, ps: seq<Posting>): (r: Option<seq<Row>>)
    ensures r.Some? <==> forall i :: 0 <= i < |ps| ==> EntryOf(x, ps[i].headOff).Ok?
    ensures r.Some? ==> |r.value| == |ps| && forall i :: 0 <= i < |ps| ==> EntryOf(x, ps[i].headOff) == Ok(r.value[i])
  {
    if forall i :: 0 <= i < |ps| ==> EntryOf(x, ps[i].headOff).Ok?
    then Some(seq(|ps|, i requires 0 <= i < |ps| && EntryOf(x, ps[i].headOff).Ok? => EntryOf(x, ps[i].headOff).value))
    else None
  }

  lemma RankPositive(docs: set<nat>, doc: nat)
    requires doc in docs
    ensures Ordered.Rank(docs, doc) >= 1
  {
    Ordered.RankIsPosition(docs, doc);
  }

  /** The address of a document's impact byte: its rank in the posting. */
  function Address(x: Index, row: Row, docs: set<nat>, doc: nat): nat {
    if doc in docs then
      RankPositive(docs, doc);
      x.impactsOff + row.rel + Ordered.Rank(docs, doc) - 1
    else x.impactsOff + row.rel
  }

  /** Every impact byte a rerank needs is in the file. */
  ghost predicate Addressed(x: Index, rows: seq<Row>, ps: seq<Posting>, candidates: seq<nat>)
    requires |rows| == |ps|
  {
    forall t, c :: 0 <= t < |ps| && 0 <= c < |candidates| && candidates[c] in ps[t].docs ==>
      Address(x, rows[t], ps[t].docs, candidates[c]) < |x.file|
  }

  /** What one term adds to a document's score. */
  function Part(x: Index, w: Weights, row: Row, p: Posting, doc: nat): real {
    var at := Address(x, row, p.docs, doc);
    if at < |x.file| then w.idf(row.card, x.docs) * (x.file[at] as real) * w.scale(x.scale) / 255.0 else 0.0
  }

  /** The score over the first `n` terms, added up in term order; a term that lacks the document
      adds nothing. */
  function Score(x: Index, w: Weights, rows: seq<Row>, ps: seq<Posting>, doc: nat, n: nat): real
    requires n <= |rows| == |ps|
  {
    if n == 0 then 0.0
    else Score(x, w, rows, ps, doc, n - 1) + if doc in ps[n - 1].docs then Part(x, w, rows[n - 1], ps[n - 1], doc)
      else 0.0
  }

  function ScoredAll(x: Index, w: Weights, rows: seq<Row>, ps: seq<Posting>, candidates: seq<nat>): (q: seq<Scored>)
    requires |rows| == |ps|
    ensures |q| == |candidates|
    ensures forall i :: 0 <= i < |q| ==> q[i] == Scored(candidates[i], Score(x, w, rows, ps, candidates[i], |ps|))
  {
    seq(|candidates|, i requires 0 <= i < |candidates| => Scored(candidates[i],
                                                                 Score(x, w, rows, ps, candidates[i], |ps|)))
  }

  /** The `k` best candidates, or nothing when an entry is missing or a byte is not in the file. */
  ghost function Reranked(x: Index, w: Weights, ps: seq<Posting>, candidates: seq<nat>, k: nat): Option<seq<Scored>> {
    if candidates == [] || ps == [] || k == 0 then Some([])
    else match EntriesFor(x, ps)
      case None => None
      case Some(rows) =>
        if Addressed(x, rows, ps, candidates) then Some(Take(SortScored(ScoredAll(x, w, rows, ps, candidates)), k))
           else None
  }

  // ----- the (term, candidate) pairs and what they add up to -----

  datatype Pair = Pair(term: nat, cand: nat)

  /** The pairs of one term, over the first `c` candidates. */
  function TermPairs(docs: set<nat>, candidates: seq<nat>, t: nat, c: nat): seq<Pair>
    requires c <= |candidates|
  {
    if c == 0 then []
    else TermPairs(docs, candidates, t, c - 1) + if candidates[c - 1] in docs then [Pair(t, c - 1)] else []
  }

  /** The pairs of the first `n` terms, term by term. */
  function Pairs(ps: seq<Posting>, candidates: seq<nat>, n: nat): seq<Pair>
    requires n <= |ps|
  {
    if n == 0 then [] else Pairs(ps, candidates, n - 1) + TermPairs(ps[n - 1].docs, candidates, n - 1, |candidates|)
  }

  /** What pairs add to candidate `c`. */
  function Added(x: Index, w: Weights, rows: seq<Row>, ps: seq<Posting>, candidates: seq<nat>, pairs: seq<Pair>,
                 c: nat): real
    requires |rows| == |ps| && c < |candidates|
  {
    if pairs == [] then 0.0
    else
      var last := pairs[|pairs| - 1];
      Added(x, w, rows, ps, candidates, pairs[..|pairs| - 1], c) +
      if last.cand == c && last.term < |ps| then Part(x, w, rows[last.term], ps[last.term], candidates[c]) else 0.0
  }

  lemma {:induction false} AddedAppend(x: Index, w: Weights, rows: seq<Row>, ps: seq<Posting>, candidates: seq<nat>,
                                       a: seq<Pair>, b: seq<Pair>, c: nat)
    requires |rows| == |ps| && c < |candidates|
    ensures Added(x, w, rows, ps, candidates, a + b, c)
            == Added(x, w, rows, ps, candidates, a, c) + Added(x, w, rows, ps, candidates, b, c)
    decreases |b|
  {
    if b == [] {
      assert a + b == a;
    } else {
      assert (a + b)[..|a + b| - 1] == a + b[..|b| - 1];
      AddedAppend(x, w, rows, ps, candidates, a, b[..|b| - 1], c);
    }
  }

  lemma {:induction false} TermAdds(x: Index, w: Weights, rows: seq<Row>, ps: seq<Posting>, candidates: seq<nat>,
                                    t: nat, n: nat, c: nat)
    requires |rows| == |ps| && c < |candidates| && t < |ps| && n <= |candidates|
    ensures Added(x, w, rows, ps, candidates, TermPairs(ps[t].docs, candidates, t, n), c)
            == if c < n && candidates[c] in ps[t].docs then Part(x, w, rows[t], ps[t], candidates[c]) else 0.0
    decreases n
  {
    hide Part;
    if n > 0 {
      TermAdds(x, w, rows, ps, candidates, t, n - 1, c);
      var front := TermPairs(ps[t].docs, candidates, t, n - 1);
      if candidates[n - 1] in ps[t].docs {
        assert (front + [Pair(t, n - 1)])[..|front|] == front;
      } else {
        assert front + [] == front;
      }
    }
  }

  /** Adding up pair by pair gives each candidate its score. */
  lemma {:induction false} PairsScore(x: Index, w: Weights, rows: seq<Row>, ps: seq<Posting>, candidates: seq<nat>,
                                      n: nat, c: nat)
    requires n <= |rows| == |ps| && c < |candidates|
    ensures Added(x, w, rows, ps, candidates, Pairs(ps, candidates, n), c) == Score(x, w, rows, ps, candidates[c], n)
    decreases n
  {
    hide Part, Added, TermPairs, Score;
    ScoreNext(x, w, rows, ps, candidates[c], n);
    if n > 0 {
      PairsScore(x, w, rows, ps, candidates, n - 1, c);
      TermAdds(x, w, rows, ps, candidates, n - 1, |candidates|, c);
      AddedAppend(x, w, rows, ps, candidates, Pairs(ps, candidates, n - 1),
                  TermPairs(ps[n - 1].docs, candidates, n - 1, |candidates|), c);
    } else {
      NothingAdded(x, w, rows, ps, candidates, c);
    }
  }

  lemma NothingAdded(x: Index, w: Weights, rows: seq<Row>, ps: seq<Posting>, candidates: seq<nat>, c: nat)
    requires |rows| == |ps| && c < |candidates|
    ensures Added(x, w, rows, ps, candidates, [], c) == 0.0
  {
  }

  lemma ScoreNext(x: Index, w: Weights, rows: seq<Row>, ps: seq<Posting>, doc: nat, n: nat)
    requires n <= |rows| == |ps|
    ensures n == 0 ==> Score(x, w, rows, ps, doc, n) == 0.0
    ensures n > 0 ==> Score(x, w, rows, ps, doc, n)
                      == Score(x, w, rows, ps, doc, n - 1) + if doc in ps[n - 1].docs
                        then Part(x, w, rows[n - 1], ps[n - 1], doc) else 0.0
  {
  }

  lemma {:induction false} TermPairsHas(docs: set<nat>, candidates: seq<nat>, t: nat, n: nat, p: Pair)
    requires n <= |candidates|
    ensures p in TermPairs(docs, candidates, t, n) <==> p.term == t && p.cand < n && candidates[p.cand] in docs
    decreases n
  {
    if n > 0 {
      TermPairsHas(docs, candidates, t, n - 1, p);
    }
  }

  ghost predicate IsPair(ps: seq<Posting>, candidates: seq<nat>, n: nat, p: Pair)
    requires n <= |ps|
  {
    p.term < n && p.cand < |candidates| && candidates[p.cand] in ps[p.term].docs
  }

  lemma {:induction false} PairsHas(ps: seq<Posting>, candidates: seq<nat>, n: nat, p: Pair)
    requires n <= |ps|
    ensures p in Pairs(ps, candidates, n) <==> IsPair(ps, candidates, n, p)
    decreases n
  {
    hide TermPairs;
    if n > 0 {
      PairsHas(ps, candidates, n - 1, p);
      TermPairsHas(ps[n - 1].docs, candidates, n - 1, |candidates|, p);
    }
  }

  // ----- the rerank itself -----

  /** An open index whose table ends below 2^64. */
  ghost predicate Bounded(x: Index) {
    && x.stride > 0 && |x.sparse| == RangeIndex.SparseCount(x.n, x.stride)
    && |x.file| < TWO_64 && x.entriesOff + ROW * x.n < TWO_64
  }

  lemma StripeInTable(x: Index, h: nat)
    requires Bounded(x)
    ensures var (at, count, first) := EntryStripe(x, h);
              0 <= count && first + count <= x.n && at == x.entriesOff + ROW * first
  {
    hide RangeIndex.SparseCount;
    RangeIndex.SparseCountMeans(x.n, x.stride, 0);
    var i := RangeReader.Search(0, |x.sparse|, RangeReader.KeyAbove(x.sparse, h));
    RangeIndex.SparseCountMeans(x.n, x.stride, if i == 0 then 0 else i - 1);
  }

  function StripeOf(x: Index, h: nat): Coalesce.Range {
    var (at, count, _) := EntryStripe(x, h);
    Coalesce.Range(at, if count < 0 then 0 else ROW * count)
  }

  /** What the wave of stripe reads gives for one term. */
  function RowIn(block: bytes, h: nat): Option<Row> {
    match FindRow(block, 0, |block| / ROW, h)
    case None => None
    case Some(i) => Some(Row(Field(block, ROW * i + 8, 8), Field(block, ROW * i + 16, 4)))
  }

  lemma StripeGives(x: Index, h: nat, block: bytes)
    requires Bounded(x) && (StripeOf(x, h).len == 0 || StripeOf(x, h).End() <= |x.file|)
    requires block == if StripeOf(x, h).len == 0 then [] else x.file[StripeOf(x, h).off..StripeOf(x, h).End()]
    ensures match RowIn(block, h) case None => EntryOf(x, h).Err? case Some(row) => EntryOf(x, h) == Ok(row)
  {
    hide Bounded, EntryStripe;
    StripeInTable(x, h);
    var (at, count, _) := EntryStripe(x, h);
    assert |block| == ROW * count;
    assert count == 0 ==> block == [];
  }

  lemma StripeFails(x: Index, h: nat)
    requires Bounded(x) && StripeOf(x, h).len > 0 && StripeOf(x, h).End() > |x.file|
    ensures EntryOf(x, h).Err?
  {
  }

  ghost predicate AreStripes(x: Index, ps: seq<Posting>, stripes: seq<Coalesce.Range>) {
    |stripes| == |ps| && forall i :: 0 <= i < |ps| ==> stripes[i] == StripeOf(x, ps[i].headOff)
  }

  lemma WaveFails(x: Index, ps: seq<Posting>, stripes: seq<Coalesce.Range>)
    requires Bounded(x) && AreStripes(x, ps, stripes) && !Fetch.AllFit(stripes, x.file)
    ensures EntriesFor(x, ps).None?
  {
    hide Bounded, EntryStripe, EntryOf;
    var i :| 0 <= i < |stripes| && stripes[i].len != 0 && stripes[i].End() > |x.file|;
    StripeFails(x, ps[i].headOff);
  }

  lemma BlockGives(x: Index, ps: seq<Posting>, stripes: seq<Coalesce.Range>, blocks: seq<bytes>, i: nat)
    requires Bounded(x) && AreStripes(x, ps, stripes) && Fetch.AllFit(stripes, x.file)
             && Fetch.Sliced(blocks, stripes, x.file) && i < |ps|
    ensures |blocks| == |ps|
    ensures match RowIn(blocks[i], ps[i].headOff) case None => EntryOf(x, ps[i].headOff).Err?
            case Some(row) => EntryOf(x, ps[i].headOff) == Ok(row)
  {
    hide Bounded, EntryStripe, EntryOf, RowIn;
    StripeGives(x, ps[i].headOff, blocks[i]);
  }

  /** Finds each term's row in its stripe. */
  method FindRows(x: Index, ps: seq<Posting>, ghost stripes: seq<Coalesce.Range>, blocks: seq<bytes>)
    returns (r: Result<seq<Row>>)
    requires Bounded(x) && AreStripes(x, ps, stripes) && Fetch.AllFit(stripes, x.file)
             && Fetch.Sliced(blocks, stripes, x.file)
    ensures match EntriesFor(x, ps) case None => r.Err? case Some(rows) => r == Ok(rows)
  {
    hide Bounded, EntryOf, RowIn, AreStripes, Fetch.AllFit, Fetch.Sliced;
    var rows := [];
    for i := 0 to |ps|
      invariant |rows| == i && forall j :: 0 <= j < i ==> EntryOf(x, ps[j].headOff) == Ok(rows[j])
    {
      BlockGives(x, ps, stripes, blocks, i);
      var row := RowIn(blocks[i], ps[i].headOff);
      if row.None? {
        return Err(Malformed);
      }
      rows := rows + [row.value];
    }
    assert EntriesFor(x, ps).Some? && EntriesFor(x, ps).value == rows;
    r := Ok(rows);
  }

  /** The entries of all the postings, in one wave of stripe reads. */
  method Entries(x: Index, ps: seq<Posting>) returns (r: Result<seq<Row>>)
    requires Bounded(x)
    ensures match EntriesFor(x, ps) case None => r.Err? case Some(rows) => r == Ok(rows)
  {
    hide Bounded, EntriesFor, Fetch.Economical, Fetch.Overflows, Fetch.AllFit, Fetch.Sliced, Fetch.Fits64, EntryStripe;
    var stripes := seq(|ps|, i requires 0 <= i < |ps| => StripeOf(x, ps[i].headOff));
    StripesFit(x, ps, stripes);
    var blocks, _ := Fetch.ReadCoalesced(x.file, stripes, GAP);
    if blocks.Err? {
      WaveFails(x, ps, stripes);
      return Err(blocks.error);
    }
    r := FindRows(x, ps, stripes, blocks.value);
  }

  lemma StripesFit(x: Index, ps: seq<Posting>, stripes: seq<Coalesce.Range>)
    requires Bounded(x) && |stripes| == |ps| && forall i :: 0 <= i < |ps| ==> stripes[i] == StripeOf(x, ps[i].headOff)
    ensures Fetch.Fits64(stripes) && |x.file| < TWO_64
  {
    hide EntryStripe, RangeIndex.SparseCount;
    forall i | 0 <= i < |ps| ensures stripes[i].off < TWO_64 && stripes[i].len < TWO_64 {
      StripeInTable(x, ps[i].headOff);
    }
  }

  /** One single-byte range for each pair gathered so far, and whose it is. */
  ghost predicate Gathered(x: Index, rows: seq<Row>, ps: seq<Posting>, candidates: seq<nat>,
                           ranges: seq<Coalesce.Range>, owner: seq<Pair>)
    requires |rows| == |ps|
  {
    && |ranges| == |owner|
    && forall j :: 0 <= j < |owner| ==>
         owner[j].term < |ps| && owner[j].cand < |candidates| && candidates[owner[j].cand] in ps[owner[j].term].docs
         && ranges[j] == Coalesce.Range(Address(x, rows[owner[j].term], ps[owner[j].term].docs,
                                                candidates[owner[j].cand]), 1)
         && ranges[j].off < TWO_64
  }

  /** The flat list of impact bytes to read: term by term, candidate by candidate. */
  method GatherRanges(x: Index, rows: seq<Row>, ps: seq<Posting>, candidates: seq<nat>)
    returns (r: Option<(seq<Coalesce.Range>, seq<Pair>)>)
    requires |rows| == |ps| && |x.file| < TWO_64
    ensures r.None? ==> !Addressed(x, rows, ps, candidates)
    ensures r.Some? ==>
              r.value.1 == Pairs(ps, candidates, |ps|) && Gathered(x, rows, ps, candidates, r.value.0, r.value.1)
  {
    hide Address, Addressed;
    var ranges: seq<Coalesce.Range>, owner: seq<Pair> := [], [];
    for t := 0 to |ps|
      invariant owner == Pairs(ps, candidates, t) && Gathered(x, rows, ps, candidates, ranges, owner)
    {
      ghost var before := owner;
      for c := 0 to |candidates|
        invariant owner == before + TermPairs(ps[t].docs, candidates, t, c)
                  && Gathered(x, rows, ps, candidates, ranges, owner)
      {
        if candidates[c] in ps[t].docs {
          var pos := Address(x, rows[t], ps[t].docs, candidates[c]);
          if pos >= TWO_64 {
            NotAddressed(x, rows, ps, candidates, t, c);
            return None;
          }
          ranges := ranges + [Coalesce.Range(pos, 1)];
          owner := owner + [Pair(t, c)];
        }
      }
    }
    r := Some((ranges, owner));
  }

  lemma NotAddressed(x: Index, rows: seq<Row>, ps: seq<Posting>, candidates: seq<nat>, t: nat, c: nat)
    requires |rows| == |ps| && t < |ps| && c < |candidates| && candidates[c] in ps[t].docs
    requires Address(x, rows[t], ps[t].docs, candidates[c]) >= |x.file|
    ensures !Addressed(x, rows, ps, candidates)
  {
    hide Address;
  }

  /** All single bytes fit the file exactly when every byte the rerank needs is in it. */
  lemma FitsMeansAddressed(x: Index, rows: seq<Row>, ps: seq<Posting>, candidates: seq<nat>,
                           ranges: seq<Coalesce.Range>)
    requires |rows| == |ps| && Gathered(x, rows, ps, candidates, ranges, Pairs(ps, candidates, |ps|))
    ensures Fetch.AllFit(ranges, x.file) <==> Addressed(x, rows, ps, candidates)
    ensures Fetch.Fits64(ranges)
  {
    hide Address, Pairs;
    var owner := Pairs(ps, candidates, |ps|);
    if Fetch.AllFit(ranges, x.file) {
      forall t: nat, c: nat | t < |ps| && c < |candidates| && candidates[c] in ps[t].docs
        ensures Address(x, rows[t], ps[t].docs, candidates[c]) < |x.file|
      {
        PairsHas(ps, candidates, |ps|, Pair(t, c));
        var j :| 0 <= j < |owner| && owner[j] == Pair(t, c);
        assert ranges[j].End() <= |x.file|;
      }
    }
    if Addressed(x, rows, ps, candidates) {
      forall j | 0 <= j < |ranges| ensures ranges[j].End() <= |x.file| {
        assert owner[j] in owner;
      }
    }
  }

  /** Adds each byte to its candidate's score, pair by pair. */
  method AddUp(x: Index, w: Weights, rows: seq<Row>, ps: seq<Posting>, candidates: seq<nat>,
               ranges: seq<Coalesce.Range>, owner: seq<Pair>, data: seq<bytes>)
    returns (scores: seq<real>)
    requires |rows| == |ps| && Gathered(x, rows, ps, candidates, ranges, owner)
    requires Fetch.AllFit(ranges, x.file) && Fetch.Sliced(data, ranges, x.file)
    ensures |scores| == |candidates| && forall c :: 0 <= c < |candidates| ==>
              scores[c] == Added(x, w, rows, ps, candidates, owner, c)
  {
    hide Address;
    scores := seq(|candidates|, c => 0.0);
    for j := 0 to |owner|
      invariant |scores| == |candidates|
      invariant forall c :: 0 <= c < |candidates| ==> scores[c] == Added(x, w, rows, ps, candidates, owner[..j], c)
    {
      var t, c := owner[j].term, owner[j].cand;
      var b := data[j][0];
      assert owner[..j + 1][..j] == owner[..j];
      scores := scores[c := scores[c] + w.idf(rows[t].card, x.docs) * (b as real) * w.scale(x.scale) / 255.0];
    }
    assert owner[..|owner|] == owner;
  }

  /** Scores the candidates over the terms' postings and returns the `k` best. */
  method Rerank(x: Index, w: Weights, ps: seq<Posting>, candidates: seq<nat>, k: nat) returns (r: Result<seq<Scored>>)
    requires Bounded(x)
    ensures match Reranked(x, w, ps, candidates, k) case None => r.Err? case Some(q) => r == Ok(q)
    ensures r.Ok? && ps != [] && candidates != [] && k > 0 ==>
              EntriesFor(x, ps).Some? && Top(r.value, ScoredAll(x, w, EntriesFor(x, ps).value, ps, candidates), k)
  {
    hide Top, Bounded, Gathered, Addressed, EntriesFor, Fetch.Economical, Fetch.Overflows, Fetch.Sliced, Fetch.AllFit,
         Pairs, Score, Added, SortScored;
    if candidates == [] || ps == [] || k == 0 {
      return Ok([]);
    }
    var rows := Entries(x, ps);
    if rows.Err? {
      return Err(rows.error);
    }
    EntriesLength(x, ps);
    FileBounded(x);
    var gathered := GatherRanges(x, rows.value, ps, candidates);
    if gathered.None? {
      return Err(Malformed);
    }
    var (ranges, owner) := gathered.value;
    FitsMeansAddressed(x, rows.value, ps, candidates, ranges);
    var data, _ := Fetch.ReadCoalesced(x.file, ranges, GAP);
    if data.Err? {
      return Err(data.error);
    }
    var scores := AddUp(x, w, rows.value, ps, candidates, ranges, owner, data.value);
    forall c | 0 <= c < |candidates| ensures scores[c] == Score(x, w, rows.value, ps, candidates[c], |ps|) {
      PairsScore(x, w, rows.value, ps, candidates, |ps|, c);
    }
    var scored := seq(|candidates|, i requires 0 <= i < |candidates| => Scored(candidates[i], scores[i]));
    assert scored == ScoredAll(x, w, rows.value, ps, candidates);
    TakeIsTop(scored, k);
    r := Ok(Take(SortScored(scored), k));
  }

  lemma EntriesLength(x: Index, ps: seq<Posting>)
    ensures EntriesFor(x, ps).Some? ==> |EntriesFor(x, ps).value| == |ps|
  {
  }

  lemma FileBounded(x: Index)
    requires Bounded(x)
    ensures |x.file| < TWO_64
  {
  }
}
