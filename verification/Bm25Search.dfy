/** The two BM25 searches (rust/src/bm25.rs): strict AND and min-should-match, each trying the
    terms' heads first and fetching tails only when the heads cannot fill the window. */
module Bm25Search {
  import opened Wrappers
  import opened Bytes
  import opened Sidecar
  import opened MinMatch
  import opened Bm25
  import Ordered

  /** A resolved term: its posting offset, its head, and its tail with the stored size of it. */
  datatype TermHead = TermHead(headOff: nat, head: set<nat>, tail: set<nat>, tailSize: nat)

  /** The head lies below the boundary and the tail from it on; no tail is stored only for an empty one. */
  ghost predicate SplitAt(t: TermHead, boundary: nat) {
    && (forall d :: d in t.head ==> d < boundary) && (forall d :: d in t.tail ==> d >= boundary)
    && (t.tailSize == 0 ==> t.tail == {})
  }

  ghost predicate AllSplit(heads: seq<TermHead>, boundary: nat) {
    forall i :: 0 <= i < |heads| ==> SplitAt(heads[i], boundary)
  }

  function HeadSets(heads: seq<TermHead>): (s: seq<set<nat>>)
    ensures |s| == |heads| && forall i :: 0 <= i < |s| ==> s[i] == heads[i].head
  {
    seq(|heads|, i requires 0 <= i < |heads| => heads[i].head)
  }

  function FullSets(heads: seq<TermHead>): (s: seq<set<nat>>)
    ensures |s| == |heads| && forall i :: 0 <= i < |s| ==> s[i] == heads[i].head + heads[i].tail
  {
    seq(|heads|, i requires 0 <= i < |heads| => heads[i].head + heads[i].tail)
  }

  function PostingsOf(heads: seq<TermHead>, sets: seq<set<nat>>): (ps: seq<Posting>)
    requires |sets| == |heads|
    ensures |ps| == |heads| && forall i :: 0 <= i < |ps| ==> ps[i] == Posting(heads[i].headOff, sets[i])
  {
    seq(|heads|, i requires 0 <= i < |heads| => Posting(heads[i].headOff, sets[i]))
  }

  /** The tail of a term, fetched unless its stored size is zero; nothing when that fetch fails. */
  function FetchTail(t: TermHead, fails: bool): Option<set<nat>> {
    if t.tailSize == 0 then Some({}) else if fails then None else Some(t.tail)
  }

  /** Some tail that would be fetched is among those whose fetch fails. */
  ghost predicate TailLost(heads: seq<TermHead>, fails: set<nat>) {
    exists i :: 0 <= i < |heads| && heads[i].tailSize > 0 && i in fails
  }

  // ----- heads rank like full postings -----

  /** Below the boundary a document has the same membership and the same rank in the head as in
      the whole posting. */
  lemma HeadRanks(t: TermHead, boundary: nat, d: nat)
    requires SplitAt(t, boundary) && d < boundary
    ensures d in t.head <==> d in t.head + t.tail
    ensures Ordered.Rank(t.head, d) == Ordered.Rank(t.head + t.tail, d)
  {
    assert Ordered.UpTo(t.head + t.tail, d) == Ordered.UpTo(t.head, d);
  }

  /** The two posting lists answer alike for these documents. */
  ghost predicate Alike(a: seq<Posting>, b: seq<Posting>, docs: seq<nat>) {
    && |a| == |b| && (forall i :: 0 <= i < |a| ==> a[i].headOff == b[i].headOff)
    && forall i, c :: 0 <= i < |a| && 0 <= c < |docs| ==> DocAlike(a[i].docs, b[i].docs, docs[c])
  }

  ghost predicate DocAlike(a: set<nat>, b: set<nat>, d: nat) {
    (d in a <==> d in b) && Ordered.Rank(a, d) == Ordered.Rank(b, d)
  }

  lemma {:induction false} ScoresAlike(x: Index, w: Weights, rows: seq<Row>, a: seq<Posting>, b: seq<Posting>,
                                       docs: seq<nat>, c: nat, n: nat)
    requires Alike(a, b, docs) && c < |docs| && n <= |rows| == |a|
    ensures Score(x, w, rows, a, docs[c], n) == Score(x, w, rows, b, docs[c], n)
    decreases n
  {
    hide Alike, Score, Part;
    ScoreNext(x, w, rows, a, docs[c], n);
    AlikeLength(a, b, docs);
    ScoreNext(x, w, rows, b, docs[c], n);
    if n > 0 {
      ScoresAlike(x, w, rows, a, b, docs, c, n - 1);
      PartsAlike(x, w, rows[n - 1], a, b, docs, c, n - 1);
    }
  }

  lemma AlikeLength(a: seq<Posting>, b: seq<Posting>, docs: seq<nat>)
    requires Alike(a, b, docs)
    ensures |a| == |b|
  {
  }

  lemma PartsAlike(x: Index, w: Weights, row: Row, a: seq<Posting>, b: seq<Posting>, docs: seq<nat>, c: nat, i: nat)
    requires Alike(a, b, docs) && c < |docs| && i < |a|
    ensures |a| == |b| && (docs[c] in a[i].docs <==> docs[c] in b[i].docs)
    ensures Address(x, row, a[i].docs, docs[c]) == Address(x, row, b[i].docs, docs[c])
    ensures Part(x, w, row, a[i], docs[c]) == Part(x, w, row, b[i], docs[c])
  {
    hide Ordered.Rank;
    assert DocAlike(a[i].docs, b[i].docs, docs[c]);
  }

  lemma EntriesAlike(x: Index, a: seq<Posting>, b: seq<Posting>)
    requires |a| == |b| && forall i :: 0 <= i < |a| ==> a[i].headOff == b[i].headOff
    ensures EntriesFor(x, a) == EntriesFor(x, b)
  {
    hide EntryOf;
    if EntriesFor(x, a).Some? {
      assert EntriesFor(x, a).value == EntriesFor(x, b).value;
    }
  }

  lemma AddressedAlike(x: Index, rows: seq<Row>, a: seq<Posting>, b: seq<Posting>, docs: seq<nat>, w: Weights)
    requires Alike(a, b, docs) && |rows| == |a|
    ensures |a| == |b| && (Addressed(x, rows, a, docs) <==> Addressed(x, rows, b, docs))
  {
    hide Address, Part, Alike;
    AlikeLength(a, b, docs);
    forall t: nat, c: nat | t < |a| && c < |docs|
      ensures docs[c] in a[t].docs <==> docs[c] in b[t].docs
      ensures Address(x, rows[t], a[t].docs, docs[c]) == Address(x, rows[t], b[t].docs, docs[c])
    {
      PartsAlike(x, w, rows[t], a, b, docs, c, t);
    }
  }

  /** A rerank cannot tell alike postings apart. */
  lemma RerankAlike(x: Index, w: Weights, a: seq<Posting>, b: seq<Posting>, docs: seq<nat>, k: nat)
    requires Alike(a, b, docs)
    ensures Reranked(x, w, a, docs, k) == Reranked(x, w, b, docs, k)
  {
    hide EntriesFor, Addressed, Score, SortScored, DocAlike;
    EntriesAlike(x, a, b);
    EntriesLength(x, a);
    if EntriesFor(x, a).Some? {
      var rows := EntriesFor(x, a).value;
      AddressedAlike(x, rows, a, b, docs, w);
      forall c | 0 <= c < |docs| ensures Score(x, w, rows, a, docs[c], |a|) == Score(x, w, rows, b, docs[c], |b|) {
        ScoresAlike(x, w, rows, a, b, docs, c, |a|);
      }
      assert ScoredAll(x, w, rows, a, docs) == ScoredAll(x, w, rows, b, docs);
    }
  }

  /** For documents below the boundary, or without tails, heads and full postings are alike. */
  lemma HeadsAlike(heads: seq<TermHead>, boundary: nat, docs: seq<nat>)
    requires AllSplit(heads, boundary)
    requires (forall c :: 0 <= c < |docs| ==> docs[c] < boundary) || forall i :: 0 <= i < |heads| ==>
               heads[i].tailSize == 0
    ensures Alike(PostingsOf(heads, HeadSets(heads)), PostingsOf(heads, FullSets(heads)), docs)
  {
    hide Ordered.Rank;
    forall i, c | 0 <= i < |heads| && 0 <= c < |docs|
      ensures DocAlike(heads[i].head, heads[i].head + heads[i].tail, docs[c]) {
      assert SplitAt(heads[i], boundary);
      if docs[c] < boundary {
        HeadRanks(heads[i], boundary, docs[c]);
      } else {
        assert heads[i].head + heads[i].tail == heads[i].head;
      }
    }
  }

  // ----- what the searches are to answer -----

  function InterAll(sets: seq<set<nat>>): set<nat>
    requires sets != []
  {
    if |sets| == 1 then sets[0] else InterAll(sets[..|sets| - 1]) * sets[|sets| - 1]
  }

  lemma {:induction false} InterHas(sets: seq<set<nat>>, d: nat)
    requires sets != []
    ensures d in InterAll(sets) <==> forall i :: 0 <= i < |sets| ==> d in sets[i]
    decreases |sets|
  {
    if |sets| > 1 {
      InterHas(sets[..|sets| - 1], d);
    }
  }

  /** A strict-AND search over the full postings. */
  ghost function StrictAnswer(x: Index, w: Weights, heads: seq<TermHead>, m: nat, k: nat): Option<seq<Scored>>
    requires heads != []
  {
    Reranked(x, w, PostingsOf(heads, FullSets(heads)), Ordered.FirstN(InterAll(FullSets(heads)), m), k)
  }

  function Clamp(v: nat, lo: nat, hi: nat): nat {
    if v < lo then lo else if v > hi then hi else v
  }

  /** A min-should-match search over the full postings. */
  ghost function LenientAnswer(x: Index, w: Weights, heads: seq<TermHead>, m: nat, k: nat,
                               minMatch: nat): Option<seq<Scored>> {
    if heads == [] then Some([])
    else Reranked(x, w, PostingsOf(heads, FullSets(heads)),
                  Ordered.FirstN(AtLeast(FullSets(heads), Clamp(minMatch, 1, |heads|)), m), k)
  }

  ghost predicate Gives(r: Result<seq<Scored>>, answer: Option<seq<Scored>>) {
    match answer case None => r.Err? case Some(q) => r == Ok(q)
  }

  // ----- the window of candidates -----

  ghost function SetBelow(s: set<nat>, boundary: nat): set<nat> {
    set d | d in s && d < boundary
  }

  ghost function SetFrom(s: set<nat>, boundary: nat): set<nat> {
    set d | d in s && d >= boundary
  }

  /** When what is found in the heads fills the window, or there is no more, it is the window. */
  lemma WindowOfHeads(full: set<nat>, low: set<nat>, boundary: nat, m: nat)
    requires low == SetBelow(full, boundary) && (|low| >= m || low == full)
    ensures Ordered.FirstN(full, m) == Ordered.FirstN(low, m)
  {
    if low != full {
      Ordered.FirstNBelow(full, low, SetFrom(full, boundary), m);
    }
  }

  lemma FirstNWithin(s: set<nat>, m: nat, d: nat)
    requires d in Ordered.FirstN(s, m)
    ensures d in s
  {
    Ordered.AscendingLists(s);
  }

  lemma NoTails(heads: seq<TermHead>, boundary: nat)
    requires AllSplit(heads, boundary)
    ensures (forall i :: 0 <= i < |heads| ==> heads[i].tailSize == 0) ==> FullSets(heads) == HeadSets(heads)
  {
    if forall i :: 0 <= i < |heads| ==> heads[i].tailSize == 0 {
      forall i | 0 <= i < |heads| ensures FullSets(heads)[i] == HeadSets(heads)[i] {
        assert SplitAt(heads[i], boundary);
      }
    }
  }

  lemma InterBelow(heads: seq<TermHead>, boundary: nat)
    requires heads != [] && AllSplit(heads, boundary)
    ensures InterAll(HeadSets(heads)) == SetBelow(InterAll(FullSets(heads)), boundary)
    ensures (forall i :: 0 <= i < |heads| ==> heads[i].tailSize == 0) ==> FullSets(heads) == HeadSets(heads)
  {
    hide InterAll;
    forall i | 0 <= i < |heads| ensures SplitAt(heads[i], boundary) {
    }
    NoTails(heads, boundary);
    forall d: nat ensures d in InterAll(HeadSets(heads)) <==> d in SetBelow(InterAll(FullSets(heads)), boundary) {
      InterHas(HeadSets(heads), d);
      InterHas(FullSets(heads), d);
      assert d in HeadSets(heads)[0] ==> d < boundary;
    }
  }

  lemma AtLeastBelow(heads: seq<TermHead>, need: nat, boundary: nat)
    requires AllSplit(heads, boundary) && need > 0
    ensures AtLeast(HeadSets(heads), need) == SetBelow(AtLeast(FullSets(heads), need), boundary)
    ensures (forall i :: 0 <= i < |heads| ==> heads[i].tailSize == 0) ==> FullSets(heads) == HeadSets(heads)
  {
    hide AtLeast, Count;
    forall i | 0 <= i < |heads| ensures SplitAt(heads[i], boundary) {
    }
    NoTails(heads, boundary);
    forall d: nat ensures d in AtLeast(HeadSets(heads), need)
      <==> d in SetBelow(AtLeast(FullSets(heads), need), boundary) {
      AtLeastHas(HeadSets(heads), need, d);
      AtLeastHas(FullSets(heads), need, d);
      if d < boundary {
        CountAgrees(HeadSets(heads), FullSets(heads), d);
      } else {
        CountNoneOf(HeadSets(heads), d);
      }
    }
  }

  /** The head-first shortcut: reranking the heads' window over heads gives the full answer. */
  lemma ShortcutExact(x: Index, w: Weights, heads: seq<TermHead>, boundary: nat, full: set<nat>, low: set<nat>, m: nat,
                      k: nat)
    requires AllSplit(heads, boundary) && low == SetBelow(full, boundary)
    requires |low| >= m || (low == full && forall i :: 0 <= i < |heads| ==> heads[i].tailSize == 0)
    ensures Reranked(x, w, PostingsOf(heads, HeadSets(heads)), Ordered.FirstN(low, m), k)
            == Reranked(x, w, PostingsOf(heads, FullSets(heads)), Ordered.FirstN(full, m), k)
  {
    hide Ordered.FirstN, Reranked, AllSplit, Alike;
    WindowOfHeads(full, low, boundary, m);
    var docs := Ordered.FirstN(low, m);
    forall c | 0 <= c < |docs| ensures docs[c] < boundary {
      FirstNWithin(low, m, docs[c]);
    }
    HeadsAlike(heads, boundary, docs);
    RerankAlike(x, w, PostingsOf(heads, HeadSets(heads)), PostingsOf(heads, FullSets(heads)), docs, k);
  }

  // ----- the searches -----

  /** Intersects postings, stopping as soon as nothing is left. */
  method Intersect(start: set<nat>, sets: seq<set<nat>>) returns (acc: set<nat>)
    requires sets != [] && start in sets
    ensures acc == InterAll(sets)
  {
    hide InterAll;
    acc := start;
    ghost var s :| 0 <= s < |sets| && sets[s] == start;
    for i := 0 to |sets|
      invariant forall d :: d in acc <==> d in start && forall j :: 0 <= j < i ==> d in sets[j]
    {
      acc := acc * sets[i];
      assert forall d :: d in acc <==> d in start && forall j :: 0 <= j < i + 1 ==> d in sets[j];
      if acc == {} {
        forall d: nat ensures d !in InterAll(sets) {
          InterHas(sets, d);
          assert d in sets[s] ==> d in start;
          assert d !in start || !forall j :: 0 <= j < i + 1 ==> d in sets[j] by { assert d !in acc; }
        }
        assert acc == InterAll(sets);
        return;
      }
    }
    forall d: nat ensures d in acc <==> d in InterAll(sets) {
      InterHas(sets, d);
    }
    assert acc == InterAll(sets);
  }

  /** The smallest of the sets. */
  method Smallest(sets: seq<set<nat>>) returns (s: set<nat>)
    requires sets != []
    ensures s in sets && forall t :: t in sets ==> |s| <= |t|
  {
    s := sets[0];
    for i := 1 to |sets|
      invariant s in sets && forall j :: 0 <= j < i ==> |s| <= |sets[j]|
    {
      if |sets[i]| < |s| {
        s := sets[i];
      }
    }
  }

  /** The second wave: every term's full posting, or nothing when a tail's fetch fails. */
  method Upgrade(heads: seq<TermHead>, fails: set<nat>, ghost boundary: nat) returns (r: Option<seq<set<nat>>>)
    requires AllSplit(heads, boundary)
    ensures r == if TailLost(heads, fails) then None else Some(FullSets(heads))
  {
    var sets := [];
    for i := 0 to |heads|
      invariant |sets| == i && forall j :: 0 <= j < i ==> sets[j] == heads[j].head + heads[j].tail
      invariant forall j :: 0 <= j < i ==> heads[j].tailSize == 0 || j !in fails
    {
      assert SplitAt(heads[i], boundary);
      var tail := FetchTail(heads[i], i in fails);
      if tail.None? {
        return None;
      }
      sets := sets + [heads[i].head + tail.value];
    }
    assert sets == FullSets(heads);
    r := Some(sets);
  }

  method HasTail(heads: seq<TermHead>) returns (b: bool)
    ensures !b <==> forall i :: 0 <= i < |heads| ==> heads[i].tailSize == 0
  {
    b := exists i :: 0 <= i < |heads| && heads[i].tailSize > 0;
  }

  /** The strict-AND search. `heads` is nothing when the query has no terms or one of them is not
      in the dictionary; `fails` tells whose tail cannot be fetched. Head-first is exact: for every
      window and limit the answer is the one computed from full postings, and a lost tail matters
      only when the heads cannot fill the window. */
  method SearchBm25(x: Index, w: Weights, heads: Option<seq<TermHead>>, fails: set<nat>, m: nat, k: nat,
                    ghost boundary: nat)
    returns (r: Result<seq<Scored>>)
    requires Bounded(x) && (heads.Some? ==> heads.value != [] && AllSplit(heads.value, boundary))
    ensures heads.None? ==> r == Ok([])
    ensures heads.Some? ==>
              if |InterAll(HeadSets(heads.value))| < m && TailLost(heads.value, fails) then r.Err?
              else Gives(r, StrictAnswer(x, w, heads.value, m, k))
  {
    hide Bounded, AllSplit, Ordered.FirstN, Reranked, InterAll;
    if heads.None? {
      return Ok([]);
    }
    var hs := heads.value;
    var smallest := Smallest(HeadSets(hs));
    var acc := Intersect(smallest, HeadSets(hs));
    InterBelow(hs, boundary);
    var hasTail := HasTail(hs);
    if |acc| >= m || !hasTail {
      var candidates := Ordered.FirstN(acc, m);
      ShortcutExact(x, w, hs, boundary, InterAll(FullSets(hs)), acc, m, k);
      if candidates == [] {
        NothingRanked(x, w, PostingsOf(hs, HeadSets(hs)), k);
        return Ok([]);
      }
      r := Rerank(x, w, PostingsOf(hs, HeadSets(hs)), candidates, k);
      return;
    }
    var upgraded := Upgrade(hs, fails, boundary);
    if upgraded.None? {
      return Err(Truncated);
    }
    var sets := upgraded.value;
    smallest := Smallest(sets);
    acc := Intersect(smallest, sets);
    if acc == {} {
      FirstOfNone(m);
      NothingRanked(x, w, PostingsOf(hs, sets), k);
      return Ok([]);
    }
    r := Rerank(x, w, PostingsOf(hs, sets), Ordered.FirstN(acc, m), k);
  }

  lemma NothingRanked(x: Index, w: Weights, ps: seq<Posting>, k: nat)
    ensures Reranked(x, w, ps, [], k) == Some([])
  {
  }

  lemma FirstOfNone(m: nat)
    ensures Ordered.FirstN({}, m) == []
  {
  }

  /** The min-should-match search, over the terms that are in the dictionary. */
  method SearchMinMatch(x: Index, w: Weights, heads: seq<TermHead>, fails: set<nat>, m: nat, k: nat, minMatch: nat,
                        ghost boundary: nat)
    returns (r: Result<seq<Scored>>)
    requires Bounded(x) && AllSplit(heads, boundary)
    ensures if |AtLeast(HeadSets(heads), Clamp(minMatch, 1, |heads|))| < m && TailLost(heads, fails) then r.Err?
            else Gives(r, LenientAnswer(x, w, heads, m, k, minMatch))
  {
    hide Bounded, AllSplit, Ordered.FirstN, Reranked, AtLeast;
    if heads == [] {
      return Ok([]);
    }
    var need := Clamp(minMatch, 1, |heads|);
    var acc := MinMatchCandidates(HeadSets(heads), need, m);
    AtLeastBelow(heads, need, boundary);
    FirstNLength(AtLeast(HeadSets(heads), need), m);
    var hasTail := HasTail(heads);
    if |acc| >= m || !hasTail {
      ShortcutExact(x, w, heads, boundary, AtLeast(FullSets(heads), need), AtLeast(HeadSets(heads), need), m, k);
      if acc == [] {
        NothingRanked(x, w, PostingsOf(heads, HeadSets(heads)), k);
        return Ok([]);
      }
      r := Rerank(x, w, PostingsOf(heads, HeadSets(heads)), acc, k);
      return;
    }
    var upgraded := Upgrade(heads, fails, boundary);
    if upgraded.None? {
      return Err(Truncated);
    }
    var sets := upgraded.value;
    var candidates := MinMatchCandidates(sets, need, m);
    FirstNLength(AtLeast(sets, need), m);
    if candidates == [] {
      NothingRanked(x, w, PostingsOf(heads, sets), k);
      return Ok([]);
    }
    r := Rerank(x, w, PostingsOf(heads, sets), candidates, k);
  }

  lemma FirstNLength(s: set<nat>, m: nat)
    ensures m == 0 ==> Ordered.FirstN(s, m) == []
    ensures |Ordered.FirstN(s, m)| >= m <==> |s| >= m
  {
  }

  // ----- the two searches compared -----

  /** Asking for all the terms is the strict AND. */
  lemma AllTermsIsStrict(x: Index, w: Weights, heads: seq<TermHead>, m: nat, k: nat, minMatch: nat)
    requires heads != [] && minMatch >= |heads|
    ensures LenientAnswer(x, w, heads, m, k, minMatch) == StrictAnswer(x, w, heads, m, k)
  {
    var sets := FullSets(heads);
    hide AtLeast, Count, InterAll, Reranked;
    forall d: nat ensures d in AtLeast(sets, |heads|) <==> d in InterAll(sets) {
      AtLeastHas(sets, |heads|, d);
      CountAll(sets, d);
      InterHas(sets, d);
    }
    assert AtLeast(sets, |heads|) == InterAll(sets);
  }

  /** A query's terms as the dictionary resolves them. */
  function Present(query: seq<Option<TermHead>>): (heads: seq<TermHead>)
    ensures |heads| <= |query| && forall t :: t in heads <==> Some(t) in query
  {
    if query == [] then []
    else
      var last := query[|query| - 1];
      Present(query[..|query| - 1]) + match last case None => [] case Some(t) => [t]
  }

  ghost predicate AllPresent(query: seq<Option<TermHead>>) {
    query != [] && forall i :: 0 <= i < |query| ==> query[i].Some?
  }

  /** What the strict search answers: nothing at all when a term is missing. */
  ghost function StrictQuery(x: Index, w: Weights, query: seq<Option<TermHead>>, m: nat, k: nat): Option<seq<Scored>> {
    if AllPresent(query) && Present(query) != [] then StrictAnswer(x, w, Present(query), m, k) else Some([])
  }

  lemma {:induction false} PresentAll(query: seq<Option<TermHead>>)
    requires forall i :: 0 <= i < |query| ==> query[i].Some?
    ensures |Present(query)| == |query|
  {
    if query != [] {
      PresentAll(query[..|query| - 1]);
    }
  }

  lemma SortedLength(q: seq<Scored>)
    ensures |SortScored(q)| == |q|
  {
    SortedInOrder(q);
    assert |multiset(SortScored(q))| == |multiset(q)|;
  }

  /** A rerank answers with nothing exactly when it has no candidates, no terms, or no room. */
  lemma NothingReranked(x: Index, w: Weights, ps: seq<Posting>, candidates: seq<nat>, k: nat)
    ensures Reranked(x, w, ps, candidates, k) == Some([]) <==> candidates == [] || ps == [] || k == 0
  {
    hide EntriesFor, Addressed, Score, SortScored;
    EntriesLength(x, ps);
    if EntriesFor(x, ps).Some? {
      SortedLength(ScoredAll(x, w, EntriesFor(x, ps).value, ps, candidates));
    }
  }

  /** What the terms that resolve have in common leaves nothing to rank. */
  ghost predicate NothingInCommon(heads: seq<TermHead>) {
    heads == [] || InterAll(FullSets(heads)) == {}
  }

  /** Asking for as many terms as the query has reproduces the strict search exactly when every
      term is in the dictionary, or the terms that are have no document in common, or nothing was
      asked for. In all other cases the strict search answers with nothing, while this one ranks
      a document or fails on the sidecar. */
  lemma StrictOnlyWhenResolved(x: Index, w: Weights, query: seq<Option<TermHead>>, m: nat, k: nat)
    ensures LenientAnswer(x, w, Present(query), m, k, |query|) == StrictQuery(x, w, query, m, k)
            <==> AllPresent(query) || NothingInCommon(Present(query)) || m == 0 || k == 0
  {
    hide Reranked, InterAll, Ordered.FirstN;
    var heads := Present(query);
    if AllPresent(query) {
      PresentAll(query);
      AllTermsIsStrict(x, w, heads, m, k, |query|);
    } else if heads != [] {
      AllTermsIsStrict(x, w, heads, m, k, |query|);
      FirstNLength(InterAll(FullSets(heads)), m);
      FirstNEmpty(InterAll(FullSets(heads)), m);
      NothingReranked(x, w, PostingsOf(heads, FullSets(heads)), Ordered.FirstN(InterAll(FullSets(heads)), m), k);
    }
  }

  lemma FirstNEmpty(s: set<nat>, m: nat)
    ensures Ordered.FirstN(s, m) == [] <==> s == {} || m == 0
  {
    assert |s| == 0 <==> s == {};
  }
}
