/** The two-pass ranked build (examples/openalex/stream.go): pass 1 ranks the works, pass 2 emits
    a record for each, and the record store is written in rank order. */
module RankedBuild {
  import opened Wrappers
  import opened Bytes
  import Records
  import RangeReader

  datatype Work = Work(id: nat, cited: int)

  datatype Full = Full(id: nat, rec: bytes)

  /** What each pass reads from an input line: the passes parse different parts of it, so one may
      accept a line the other rejects. */
  datatype Line = Line(rank: Option<Work>, full: Option<Full>)

  // ----- the library sort -----

  ghost predicate TotalOrder<T(!new)>(le: (T, T) -> bool) {
    && (forall a, b :: le(a, b) || le(b, a))
    && (forall a, b, c :: le(a, b) && le(b, c) ==> le(a, c))
  }

  ghost predicate SortedBy<T>(q: seq<T>, le: (T, T) -> bool) {
    forall i, j :: 0 <= i < j < |q| ==> le(q[i], q[j])
  }

  function InsertBy<T>(q: seq<T>, x: T, le: (T, T) -> bool): seq<T> {
    if q == [] || le(x, q[0]) then [x] + q else [q[0]] + InsertBy(q[1..], x, le)
  }

  function SortBy<T>(q: seq<T>, le: (T, T) -> bool): seq<T> {
    if q == [] then [] else InsertBy(SortBy(q[1..], le), q[0], le)
  }

  lemma {:induction false} InsertedHas<T>(q: seq<T>, x: T, le: (T, T) -> bool)
    ensures multiset(InsertBy(q, x, le)) == multiset(q) + multiset{x}
    decreases |q|
  {
    if q == [] || le(x, q[0]) {
      assert multiset([x] + q) == multiset([x]) + multiset(q);
    } else {
      InsertedHas(q[1..], x, le);
      assert q == [q[0]] + q[1..];
    }
  }

  lemma ConsSorted<T(!new)>(x: T, q: seq<T>, le: (T, T) -> bool)
    requires TotalOrder(le) && SortedBy(q, le) && (q != [] ==> le(x, q[0]))
    ensures SortedBy([x] + q, le)
  {
    forall i | 0 <= i < |q| ensures le(x, q[i]) {
      if i > 0 {
        assert le(q[0], q[i]);
      }
    }
  }

  lemma {:induction false} InsertedSorted<T(!new)>(q: seq<T>, x: T, le: (T, T) -> bool)
    requires TotalOrder(le) && SortedBy(q, le)
    ensures SortedBy(InsertBy(q, x, le), le)
    ensures InsertBy(q, x, le) != [] && (InsertBy(q, x, le)[0] == x || (q != [] && InsertBy(q, x, le)[0] == q[0]))
    decreases |q|
  {
    if q == [] || le(x, q[0]) {
      ConsSorted(x, q, le);
    } else {
      assert SortedBy(q[1..], le);
      assert forall i :: 1 <= i < |q| ==> le(q[0], q[i]);
      InsertedSorted(q[1..], x, le);
      ConsSorted(q[0], InsertBy(q[1..], x, le), le);
    }
  }

  lemma {:induction false} SortSorts<T(!new)>(q: seq<T>, le: (T, T) -> bool)
    requires TotalOrder(le)
    ensures SortedBy(SortBy(q, le), le) && multiset(SortBy(q, le)) == multiset(q)
    decreases |q|
  {
    if q != [] {
      SortSorts(q[1..], le);
      InsertedSorted(SortBy(q[1..], le), q[0], le);
      InsertedHas(SortBy(q[1..], le), q[0], le);
      hide TotalOrder, SortedBy, InsertBy;
      assert q == [q[0]] + q[1..];
    }
  }

  lemma SameMembers<T>(a: seq<T>, b: seq<T>)
    requires multiset(a) == multiset(b)
    ensures |a| == |b| && forall x :: x in a <==> x in b
  {
    assert |a| == |multiset(a)| && |b| == |multiset(b)|;
    forall x ensures x in a <==> x in b {
      assert x in a <==> x in multiset(a);
      assert x in b <==> x in multiset(b);
    }
  }

  // ----- pass 1 -----

  /** The works pass 1 accepts, in input order. */
  function AllWorks(lines: seq<Line>): seq<Work> {
    if lines == [] then []
    else AllWorks(lines[..|lines| - 1]) + match lines[|lines| - 1].rank case None => [] case Some(w) => [w]
  }

  /** Pass 1 stops once `limit` works are in, when there is a limit. */
  function Ranked(lines: seq<Line>, limit: int): seq<Work> {
    var all := AllWorks(lines);
    if limit > 0 && |all| > limit then all[..limit] else all
  }

  lemma AllWorksPrefix(lines: seq<Line>, i: nat)
    requires i <= |lines|
    ensures AllWorks(lines[..i]) <= AllWorks(lines)
    decreases |lines|
  {
    if i < |lines| {
      AllWorksPrefix(lines[..|lines| - 1], i);
      assert lines[..|lines| - 1][..i] == lines[..i];
    } else {
      assert lines[..i] == lines;
    }
  }

  method ScanWorks(lines: seq<Line>, limit: int) returns (entries: seq<Work>)
    ensures entries == Ranked(lines, limit)
  {
    entries := [];
    for i := 0 to |lines|
      invariant entries == AllWorks(lines[..i]) && (limit > 0 ==> |entries| < limit)
    {
      assert lines[..i + 1][..i] == lines[..i];
      AllWorksPrefix(lines, i + 1);
      match lines[i].rank {
        case None =>
        case Some(w) =>
          entries := entries + [w];
          if limit > 0 && |entries| >= limit {
            return;
          }
      }
    }
    assert lines[..|lines|] == lines;
  }

  /** By ID, the most cited first. */
  function ById(a: Work, b: Work): bool {
    a.id < b.id || (a.id == b.id && a.cited >= b.cited)
  }

  /** By citations descending, ties by ascending ID. */
  function ByRank(a: Work, b: Work): bool {
    a.cited > b.cited || (a.cited == b.cited && a.id <= b.id)
  }

  /** The work's highest citation count among the entries. */
  ghost predicate IsBest(entries: seq<Work>, w: Work) {
    w in entries && forall x :: x in entries && x.id == w.id ==> x.cited <= w.cited
  }

  /** One entry for each ID, each the best of its ID. */
  ghost predicate Deduped(entries: seq<Work>, d: seq<Work>) {
    && (forall i, j :: 0 <= i < j < |d| ==> d[i].id != d[j].id)
    && (forall w :: w in d <==> IsBest(entries, w))
  }

  /** The first entry of each ID in a list sorted by ID. */
  function FirstOfEach(q: seq<Work>): seq<Work> {
    if q == [] then []
    else
      var front, last := FirstOfEach(q[..|q| - 1]), q[|q| - 1];
      if front != [] && front[|front| - 1].id == last.id then front else front + [last]
  }

  /** Keeps the first entry of each ID, writing over the same buffer; returns how many are kept. */
  method DedupInPlace(a: array<Work>) returns (n: nat)
    modifies a
    ensures n <= a.Length && a[..n] == FirstOfEach(old(a[..]))
  {
    n := 0;
    for i := 0 to a.Length
      invariant n <= i && a[..n] == FirstOfEach(old(a[..])[..i])
      invariant forall k :: i <= k < a.Length ==> a[k] == old(a[k])
    {
      ghost var q := old(a[..]);
      assert q[..i + 1][..i] == q[..i] && q[i] == a[i];
      var e := a[i];
      ghost var kept := a[..n];
      if n > 0 && a[n - 1].id == e.id {
        assert kept[n - 1] == a[n - 1];
        continue;
      }
      assert n > 0 ==> kept[n - 1] == a[n - 1];
      a[n] := e;
      n := n + 1;
      assert a[..n] == kept + [e];
    }
    assert old(a[..])[..a.Length] == old(a[..]);
  }

  lemma {:induction false} FirstOfEachIs(q: seq<Work>)
    requires SortedBy(q, ById)
    ensures Deduped(q, FirstOfEach(q))
    ensures q != [] ==> FirstOfEach(q) != [] && FirstOfEach(q)[|FirstOfEach(q)| - 1].id == q[|q| - 1].id
    ensures forall w :: w in FirstOfEach(q) ==> w in q
    decreases |q|
  {
    if q != [] {
      var front, last := q[..|q| - 1], q[|q| - 1];
      assert SortedBy(front, ById);
      FirstOfEachIs(front);
      FirstOfEachNext(front, last, q);
    }
  }

  lemma LastCompares(front: seq<Work>, last: Work)
    requires SortedBy(front + [last], ById)
    ensures forall x :: x in front ==> ById(x, last)
    ensures front != [] ==> forall x :: x in front ==> ById(x, front[|front| - 1])
  {
    var q := front + [last];
    forall x | x in front ensures ById(x, last) && ById(x, front[|front| - 1]) {
      var i :| 0 <= i < |front| && front[i] == x;
      assert ById(q[i], q[|front|]);
      assert i < |front| - 1 ==> ById(q[i], q[|front| - 1]);
    }
  }

  /** A further entry of an ID already there changes no best entry. */
  lemma SameIdBest(front: seq<Work>, last: Work, best: Work, w: Work)
    requires IsBest(front, best) && best.id == last.id && forall x :: x in front ==> ById(x, last)
    ensures IsBest(front + [last], w) <==> IsBest(front, w)
  {
    assert forall x :: x in front + [last] <==> x in front || x == last;
  }

  lemma NewIdBest(front: seq<Work>, last: Work, w: Work)
    requires forall x :: x in front ==> x.id != last.id
    ensures IsBest(front + [last], w) <==> IsBest(front, w) || w == last
  {
    assert forall x :: x in front + [last] <==> x in front || x == last;
  }

  lemma SameIdCase(front: seq<Work>, last: Work, f: seq<Work>)
    requires Deduped(front, f) && f != [] && f[|f| - 1].id == last.id
    requires (forall x :: x in front ==> ById(x, last)) && (forall w :: w in f ==> w in front)
    ensures Deduped(front + [last], f) && forall w :: w in f ==> w in front + [last]
  {
    hide IsBest;
    assert f[|f| - 1] in f;
    forall w ensures IsBest(front + [last], w) <==> IsBest(front, w) {
      SameIdBest(front, last, f[|f| - 1], w);
    }
  }

  lemma NewIdCase(front: seq<Work>, last: Work, f: seq<Work>)
    requires Deduped(front, f) && (forall x :: x in front ==> x.id != last.id) && (forall w :: w in f ==> w in front)
    ensures Deduped(front + [last], f + [last]) && forall w :: w in f + [last] ==> w in front + [last]
  {
    hide IsBest;
    AppendNew(f, last, front);
    forall w ensures IsBest(front + [last], w) <==> IsBest(front, w) || w == last {
      NewIdBest(front, last, w);
    }
  }

  lemma FirstOfEachOf(front: seq<Work>, last: Work)
    ensures var f := FirstOfEach(front);
            FirstOfEach(front + [last]) == if f != [] && f[|f| - 1].id == last.id then f else f + [last]
  {
    assert (front + [last])[..|front|] == front;
  }

  lemma FirstOfEachNext(front: seq<Work>, last: Work, q: seq<Work>)
    requires q == front + [last] && SortedBy(q, ById) && Deduped(front, FirstOfEach(front))
    requires front != [] ==>
               FirstOfEach(front) != [] && FirstOfEach(front)[|FirstOfEach(front)| - 1].id == front[|front| - 1].id
    requires forall w :: w in FirstOfEach(front) ==> w in front
    ensures Deduped(q, FirstOfEach(q))
    ensures FirstOfEach(q) != [] && FirstOfEach(q)[|FirstOfEach(q)| - 1].id == last.id
    ensures forall w :: w in FirstOfEach(q) ==> w in q
  {
    hide SortedBy, IsBest, Deduped, FirstOfEach;
    var f := FirstOfEach(front);
    FirstOfEachOf(front, last);
    LastCompares(front, last);
    if f != [] && f[|f| - 1].id == last.id {
      SameIdCase(front, last, f);
    } else {
      assert front != [] ==> front[|front| - 1] in front;
      NewIdCase(front, last, f);
    }
  }

  lemma AppendNew(f: seq<Work>, last: Work, front: seq<Work>)
    requires (forall i, j :: 0 <= i < j < |f| ==> f[i].id != f[j].id) && (forall w :: w in f ==> w in front)
    requires forall x :: x in front ==> x.id != last.id
    ensures forall i, j :: 0 <= i < j < |f + [last]| ==> (f + [last])[i].id != (f + [last])[j].id
    ensures forall w :: w in f + [last] <==> w in f || w == last
    ensures forall w :: w in f + [last] ==> w in front + [last]
  {
    forall i | 0 <= i < |f| ensures f[i].id != last.id {
      assert f[i] in f;
    }
  }

  // ----- ranking -----

  datatype IdDoc = IdDoc(id: nat, doc: nat)

  /** The works by rank: the best entry of every ID, ordered by citations descending and then by ID. */
  ghost predicate IsRanking(entries: seq<Work>, ranked: seq<Work>) {
    && (forall i, j :: 0 <= i < j < |ranked| ==>
          && ranked[i].id != ranked[j].id && ranked[i].cited >= ranked[j].cited
          && (ranked[i].cited == ranked[j].cited ==> ranked[i].id < ranked[j].id))
    && (forall w :: w in ranked <==> IsBest(entries, w))
  }

  /** The lookup from ID to document, ascending by ID: document `d` is the work of rank `d`. */
  ghost predicate IsLookup(ranked: seq<Work>, lookup: seq<IdDoc>) {
    && |lookup| == |ranked|
    && (forall i, j :: 0 <= i < j < |lookup| ==> lookup[i].id < lookup[j].id)
    && (forall e :: e in lookup <==> e.doc < |ranked| && ranked[e.doc].id == e.id)
  }

  function ByIdDoc(a: IdDoc, b: IdDoc): bool {
    a.id <= b.id
  }

  lemma {:induction false} AtMostOnce<T>(q: seq<T>, x: T)
    requires forall i, j :: 0 <= i < j < |q| ==> q[i] != q[j]
    ensures multiset(q)[x] <= 1
    decreases |q|
  {
    if q != [] {
      assert q == [q[0]] + q[1..];
      AtMostOnce(q[1..], x);
      if q[0] == x {
        assert x !in q[1..];
        assert x !in multiset(q[1..]);
      }
    }
  }

  lemma TwiceIn<T>(q: seq<T>, i: nat, j: nat)
    requires i < j < |q| && q[i] == q[j]
    ensures multiset(q)[q[i]] >= 2
  {
    assert q == q[..j] + ([q[j]] + q[j + 1..]);
    assert q[i] == q[..j][i];
    assert q[i] in multiset(q[..j]);
    assert multiset(q) == multiset(q[..j]) + (multiset([q[j]]) + multiset(q[j + 1..]));
  }

  /** Rearranging a list without repeats leaves one without repeats. */
  lemma StillDistinct<T>(a: seq<T>, b: seq<T>)
    requires multiset(a) == multiset(b) && forall i, j :: 0 <= i < j < |a| ==> a[i] != a[j]
    ensures forall i, j :: 0 <= i < j < |b| ==> b[i] != b[j]
  {
    forall i, j | 0 <= i < j < |b| ensures b[i] != b[j] {
      AtMostOnce(a, b[i]);
      if b[i] == b[j] {
        TwiceIn(b, i, j);
      }
    }
  }

  lemma DistinctIds(a: seq<Work>, b: seq<Work>)
    requires multiset(a) == multiset(b) && forall i, j :: 0 <= i < j < |a| ==> a[i].id != a[j].id
    ensures forall i, j :: 0 <= i < j < |b| ==> b[i].id != b[j].id
  {
    StillDistinct(a, b);
    SameMembers(a, b);
    forall i, j | 0 <= i < j < |b| ensures b[i].id != b[j].id {
      assert b[i] in b && b[j] in b;
      var k :| 0 <= k < |a| && a[k] == b[i];
      var l :| 0 <= l < |a| && a[l] == b[j];
      assert k != l;
    }
  }

  lemma RankOrders()
    ensures TotalOrder(ById) && TotalOrder(ByRank) && TotalOrder(ByIdDoc)
  {
  }

  lemma RankingOf(entries: seq<Work>, sorted: seq<Work>, deduped: seq<Work>, ranked: seq<Work>)
    requires SortedBy(sorted, ById) && multiset(sorted) == multiset(entries) && deduped == FirstOfEach(sorted)
    requires SortedBy(ranked, ByRank) && multiset(ranked) == multiset(deduped)
    ensures IsRanking(entries, ranked)
  {
    FirstOfEachIs(sorted);
    SameMembers(sorted, entries);
    SameMembers(ranked, deduped);
    DistinctIds(deduped, ranked);
    forall w ensures IsBest(sorted, w) <==> IsBest(entries, w) {
    }
  }

  /** The lookup in rank order, before it is sorted by ID. */
  function ByDoc(ranked: seq<Work>): (q: seq<IdDoc>)
    ensures |q| == |ranked| && forall i :: 0 <= i < |q| ==> q[i] == IdDoc(ranked[i].id, i)
  {
    seq(|ranked|, i requires 0 <= i < |ranked| => IdDoc(ranked[i].id, i))
  }

  lemma LookupOf(entries: seq<Work>, ranked: seq<Work>, lookup: seq<IdDoc>)
    requires IsRanking(entries, ranked) && SortedBy(lookup, ByIdDoc) && multiset(lookup) == multiset(ByDoc(ranked))
    ensures IsLookup(ranked, lookup)
  {
    var q := ByDoc(ranked);
    SameMembers(lookup, q);
    forall e ensures e in q <==> e.doc < |ranked| && ranked[e.doc].id == e.id {
      if e.doc < |ranked| && ranked[e.doc].id == e.id {
        assert q[e.doc] == e;
      }
    }
    StillDistinct(q, lookup);
    forall i, j | 0 <= i < j < |lookup| ensures lookup[i].id < lookup[j].id {
      assert ByIdDoc(lookup[i], lookup[j]);
      assert lookup[i] in lookup && lookup[j] in lookup;
    }
  }

  /** Pass 1: the accepted works, deduplicated, ranked, and indexed by ID. */
  method RankPass(lines: seq<Line>, limit: int) returns (lookup: seq<IdDoc>, ghost ranked: seq<Work>)
    ensures IsRanking(Ranked(lines, limit), ranked) && IsLookup(ranked, lookup)
  {
    hide IsRanking, IsLookup, SortedBy, TotalOrder, FirstOfEach, SortBy, Ranked;
    RankOrders();
    var entries := ScanWorks(lines, limit);
    SortSorts(entries, ById);
    var sorted := SortBy(entries, ById);
    var buffer := new Work[|sorted|](i requires 0 <= i < |sorted| => sorted[i]);
    assert buffer[..] == sorted;
    var n := DedupInPlace(buffer);
    var deduped := buffer[..n];
    SortSorts(deduped, ByRank);
    var order := SortBy(deduped, ByRank);
    ranked := order;
    RankingOf(entries, sorted, deduped, ranked);
    SortSorts(ByDoc(order), ByIdDoc);
    lookup := SortBy(ByDoc(order), ByIdDoc);
    LookupOf(entries, ranked, lookup);
  }
}
