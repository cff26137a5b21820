/** The second phase of the out-of-core impact build (build_impacts.rs): the heap merge of the
    runs in lockstep with the dictionary, and its agreement with the in-memory writer. */
module ImpactMerge {
  import opened Wrappers
  import opened Bytes
  import opened RangeIndex
  import opened Impacts
  import opened ImpactRuns
  import opened Sidecar
  import Inverted
  import TermOrder

  // ----- what the merge collects for a term -----

  ghost predicate RunSorted(run: Run) {
    forall i, j :: 0 <= i < j < |run| ==> TermOrder.Less(run[i].term, run[j].term)
  }

  ghost predicate HasTerm(run: Run, t: bytes) {
    exists i :: 0 <= i < |run| && run[i].term == t
  }

  /** The term's pairs in one run. */
  function PairsOf(run: Run, t: bytes): seq<DocTf> {
    if run == [] then [] else if run[0].term == t then run[0].pairs else PairsOf(run[1..], t)
  }

  /** The term's pairs in the first `n` runs, one run after the other. */
  function Joined(runs: seq<Run>, t: bytes, n: nat): seq<DocTf>
    requires n <= |runs|
  {
    if n == 0 then [] else Joined(runs, t, n - 1) + PairsOf(runs[n - 1], t)
  }

  ghost predicate InSome(runs: seq<Run>, t: bytes) {
    exists i :: 0 <= i < |runs| && HasTerm(runs[i], t)
  }

  // ----- run readers -----

  type Heap = set<(bytes, nat)>

  /** A positioned reader over one run: the current group's term, and its pairs until streamed. */
  class RunReader {
    const run: Run
    var at: nat
    var term: bytes
    var remaining: seq<DocTf>

    ghost predicate Valid()
      reads this
    {
      at <= |run| && (at < |run| ==> term == run[at].term && remaining == run[at].pairs)
    }

    constructor (run: Run)
      ensures Valid() && this.run == run && at == 0
    {
      this.run, at := run, 0;
      term, remaining := if run == [] then [] else run[0].term, if run == [] then [] else run[0].pairs;
    }

    /** Hands over the current group's pairs. */
    method StreamPairs() returns (pairs: seq<DocTf>)
      modifies this`remaining
      ensures pairs == old(remaining) && remaining == []
    {
      pairs := remaining;
      remaining := [];
    }

    /** Streams the current group, moves on, and puts the next term on the heap for run `i`. */
    method Take(i: nat, heap: Heap) returns (pairs: seq<DocTf>, next: Heap)
      requires Valid() && at < |run|
      modifies this
      ensures Valid() && at == old(at) + 1 && pairs == run[old(at)].pairs
      ensures next == if at < |run| then heap + {(run[at].term, i)} else heap
    {
      pairs := StreamPairs();
      var more := Advance();
      next := if more then heap + {(term, i)} else heap;
    }

    /** Moves to the next group, once the pairs were streamed; false at the end of the run. */
    method Advance() returns (more: bool)
      requires at < |run| && remaining == []
      modifies this
      ensures Valid() && at == old(at) + 1 && (more <==> at < |run|)
    {
      at := at + 1;
      more := at < |run|;
      if more {
        term, remaining := run[at].term, run[at].pairs;
      }
    }
  }


  function HeapTerms(heap: Heap): set<bytes> {
    set e | e in heap :: e.0
  }

  /** The least term on the heap. */
  function Peek(heap: Heap): (t: Option<bytes>)
    ensures t.None? <==> heap == {}
    ensures t.Some? ==> (exists e :: e in heap && e.0 == t.value) && forall e :: e in heap ==>
              TermOrder.AtMost(t.value, e.0)
  {
    if heap == {} then None
    else
      assert exists e :: e in heap;
      assert HeapTerms(heap) != {} by { var e :| e in heap; assert e.0 in HeapTerms(heap); }
      assert forall e :: e in heap ==> e.0 in HeapTerms(heap);
      Some(TermOrder.Least(HeapTerms(heap)))
  }

  // ----- the lockstep, on positions -----

  ghost predicate InFirst(dict: Dict, n: nat, t: bytes) {
    exists j :: 0 <= j < n && j < |dict| && dict[j].0 == t
  }

  ghost predicate DictSorted(dict: Dict) {
    forall i, j :: 0 <= i < j < |dict| ==> TermOrder.Less(dict[i].0, dict[j].0)
  }

  ghost predicate AllSorted(runs: seq<Run>) {
    forall i :: 0 <= i < |runs| ==> RunSorted(runs[i])
  }

  /** The dictionary and the runs have the same terms. */
  ghost predicate SameTerms(dict: Dict, runs: seq<Run>) {
    forall t :: InSome(runs, t) <==> InFirst(dict, |dict|, t)
  }

  /** A run read up to `at` has passed exactly the terms of the first `n` dictionary entries. */
  ghost predicate PassedRun(run: Run, at: nat, dict: Dict, n: nat) {
    at <= |run| && forall k :: 0 <= k < |run| ==> (k < at <==> InFirst(dict, n, run[k].term))
  }

  ghost predicate Passed(runs: seq<Run>, ats: seq<nat>, dict: Dict, n: nat) {
    |ats| == |runs| && forall i :: 0 <= i < |runs| ==> PassedRun(runs[i], ats[i], dict, n)
  }

  /** The heap holds the current term of every run that has one. */
  ghost predicate HeapOf(runs: seq<Run>, ats: seq<nat>, heap: Heap) {
    |ats| == |runs| && forall e :: e in heap <==> OnHeap(runs, ats, e)
  }

  ghost predicate OnHeap(runs: seq<Run>, ats: seq<nat>, e: (bytes, nat))
    requires |ats| == |runs|
  {
    e.1 < |runs| && ats[e.1] < |runs[e.1]| && runs[e.1][ats[e.1]].term == e.0
  }

  lemma NotYet(dict: Dict, n: nat)
    requires DictSorted(dict) && n < |dict|
    ensures !InFirst(dict, n, dict[n].0)
  {
    forall j | 0 <= j < n ensures dict[j].0 != dict[n].0 {
      TermOrder.LessNot(dict[j].0, dict[n].0);
    }
  }

  lemma FirstNext(dict: Dict, n: nat, t: bytes)
    requires n < |dict|
    ensures InFirst(dict, n + 1, t) <==> InFirst(dict, n, t) || t == dict[n].0
  {
    if InFirst(dict, n + 1, t) {
      var j :| 0 <= j < n + 1 && j < |dict| && dict[j].0 == t;
      assert j < n ==> InFirst(dict, n, t);
    }
  }

  /** A term still ahead in some run puts a term no greater on the heap. */
  lemma AheadOnHeap(runs: seq<Run>, ats: seq<nat>, dict: Dict, n: nat, heap: Heap, t: bytes)
    requires AllSorted(runs) && Passed(runs, ats, dict, n) && HeapOf(runs, ats, heap)
    requires InSome(runs, t) && !InFirst(dict, n, t)
    ensures exists e :: e in heap && TermOrder.AtMost(e.0, t)
  {
    var i :| 0 <= i < |runs| && HasTerm(runs[i], t);
    assert PassedRun(runs[i], ats[i], dict, n) && RunSorted(runs[i]);
    var k :| 0 <= k < |runs[i]| && runs[i][k].term == t;
    var e := (runs[i][ats[i]].term, i as nat);
    assert OnHeap(runs, ats, e);
  }

  lemma HeapAhead(runs: seq<Run>, ats: seq<nat>, dict: Dict, n: nat, heap: Heap, e: (bytes, nat))
    requires Passed(runs, ats, dict, n) && HeapOf(runs, ats, heap) && e in heap
    ensures InSome(runs, e.0) && !InFirst(dict, n, e.0)
  {
    assert OnHeap(runs, ats, e) && PassedRun(runs[e.1], ats[e.1], dict, n);
    assert HasTerm(runs[e.1], e.0);
  }

  /** No run has data for the next dictionary term. */
  lemma RunsExhausted(runs: seq<Run>, ats: seq<nat>, dict: Dict, n: nat, heap: Heap)
    requires AllSorted(runs) && DictSorted(dict) && Passed(runs, ats, dict, n) && HeapOf(runs, ats, heap)
    requires n < |dict| && heap == {}
    ensures !SameTerms(dict, runs)
  {
    hide AllSorted, Passed, HeapOf, DictSorted, InSome;
    NotYet(dict, n);
    assert InFirst(dict, |dict|, dict[n].0);
    if InSome(runs, dict[n].0) {
      AheadOnHeap(runs, ats, dict, n, heap, dict[n].0);
    }
  }

  /** The runs' least term is not the dictionary's next. */
  lemma OrderDiverged(runs: seq<Run>, ats: seq<nat>, dict: Dict, n: nat, heap: Heap)
    requires AllSorted(runs) && DictSorted(dict) && Passed(runs, ats, dict, n) && HeapOf(runs, ats, heap)
    requires n < |dict| && Peek(heap).Some? && Peek(heap).value != dict[n].0
    ensures !SameTerms(dict, runs)
  {
    hide AllSorted, Passed, HeapOf, InSome, TermOrder.Less, Peek;
    var f, t := Peek(heap).value, dict[n].0;
    var e :| e in heap && e.0 == f;
    HeapAhead(runs, ats, dict, n, heap, e);
    NotYet(dict, n);
    if SameTerms(dict, runs) {
      assert InFirst(dict, |dict|, t);
      AheadOnHeap(runs, ats, dict, n, heap, t);
      var g :| g in heap && TermOrder.AtMost(g.0, t);
      var j :| 0 <= j < |dict| && dict[j].0 == f;
      assert j > n;
      FirstIsLess(f, g.0, t);
    }
  }

  lemma FirstIsLess(f: bytes, g: bytes, t: bytes)
    requires TermOrder.AtMost(f, g) && TermOrder.AtMost(g, t)
    ensures f == t || !TermOrder.Less(t, f)
  {
    if f != g && g != t {
      TermOrder.LessTransitive(f, g, t);
    }
    if TermOrder.Less(t, f) {
      if f != t {
        TermOrder.LessNot(t, f);
      }
    }
  }

  /** Some run has a term past the dictionary's last. */
  lemma TermsLeft(runs: seq<Run>, ats: seq<nat>, dict: Dict, heap: Heap)
    requires Passed(runs, ats, dict, |dict|) && HeapOf(runs, ats, heap) && heap != {}
    ensures !SameTerms(dict, runs)
  {
    var e :| e in heap;
    HeapAhead(runs, ats, dict, |dict|, heap, e);
  }

  lemma AllMatched(runs: seq<Run>, ats: seq<nat>, dict: Dict, heap: Heap)
    requires AllSorted(runs) && Passed(runs, ats, dict, |dict|) && HeapOf(runs, ats, heap) && heap == {}
    requires forall j :: 0 <= j < |dict| ==> InSome(runs, dict[j].0)
    ensures SameTerms(dict, runs)
  {
    hide AllSorted, Passed, HeapOf, InSome;
    forall t ensures InSome(runs, t) <==> InFirst(dict, |dict|, t) {
      if InSome(runs, t) && !InFirst(dict, |dict|, t) {
        AheadOnHeap(runs, ats, dict, |dict|, heap, t);
      }
    }
  }

  /** When the least term is the dictionary's next, a run that has it stands at it. */
  ghost predicate AtTerm(run: Run, at: nat, t: bytes) {
    && at <= |run| && (forall k :: 0 <= k < at ==> run[k].term != t)
    && (at < |run| ==> TermOrder.AtMost(t, run[at].term))
  }

  function TakesFrom(run: Run, at: nat, t: bytes): bool {
    at < |run| && run[at].term == t
  }

  lemma StandsAtTerm(runs: seq<Run>, ats: seq<nat>, dict: Dict, n: nat, heap: Heap, i: nat)
    requires DictSorted(dict) && Passed(runs, ats, dict, n) && HeapOf(runs, ats, heap)
    requires n < |dict| && Peek(heap) == Some(dict[n].0) && i < |runs|
    ensures AtTerm(runs[i], ats[i], dict[n].0)
  {
    hide DictSorted, Peek;
    NotYet(dict, n);
    assert PassedRun(runs[i], ats[i], dict, n);
    if ats[i] < |runs[i]| {
      assert OnHeap(runs, ats, (runs[i][ats[i]].term, i));
    }
  }

  lemma {:induction false} PairsAbsent(run: Run, t: bytes)
    requires forall k :: 0 <= k < |run| ==> run[k].term != t
    ensures PairsOf(run, t) == []
  {
    if run != [] {
      PairsAbsent(run[1..], t);
    }
  }

  lemma {:induction false} PairsPresent(run: Run, t: bytes, at: nat)
    requires at < |run| && run[at].term == t && forall k :: 0 <= k < at ==> run[k].term != t
    ensures PairsOf(run, t) == run[at].pairs
    decreases at
  {
    if at > 0 {
      assert run[0].term != t;
      PairsPresent(run[1..], t, at - 1);
    }
  }

  /** What a run that stands at the term gives for it. */
  lemma PairsHere(run: Run, at: nat, t: bytes)
    requires RunSorted(run) && AtTerm(run, at, t)
    ensures PairsOf(run, t) == if TakesFrom(run, at, t) then run[at].pairs else []
  {
    if TakesFrom(run, at, t) {
      PairsPresent(run, t, at);
    } else {
      forall k | 0 <= k < |run| ensures run[k].term != t {
        if k >= at {
          if k > at {
            TermOrder.LessTransitive(t, run[at].term, run[k].term);
          }
          TermOrder.LessNot(t, run[k].term);
        }
      }
      PairsAbsent(run, t);
    }
  }

  lemma PassedNext(run: Run, at: nat, dict: Dict, n: nat)
    requires RunSorted(run) && PassedRun(run, at, dict, n) && n < |dict| && AtTerm(run, at, dict[n].0)
    ensures PassedRun(run, if TakesFrom(run, at, dict[n].0) then at + 1 else at, dict, n + 1)
  {
    var t := dict[n].0;
    forall k | 0 <= k < |run|
      ensures k < (if TakesFrom(run, at, t) then at + 1 else at) <==> InFirst(dict, n + 1, run[k].term)
    {
      FirstNext(dict, n, run[k].term);
      if k > at {
        TermOrder.LessNot(run[at].term, run[k].term);
        if run[at].term != t {
          TermOrder.LessTransitive(t, run[at].term, run[k].term);
          TermOrder.LessNot(t, run[k].term);
        }
      }
    }
  }

  // ----- the merge -----

  ghost predicate Readers(rs: seq<RunReader>, runs: seq<Run>)
    reads rs
  {
    && |rs| == |runs| && (forall i :: 0 <= i < |rs| ==> rs[i].Valid() && rs[i].run == runs[i])
    && (forall i, j :: 0 <= i < j < |rs| ==> rs[i] != rs[j])
  }

  ghost function Ats(rs: seq<RunReader>): (ats: seq<nat>)
    reads rs
    ensures |ats| == |rs| && forall i :: 0 <= i < |rs| ==> ats[i] == rs[i].at
  {
    seq(|rs|, i requires 0 <= i < |rs| reads rs => rs[i].at)
  }

  /** The heap part-way through a round: runs before `i` show their new term, the others their old
      one unless it is the round's. */
  ghost predicate HeapUpTo(runs: seq<Run>, old_: seq<nat>, new_: seq<nat>, t: bytes, i: nat, heap: Heap)
    requires |old_| == |new_| == |runs|
  {
    forall e :: e in heap <==> if e.1 < i then OnHeap(runs, new_, e) else OnHeap(runs, old_, e) && e.0 != t
  }

  ghost function Moved(runs: seq<Run>, ats: seq<nat>, t: bytes): (next: seq<nat>)
    requires |ats| == |runs|
    ensures |next| == |ats| && forall i :: 0 <= i < |ats| ==>
              next[i] == if TakesFrom(runs[i], ats[i], t) then ats[i] + 1 else ats[i]
  {
    seq(|ats|, i requires 0 <= i < |ats| => if TakesFrom(runs[i], ats[i], t) then ats[i] + 1 else ats[i])
  }

  /** Readers before `i` have moved on from the term, the others have not moved. */
  ghost predicate Midway(rs: seq<RunReader>, runs: seq<Run>, ats: seq<nat>, after: seq<nat>, i: nat)
    reads rs
  {
    && Readers(rs, runs) && |ats| == |after| == |runs| && i <= |runs|
    && (forall j :: 0 <= j < i ==> rs[j].at == after[j]) && (forall j :: i <= j < |rs| ==> rs[j].at == ats[j])
  }

  /** Takes one run's group, when it is in the round. */
  method TakeRun(rs: seq<RunReader>, heap: Heap, i: nat, member: bool, ghost runs: seq<Run>, ghost ats: seq<nat>,
                 ghost t: bytes)
    returns (pairs: seq<DocTf>, next: Heap)
    requires |ats| == |runs| && i < |rs| == |runs| && Midway(rs, runs, ats, Moved(runs, ats, t), i)
    requires member <==> TakesFrom(runs[i], ats[i], t)
    modifies rs
    ensures Midway(rs, runs, ats, Moved(runs, ats, t), i + 1)
    ensures pairs == if TakesFrom(runs[i], ats[i], t) then runs[i][ats[i]].pairs else []
    ensures next == if TakesFrom(runs[i], ats[i], t) && ats[i] + 1 < |runs[i]|
            then heap + {(runs[i][ats[i] + 1].term, i)} else heap
  {
    pairs, next := [], heap;
    if member {
      pairs, next := rs[i].Take(i, heap);
    }
  }

  lemma JoinedNext(runs: seq<Run>, ats: seq<nat>, t: bytes, i: nat)
    requires AllSorted(runs) && |ats| == |runs| && i < |runs| && AtTerm(runs[i], ats[i], t)
    ensures Joined(runs, t, i + 1) == Joined(runs, t, i)
            + if TakesFrom(runs[i], ats[i], t) then runs[i][ats[i]].pairs else []
  {
    RunSortedAt(runs, i);
    PairsHere(runs[i], ats[i], t);
  }

  /** Pops the term's group off the heap and streams its pairs, run by run in document order,
      pushing each run's next term. */
  method TakeTerm(rs: seq<RunReader>, heap: Heap, t: bytes, ghost runs: seq<Run>, ghost ats: seq<nat>)
    returns (pairs: seq<DocTf>, next: Heap)
    requires Readers(rs, runs) && ats == Ats(rs) && AllSorted(runs) && HeapOf(runs, ats, heap)
    requires forall i :: 0 <= i < |runs| ==> AtTerm(runs[i], ats[i], t)
    modifies rs
    ensures Readers(rs, runs) && Ats(rs) == Moved(runs, ats, t)
    ensures HeapOf(runs, Moved(runs, ats, t), next) && pairs == Joined(runs, t, |runs|)
  {
    hide AllSorted, AtTerm, RunSorted, PairsOf, HeapUpTo, HeapOf, OnHeap, Joined, Midway;
    ReadersLength(rs, runs);
    ghost var after := Moved(runs, ats, t);
    var group := set e | e in heap && e.0 == t :: e.1;
    next := set e | e in heap && e.0 != t;
    GroupIs(runs, ats, heap, t, group);
    HeapStarts(runs, ats, after, t, heap, next);
    Starts(rs, runs, ats, after, t);
    pairs := [];
    for i := 0 to |rs|
      invariant Midway(rs, runs, ats, after, i)
      invariant pairs == Joined(runs, t, i)
      invariant HeapUpTo(runs, ats, after, t, i, next)
    {
      JoinedNext(runs, ats, t, i);
      ghost var was := next;
      var streamed;
      streamed, next := TakeRun(rs, next, i, i in group, runs, ats, t);
      pairs := pairs + streamed;
      HeapNext(runs, ats, after, t, i, was, next);
    }
    Ends(rs, runs, ats, after);
    HeapEnds(runs, ats, after, t, next);
  }

  lemma Starts(rs: seq<RunReader>, runs: seq<Run>, ats: seq<nat>, after: seq<nat>, t: bytes)
    requires Readers(rs, runs) && ats == Ats(rs) && |after| == |runs|
    ensures Midway(rs, runs, ats, after, 0) && Joined(runs, t, 0) == []
  {
  }

  lemma Ends(rs: seq<RunReader>, runs: seq<Run>, ats: seq<nat>, after: seq<nat>)
    requires Midway(rs, runs, ats, after, |rs|)
    ensures Readers(rs, runs) && Ats(rs) == after
  {
  }

  lemma HeapStarts(runs: seq<Run>, ats: seq<nat>, after: seq<nat>, t: bytes, heap: Heap, next: Heap)
    requires HeapOf(runs, ats, heap) && |after| == |runs| && next == set e | e in heap && e.0 != t
    ensures HeapUpTo(runs, ats, after, t, 0, next)
  {
  }

  lemma HeapEnds(runs: seq<Run>, ats: seq<nat>, after: seq<nat>, t: bytes, next: Heap)
    requires |ats| == |after| == |runs| && HeapUpTo(runs, ats, after, t, |runs|, next)
    ensures HeapOf(runs, after, next)
  {
  }

  lemma RunSortedAt(runs: seq<Run>, i: nat)
    requires AllSorted(runs) && i < |runs|
    ensures RunSorted(runs[i])
  {
  }

  lemma GroupIs(runs: seq<Run>, ats: seq<nat>, heap: Heap, t: bytes, group: set<nat>)
    requires HeapOf(runs, ats, heap) && group == set e | e in heap && e.0 == t :: e.1
    ensures forall i: nat :: i in group <==> i < |runs| && TakesFrom(runs[i], ats[i], t)
  {
    forall i: nat ensures i in group <==> i < |runs| && TakesFrom(runs[i], ats[i], t) {
      assert (t, i) in heap <==> OnHeap(runs, ats, (t, i));
      if i in group {
        var e :| e in heap && e.0 == t && e.1 == i;
        assert e == (t, i);
      }
    }
  }

  lemma HeapNext(runs: seq<Run>, ats: seq<nat>, after: seq<nat>, t: bytes, i: nat, was: Heap, now: Heap)
    requires |ats| == |runs| && after == Moved(runs, ats, t) && i < |runs| && HeapUpTo(runs, ats, after, t, i, was)
    requires now == if TakesFrom(runs[i], ats[i], t) && after[i] < |runs[i]| then was + {(runs[i][after[i]].term, i)}
             else was
    ensures HeapUpTo(runs, ats, after, t, i + 1, now)
  {
    forall e ensures e in now <==> if e.1 < i + 1 then OnHeap(runs, after, e) else OnHeap(runs, ats, e) && e.0 != t {
      assert e in was <==> if e.1 < i then OnHeap(runs, after, e) else OnHeap(runs, ats, e) && e.0 != t;
    }
  }

  /** What the runs together hold of each dictionary term. */
  ghost function RunStats(dict: Dict, runs: seq<Run>): Stats {
    map t | t in (set i | 0 <= i < |dict| :: dict[i].0) :: Joined(runs, t, |runs|)
  }

  lemma RunStatsEntries(p: Params, dict: Dict, runs: seq<Run>, lens: seq<nat>)
    ensures EntriesOfRuns(p, dict, runs, lens) == EntriesOfDict(p, dict, RunStats(dict, runs), lens)
  {
    hide Joined, ImpactBytes, Sum;
  }

  /** The entries the merge writes: each dictionary term's joined pairs, quantized. */
  function EntriesOfRuns(p: Params, dict: Dict, runs: seq<Run>, lens: seq<nat>): (es: seq<Entry>)
    ensures |es| == |dict|
    ensures forall i :: 0 <= i < |dict| ==>
              es[i] == Entry(dict[i].1, ImpactBytes(p, Joined(runs, dict[i].0, |runs|), lens, Sum(lens)))
  {
    seq(|dict|, i requires 0 <= i < |dict| => Entry(dict[i].1,
                                                    ImpactBytes(p, Joined(runs, dict[i].0, |runs|), lens, Sum(lens))))
  }

  /** What has been written after the first `n` terms: sparse keys, entry rows, impact bytes. */
  ghost predicate Written(es: seq<Entry>, n: nat, sparse: seq<nat>, table: bytes, impacts: bytes) {
    && n <= |es| && |sparse| == SparseCount(n, STRIDE)
    && (forall i :: 0 <= i < |sparse| ==> sparse[i] == KeyAt(es, i * STRIDE))
    && table == Layout(DictFields(es, 0, n)) && impacts == Join(RangeIndex.PostingsOf(es)[..n])
  }

  lemma SparseGrows(n: nat)
    ensures SparseCount(n + 1, STRIDE) == SparseCount(n, STRIDE) + if n % STRIDE == 0 then 1 else 0
    ensures n % STRIDE == 0 ==> SparseCount(n, STRIDE) * STRIDE == n
  {
  }

  lemma WrittenNext(es: seq<Entry>, n: nat, sparse: seq<nat>, table: bytes, impacts: bytes)
    requires Written(es, n, sparse, table, impacts) && n < |es|
    ensures Written(es, n + 1, if n % STRIDE == 0 then sparse + [es[n].key] else sparse,
                    table + (LE(es[n].key, 8) + LE(|impacts|, 8) + LE(|es[n].posting|, 4)), impacts + es[n].posting)
  {
    hide Layout, LE, Join, DictFields, RangeIndex.PostingsOf, SparseCount;
    SparseGrows(n);
    DictStep(es, 0, n);
    PostingStep(es, n);
    StartIsLength(es, n);
  }

  lemma StartIsLength(es: seq<Entry>, n: nat)
    requires n <= |es|
    ensures |RangeIndex.PostingsOf(es)| == |es| && Start(RangeIndex.PostingsOf(es), n)
            == |Join(RangeIndex.PostingsOf(es)[..n])|
  {
  }

  lemma WrittenNone(es: seq<Entry>)
    ensures Written(es, 0, [], [], [])
  {
    SparseCountMeans(0, STRIDE, 0);
  }

  /** Header, sparse index, entries, impact bytes. */
  method AssembleSidecar(p: Params, n: nat, docs: nat, sum: nat, sparse: seq<nat>, table: bytes, impacts: bytes,
                         ghost es: seq<Entry>)
    returns (out: bytes)
    requires n == |es| && Written(es, n, sparse, table, impacts)
    ensures out == SidecarOf(p, es, docs, sum)
  {
    hide Layout, LE, Join, DictFields, SparseFields, SideHeader, RangeIndex.PostingsOf, SparseCount;
    LayoutEmpty(es, STRIDE, 0);
    var keys := [];
    for i := 0 to |sparse|
      invariant keys == Layout(SparseFields(es, STRIDE, i))
    {
      SparseCountMeans(n, STRIDE, i);
      SparseStep(es, STRIDE, i);
      keys := keys + LE(sparse[i], 8);
    }
    LayoutAppend(SideHeader(p, n, docs, sum) + Sparse(es, STRIDE), DictFields(es, 0, n));
    LayoutAppend(SideHeader(p, n, docs, sum), Sparse(es, STRIDE));
    assert RangeIndex.PostingsOf(es)[..n] == RangeIndex.PostingsOf(es) by { StartIsLength(es, n); }
    out := Layout(SideHeader(p, n, docs, sum)) + keys + table + impacts;
  }

  /** One reader for each run, on its first term. */
  method OpenRuns(runs: seq<Run>) returns (rs: seq<RunReader>, heap: Heap)
    ensures Readers(rs, runs) && (forall i :: 0 <= i < |rs| ==> fresh(rs[i]) && rs[i].at == 0)
    ensures forall e :: e in heap <==> e.1 < |runs| && runs[e.1] != [] && runs[e.1][0].term == e.0
  {
    rs, heap := [], {};
    for n := 0 to |runs|
      invariant |rs| == n && (forall i :: 0 <= i < n ==>
                              fresh(rs[i]) && rs[i].at == 0 && rs[i].Valid() && rs[i].run == runs[i])
      invariant forall i, j :: 0 <= i < j < n ==> rs[i] != rs[j]
      invariant forall e :: e in heap <==> e.1 < n && runs[e.1] != [] && runs[e.1][0].term == e.0
    {
      var r := new RunReader(runs[n]);
      if runs[n] != [] {
        heap := heap + {(r.term, n)};
      }
      rs := rs + [r];
    }
  }

  lemma Opened(runs: seq<Run>, ats: seq<nat>, heap: Heap, dict: Dict)
    requires |ats| == |runs| && forall i :: 0 <= i < |ats| ==> ats[i] == 0
    requires forall e :: e in heap <==> e.1 < |runs| && runs[e.1] != [] && runs[e.1][0].term == e.0
    ensures HeapOf(runs, ats, heap) && Passed(runs, ats, dict, 0)
  {
  }

  lemma RoundMoves(runs: seq<Run>, ats: seq<nat>, dict: Dict, n: nat, heap: Heap)
    requires AllSorted(runs) && DictSorted(dict) && Passed(runs, ats, dict, n) && HeapOf(runs, ats, heap)
    requires n < |dict| && Peek(heap) == Some(dict[n].0)
    ensures forall i :: 0 <= i < |runs| ==> AtTerm(runs[i], ats[i], dict[n].0)
    ensures Passed(runs, Moved(runs, ats, dict[n].0), dict, n + 1) && InSome(runs, dict[n].0)
  {
    hide DictSorted, HeapOf, RunSorted, AtTerm, PassedRun, Peek;
    forall i | 0 <= i < |runs|
      ensures AtTerm(runs[i], ats[i], dict[n].0)
      ensures PassedRun(runs[i], if TakesFrom(runs[i], ats[i], dict[n].0) then ats[i] + 1 else ats[i], dict, n + 1)
    {
      StandsAtTerm(runs, ats, dict, n, heap, i);
      assert RunSorted(runs[i]) && PassedRun(runs[i], ats[i], dict, n);
      PassedNext(runs[i], ats[i], dict, n);
    }
    var e :| e in heap && e.0 == dict[n].0;
    HeapAhead(runs, ats, dict, n, heap, e);
  }

  /** One round: the heap's least term must be the dictionary's next, and is taken. */
  method TakeNext(rs: seq<RunReader>, heap: Heap, dict: Dict, n: nat, ghost runs: seq<Run>)
    returns (pairs: Option<seq<DocTf>>, next: Heap)
    requires AllSorted(runs) && DictSorted(dict) && n < |dict| && Readers(rs, runs)
    requires HeapOf(runs, Ats(rs), heap) && Passed(runs, Ats(rs), dict, n)
    modifies rs
    ensures pairs.None? ==> !SameTerms(dict, runs)
    ensures pairs.Some? ==> Readers(rs, runs) && HeapOf(runs, Ats(rs), next) && Passed(runs, Ats(rs), dict, n + 1)
    ensures pairs.Some? ==> InSome(runs, dict[n].0) && pairs.value == Joined(runs, dict[n].0, |runs|)
  {
    hide AllSorted, DictSorted, Passed, HeapOf, InSome, SameTerms, Joined, Readers, AtTerm, Peek;
    ghost var ats := Ats(rs);
    ReadersLength(rs, runs);
    var t := dict[n].0;
    var head := Peek(heap);
    if head.None? {
      PeekEmpty(heap);
      RunsExhausted(runs, ats, dict, n, heap);
      return None, heap;
    }
    if head.value != t {
      OrderDiverged(runs, ats, dict, n, heap);
      return None, heap;
    }
    RoundMoves(runs, ats, dict, n, heap);
    var taken;
    taken, next := TakeTerm(rs, heap, t, runs, ats);
    pairs := Some(taken);
  }

  /** One round: the next term's pairs taken, and its sparse key, row and impact bytes written. */
  method MergeRound(p: Params, dict: Dict, n: nat, lens: seq<nat>, sum: nat, rs: seq<RunReader>, heap: Heap,
                    sparse: seq<nat>, table: bytes, impacts: bytes, ghost runs: seq<Run>, ghost es: seq<Entry>)
    returns (ok: bool, heap': Heap, sparse': seq<nat>, table': bytes, impacts': bytes)
    requires AllSorted(runs) && DictSorted(dict) && n < |dict| && Readers(rs, runs)
    requires HeapOf(runs, Ats(rs), heap) && Passed(runs, Ats(rs), dict, n)
    requires es == EntriesOfRuns(p, dict, runs, lens) && sum == Sum(lens) && Written(es, n, sparse, table, impacts)
    modifies rs
    ensures !ok ==> !SameTerms(dict, runs)
    ensures ok ==> Readers(rs, runs) && HeapOf(runs, Ats(rs), heap') && Passed(runs, Ats(rs), dict, n + 1)
    ensures ok ==> InSome(runs, dict[n].0) && Written(es, n + 1, sparse', table', impacts')
  {
    hide AllSorted, DictSorted, Passed, HeapOf, Written, InSome, SameTerms, Joined, Readers, ImpactBytes, LE;
    sparse', table', impacts' := sparse, table, impacts;
    var taken;
    taken, heap' := TakeNext(rs, heap, dict, n, runs);
    if taken.None? {
      return false, heap', sparse', table', impacts';
    }
    WrittenNext(es, n, sparse, table, impacts);
    if n % STRIDE == 0 {
      sparse' := sparse + [dict[n].1];
    }
    table' := table + (LE(dict[n].1, 8) + LE(|impacts|, 8) + LE(|taken.value|, 4));
    impacts' := impacts + ImpactBytes(p, taken.value, lens, sum);
    ok := true;
  }

  /** Merges the runs in lockstep with the dictionary. It succeeds exactly when the lengths cover
      the documents, the dictionary's count is right, and dictionary and runs have the same terms. */
  method Merge(p: Params, dict: Dict, runs: seq<Run>, lens: seq<nat>, docs: nat, termCount: nat)
    returns (r: Result<bytes>)
    requires AllSorted(runs) && DictSorted(dict)
    ensures r.Ok? <==> |lens| == docs && |dict| == termCount && SameTerms(dict, runs)
    ensures r.Ok? ==> r.value == SidecarOf(p, EntriesOfRuns(p, dict, runs, lens), docs, Sum(lens))
    ensures r.Ok? ==> forall corpus, seen ::
              lens == Lens(corpus) && AllListed(dict, RunStats(dict, runs), corpus, seen) ==>
                FollowsCorpus(r.value, p, dict, corpus, seen)
  {
    hide FollowsCorpus, AllListed, RunStats, AllSorted, DictSorted, Passed, HeapOf, Written, InSome, SameTerms,
         SidecarOf, Joined, Readers, AtTerm, Peek;
    if |lens| != docs {
      return Err(Malformed);
    }
    var sum := SumOf(lens);
    ghost var es := EntriesOfRuns(p, dict, runs, lens);
    var rs, heap := OpenRuns(runs);
    ReadersLength(rs, runs);
    Opened(runs, Ats(rs), heap, dict);
    WrittenNone(es);
    var sparse: seq<nat>, table: bytes, impacts: bytes := [], [], [];
    for n := 0 to |dict|
      invariant Readers(rs, runs) && forall i :: 0 <= i < |rs| ==> fresh(rs[i])
      invariant HeapOf(runs, Ats(rs), heap) && Passed(runs, Ats(rs), dict, n)
      invariant forall j :: 0 <= j < n ==> InSome(runs, dict[j].0)
      invariant Written(es, n, sparse, table, impacts)
    {
      var ok;
      ok, heap, sparse, table, impacts := MergeRound(p, dict, n, lens, sum, rs, heap, sparse, table, impacts, runs, es);
      if !ok {
        return Err(Malformed);
      }
    }
    if heap != {} {
      TermsLeft(runs, Ats(rs), dict, heap);
      return Err(Malformed);
    }
    AllMatched(runs, Ats(rs), dict, heap);
    if |dict| != termCount {
      return Err(Malformed);
    }
    var out := AssembleSidecar(p, |dict|, docs, sum, sparse, table, impacts, es);
    forall corpus, seen | lens == Lens(corpus) && AllListed(dict, RunStats(dict, runs), corpus, seen)
      ensures FollowsCorpus(out, p, dict, corpus, seen)
    {
      RunStatsEntries(p, dict, runs, lens);
      SidecarFollows(p, dict, RunStats(dict, runs), corpus, seen);
    }
    r := Ok(out);
  }

  lemma ReadersLength(rs: seq<RunReader>, runs: seq<Run>)
    requires Readers(rs, runs)
    ensures |rs| == |runs|
  {
  }

  lemma PeekEmpty(heap: Heap)
    requires Peek(heap).None?
    ensures heap == {}
  {
  }
}
