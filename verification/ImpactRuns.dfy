/** The first phase of the out-of-core impact build (build_impacts.rs): each chunk of documents
    spilled as a term-sorted run of capped frequencies. */
module ImpactRuns {
  import opened Bytes
  import opened Impacts
  import Inverted
  import TermOrder

  /** A run's group: a term and its (document, frequency) pairs. */
  datatype Group = Group(term: bytes, pairs: seq<DocTf>)

  type Run = seq<Group>

  /** A frequency as one byte holds it: it stops at 255. */
  function Capped(n: nat): nat {
    if n < 255 then n else 255
  }

  function CapAll(tfs: seq<DocTf>): (q: seq<DocTf>)
    ensures |q| == |tfs| && forall i :: 0 <= i < |tfs| ==> q[i] == DocTf(tfs[i].doc, Capped(tfs[i].tf))
  {
    seq(|tfs|, i requires 0 <= i < |tfs| => DocTf(tfs[i].doc, Capped(tfs[i].tf)))
  }

  /** The part of a term's list that falls in documents [lo, hi). */
  function TfListIn(docs: seq<seq<bytes>>, t: bytes, lo: nat, hi: nat): seq<DocTf> {
    if hi <= lo || hi > |docs| then []
    else TfListIn(docs, t, lo, hi - 1) + if t in docs[hi - 1] then [DocTf(hi - 1, Occurs(docs[hi - 1], t))] else []
  }

  /** A term's list is the list of the first documents followed by that of the rest. */
  lemma {:induction false} TfListCut(docs: seq<seq<bytes>>, t: bytes, lo: nat, hi: nat)
    requires lo <= hi <= |docs|
    ensures TfList(docs[..hi], t) == TfList(docs[..lo], t) + TfListIn(docs, t, lo, hi)
    decreases hi
  {
    if lo < hi {
      TfListCut(docs, t, lo, hi - 1);
      assert docs[..hi][..hi - 1] == docs[..hi - 1];
    }
  }

  function KeysIn(docs: seq<seq<bytes>>, lo: nat, hi: nat): set<bytes> {
    set d: nat, t | lo <= d < hi && d < |docs| && t in docs[d] :: t
  }

  lemma {:induction false} KeysInLists(docs: seq<seq<bytes>>, t: bytes, lo: nat, hi: nat)
    requires hi <= |docs|
    ensures t in KeysIn(docs, lo, hi) <==> TfListIn(docs, t, lo, hi) != []
    decreases hi
  {
    if lo < hi {
      KeysInLists(docs, t, lo, hi - 1);
      if t in KeysIn(docs, lo, hi) {
        var d: nat :| lo <= d < hi && d < |docs| && t in docs[d];
        assert d < hi - 1 ==> t in KeysIn(docs, lo, hi - 1);
      }
      if t in KeysIn(docs, lo, hi - 1) {
        var d: nat :| lo <= d < hi - 1 && d < |docs| && t in docs[d];
        assert t in KeysIn(docs, lo, hi);
      }
      assert t in docs[hi - 1] ==> t in KeysIn(docs, lo, hi);
    }
  }

  /** The run of a chunk: its terms in order, each with its capped pairs. */
  function RunOf(docs: seq<seq<bytes>>, lo: nat, hi: nat): (run: Run) {
    var terms := TermOrder.SortedTerms(KeysIn(docs, lo, hi));
    seq(|terms|, i requires 0 <= i < |terms| => Group(terms[i], CapAll(TfListIn(docs, terms[i], lo, hi))))
  }

  // ----- spilling a chunk -----

  type ChunkMap = map<bytes, seq<DocTf>>

  /** The document's counts, each stopped at 255. */
  ghost predicate CountsCapped(tf: map<bytes, nat>, tokens: seq<bytes>) {
    forall t :: (t in tf <==> t in tokens) && (t in tf ==> tf[t] == Capped(Occurs(tokens, t)))
  }

  lemma CappedNext(tf: map<bytes, nat>, tokens: seq<bytes>, i: nat)
    requires i < |tokens| && CountsCapped(tf, tokens[..i])
    ensures var t := tokens[i]; CountsCapped(tf[t := Capped((if t in tf then tf[t] else 0) + 1)], tokens[..i + 1])
  {
    assert tokens[..i + 1][..i] == tokens[..i];
    assert forall x :: x in tokens[..i + 1] <==> x in tokens[..i] || x == tokens[i];
    var t := tokens[i];
    assert t !in tokens[..i] ==> Occurs(tokens[..i], t) == 0;
  }

  method CountSaturating(tokens: seq<bytes>) returns (tf: map<bytes, nat>)
    ensures CountsCapped(tf, tokens)
  {
    hide CountsCapped;
    tf := map[];
    assert CountsCapped(tf, tokens[..0]) by { CappedNone(); }
    for i := 0 to |tokens|
      invariant CountsCapped(tf, tokens[..i])
    {
      CappedNext(tf, tokens, i);
      var before := if tokens[i] in tf then tf[tokens[i]] else 0;
      tf := tf[tokens[i] := Capped(before + 1)];
    }
    assert tokens[..|tokens|] == tokens;
  }

  lemma CappedNone()
    ensures CountsCapped(map[], [])
  {
  }

  /** `m` after document `d`'s terms in `done` were pushed. */
  ghost predicate Pushed(docs: seq<seq<bytes>>, lo: nat, d: nat, done: set<bytes>, m: ChunkMap)
    requires lo <= d < |docs|
  {
    && (forall t :: t in m <==> t in KeysIn(docs, lo, d) || t in done)
    && (forall t :: t in m ==> m[t] == CapAll(TfListIn(docs, t, lo, d)) + if t in done
        then [DocTf(d, Capped(Occurs(docs[d], t)))] else [])
  }

  lemma CapOne(d: nat, n: nat)
    ensures CapAll([DocTf(d, n)]) == [DocTf(d, Capped(n))] && CapAll([]) == []
  {
  }

  lemma PushedNext(docs: seq<seq<bytes>>, lo: nat, d: nat, done: set<bytes>, m: ChunkMap, t: bytes, n: nat)
    requires lo <= d < |docs| && Pushed(docs, lo, d, done, m) && t !in done && n == Capped(Occurs(docs[d], t))
    ensures Pushed(docs, lo, d, done + {t}, m[t := (if t in m then m[t] else []) + [DocTf(d, n)]])
  {
    hide KeysIn, TfListIn, CapAll, Occurs;
    if t !in m {
      KeysInLists(docs, t, lo, d);
      CapOne(0, 0);
      assert [] + [DocTf(d, n)] == [DocTf(d, n)];
    }
  }

  /** `m` is the chunk map of documents [lo, d). */
  ghost predicate Spilled(docs: seq<seq<bytes>>, lo: nat, d: nat, m: ChunkMap) {
    && (forall t :: t in m <==> t in KeysIn(docs, lo, d))
    && (forall t :: t in m ==> m[t] == CapAll(TfListIn(docs, t, lo, d)))
  }

  lemma PushedStart(docs: seq<seq<bytes>>, lo: nat, d: nat, m: ChunkMap)
    requires lo <= d < |docs| && Spilled(docs, lo, d, m)
    ensures Pushed(docs, lo, d, {}, m)
  {
    assert forall t :: t in m ==> m[t] + [] == m[t];
  }

  lemma PushedEnd(docs: seq<seq<bytes>>, lo: nat, d: nat, done: set<bytes>, m: ChunkMap)
    requires lo <= d < |docs| && Pushed(docs, lo, d, done, m) && forall t :: t in done <==> t in docs[d]
    ensures Spilled(docs, lo, d + 1, m)
  {
    hide KeysIn;
    forall t
      ensures t in KeysIn(docs, lo, d + 1) <==> t in KeysIn(docs, lo, d) || t in docs[d]
      ensures TfListIn(docs, t, lo, d + 1) == TfListIn(docs, t, lo, d)
              + if t in docs[d] then [DocTf(d, Occurs(docs[d], t))] else []
    {
      KeysInLists(docs, t, lo, d);
      KeysInLists(docs, t, lo, d + 1);
    }
    forall t | t in m ensures m[t] == CapAll(TfListIn(docs, t, lo, d + 1)) {
      CapAppend(TfListIn(docs, t, lo, d), if t in docs[d] then [DocTf(d, Occurs(docs[d], t))] else []);
    }
  }

  lemma CapAppend(a: seq<DocTf>, b: seq<DocTf>)
    ensures CapAll(a + b) == CapAll(a) + CapAll(b)
  {
  }

  /** Spills one chunk: each document's terms pushed in document order, and the documents' lengths. */
  method SpillChunk(docs: seq<seq<bytes>>, lo: nat, hi: nat) returns (m: ChunkMap, lens: seq<nat>)
    requires lo <= hi <= |docs|
    ensures Spilled(docs, lo, hi, m) && lens == Lens(docs)[lo..hi]
  {
    hide Spilled, Pushed, KeysIn, TfListIn, CountsCapped;
    m, lens := map[], [];
    assert Spilled(docs, lo, lo, m) by { SpilledNone(docs, lo); }
    for d := lo to hi
      invariant Spilled(docs, lo, d, m) && lens == Lens(docs)[lo..d]
    {
      var tf := CountSaturating(docs[d]);
      m := PushDoc(docs, lo, d, m, tf);
      lens := lens + [|docs[d]|];
    }
  }

  lemma SpilledNone(docs: seq<seq<bytes>>, lo: nat)
    ensures Spilled(docs, lo, lo, map[])
  {
  }

  method PushDoc(docs: seq<seq<bytes>>, lo: nat, d: nat, before: ChunkMap, tf: map<bytes, nat>) returns (m: ChunkMap)
    requires lo <= d < |docs| && Spilled(docs, lo, d, before) && CountsCapped(tf, docs[d])
    ensures Spilled(docs, lo, d + 1, m)
  {
    hide Spilled, Pushed, KeysIn, TfListIn;
    m := before;
    var todo := tf.Keys;
    PushedStart(docs, lo, d, m);
    assert tf.Keys - todo == {};
    while todo != {}
      invariant todo <= tf.Keys && Pushed(docs, lo, d, tf.Keys - todo, m)
      decreases todo
    {
      var t :| t in todo;
      PushedNext(docs, lo, d, tf.Keys - todo, m, t, tf[t]);
      m := m[t := (if t in m then m[t] else []) + [DocTf(d, tf[t])]];
      assert tf.Keys - (todo - {t}) == (tf.Keys - todo) + {t};
      todo := todo - {t};
    }
    PushedEnd(docs, lo, d, tf.Keys - todo, m);
  }

  /** Writes a chunk's run, terms in order. */
  method WriteRun(m: ChunkMap, ghost docs: seq<seq<bytes>>, ghost lo: nat, ghost hi: nat) returns (run: Run)
    requires Spilled(docs, lo, hi, m)
    ensures run == RunOf(docs, lo, hi)
  {
    hide Spilled, KeysIn, TfListIn, CapAll, TermOrder.Sorted, RunOf;
    var terms := TermOrder.SortedTerms(m.Keys);
    TermOrder.SortedTermsList(m.Keys);
    run := [];
    for i := 0 to |terms|
      invariant |run| == i && forall j :: 0 <= j < i ==> terms[j] in m && run[j] == Group(terms[j], m[terms[j]])
    {
      assert terms[i] in terms;
      run := run + [Group(terms[i], m[terms[i]])];
    }
    RunIs(docs, lo, hi, m, terms, run);
  }

  lemma RunIs(docs: seq<seq<bytes>>, lo: nat, hi: nat, m: ChunkMap, terms: seq<bytes>, run: Run)
    requires Spilled(docs, lo, hi, m) && terms == TermOrder.SortedTerms(m.Keys) && |run| == |terms|
    requires forall j :: 0 <= j < |run| ==> terms[j] in m && run[j] == Group(terms[j], m[terms[j]])
    ensures run == RunOf(docs, lo, hi)
  {
    assert m.Keys == KeysIn(docs, lo, hi);
  }
}
