/** The BM25 impact sidecar: the term statistics and the in-memory writer (bm25.go,
    rust/src/bm25.rs), and the two ways a reader finds a term's entry (rust/src/bm25.rs,
    bm25_read.go). The impact of one occurrence is the function `quantize`. */
module Impacts {
  import opened Wrappers
  import opened Bytes
  import opened RangeIndex
  import Inverted
  import Ordered

  const SIDECAR_MAGIC: nat := 0x42535252
  const SIDECAR_VERSION := 1
  const SIDECAR_HEADER := 64
  const STRIDE := 512
  const ROW := 20

  // ----- term statistics -----

  datatype DocTf = DocTf(doc: nat, tf: nat)

  type Stats = map<bytes, seq<DocTf>>

  function Occurs(tokens: seq<bytes>, t: bytes): (n: nat)
    ensures n > 0 <==> t in tokens
  {
    if tokens == [] then 0 else Occurs(tokens[..|tokens| - 1], t) + if tokens[|tokens| - 1] == t then 1 else 0
  }

  /** The corpus's tokens, one document after the other. */
  function AllTokens(docs: seq<seq<bytes>>): seq<bytes> {
    if docs == [] then [] else AllTokens(docs[..|docs| - 1]) + docs[|docs| - 1]
  }

  lemma {:induction false} OccursIs(tokens: seq<bytes>, t: bytes)
    ensures Occurs(tokens, t) == multiset(tokens)[t]
  {
    if tokens != [] {
      var front, last := tokens[..|tokens| - 1], tokens[|tokens| - 1];
      OccursIs(front, t);
      assert tokens == front + [last];
    }
  }

  /** How often `t` occurs in each document that holds it, in document order. */
  function TfList(docs: seq<seq<bytes>>, t: bytes): seq<DocTf> {
    if docs == [] then []
    else
      var d, last := |docs| - 1, docs[|docs| - 1];
      TfList(docs[..d], t) + if t in last then [DocTf(d, Occurs(last, t))] else []
  }

  ghost function StatsOf(docs: seq<seq<bytes>>): Stats {
    map t | t in Inverted.KeysOf(docs) :: TfList(docs, t)
  }

  function Lens(docs: seq<seq<bytes>>): (ls: seq<nat>)
    ensures |ls| == |docs| && forall d :: 0 <= d < |docs| ==> ls[d] == |docs[d]|
  {
    seq(|docs|, d requires 0 <= d < |docs| => |docs[d]|)
  }

  /** The document's own count of each of its terms. */
  ghost predicate Counts(tf: map<bytes, nat>, tokens: seq<bytes>) {
    forall t :: (t in tf <==> t in tokens) && (t in tf ==> tf[t] == Occurs(tokens, t))
  }

  lemma CountsNext(tf: map<bytes, nat>, tokens: seq<bytes>, i: nat)
    requires i < |tokens| && Counts(tf, tokens[..i])
    ensures var t := tokens[i]; Counts(tf[t := (if t in tf then tf[t] else 0) + 1], tokens[..i + 1])
  {
    assert tokens[..i + 1][..i] == tokens[..i];
    assert forall x :: x in tokens[..i + 1] <==> x in tokens[..i] || x == tokens[i];
    var t := tokens[i];
    assert t !in tokens[..i] ==> Occurs(tokens[..i], t) == 0;
  }

  /** `stats` after the terms of `done` have been appended for the new document. */
  ghost predicate Appended(docs: seq<seq<bytes>>, tokens: seq<bytes>, done: set<bytes>, stats: Stats) {
    && (forall t :: t in stats <==> t in StatsOf(docs) || t in done)
    && (forall t :: t in stats ==> stats[t] == TfList(docs, t) + if t in done then [DocTf(|docs|, Occurs(tokens, t))]
        else [])
  }

  lemma NotHeld(docs: seq<seq<bytes>>, t: bytes)
    requires t !in StatsOf(docs)
    ensures TfList(docs, t) == []
    decreases |docs|
  {
    if docs != [] {
      var d := |docs| - 1;
      assert t !in docs[d];
      assert forall e: nat :: e < d ==> docs[..d][e] == docs[e];
      NotHeld(docs[..d], t);
    }
  }

  lemma AppendedNext(docs: seq<seq<bytes>>, tokens: seq<bytes>, done: set<bytes>, stats: Stats, t: bytes, n: nat)
    requires Appended(docs, tokens, done, stats) && t !in done && n == Occurs(tokens, t)
    ensures Appended(docs, tokens, done + {t}, stats[t := (if t in stats then stats[t] else []) + [DocTf(|docs|, n)]])
  {
    if t !in stats {
      NotHeld(docs, t);
    }
  }

  lemma AppendedAll(docs: seq<seq<bytes>>, tokens: seq<bytes>, done: set<bytes>, stats: Stats)
    requires Appended(docs, tokens, done, stats) && forall t :: t in done <==> t in tokens
    ensures stats == StatsOf(docs + [tokens])
  {
    var more := docs + [tokens];
    assert more[..|docs|] == docs;
    forall t ensures t in StatsOf(more) <==> t in StatsOf(docs) || t in tokens {
      Inverted.KeysMeans(more, t);
      Inverted.KeysMeans(docs, t);
      assert forall d: nat :: d < |docs| ==> more[d] == docs[d];
      assert more[|docs|] == tokens;
    }
    assert forall t :: t in stats ==> stats[t] == StatsOf(more)[t];
  }

  lemma NothingAppended(docs: seq<seq<bytes>>, tokens: seq<bytes>)
    ensures Appended(docs, tokens, {}, StatsOf(docs))
  {
  }

  class ImpactsAccumulator {
    var terms: Stats
    var docLens: seq<nat>
    var nextDoc: nat
    ghost var docs: seq<seq<bytes>>

    ghost predicate Valid()
      reads this
    {
      terms == StatsOf(docs) && docLens == Lens(docs) && nextDoc == |docs|
    }

    constructor ()
      ensures Valid() && docs == []
    {
      terms, docLens, nextDoc, docs := map[], [], 0, [];
    }

    /** Counts a tokenized document as the next one. */
    method AddDoc(tokens: seq<bytes>) returns (doc: nat)
      requires Valid()
      modifies this
      ensures Valid() && docs == old(docs) + [tokens] && doc == |old(docs)|
    {
      hide StatsOf, Counts, Appended;
      doc := nextDoc;
      nextDoc := nextDoc + 1;
      docLens := docLens + [|tokens|];
      var tf := CountTokens(tokens);
      var todo := tf.Keys;
      assert forall t ::
               (t in tf <==> t in tokens) && (t in tf ==> tf[t] == Occurs(tokens, t)) by { CountsMean(tf, tokens); }
      NothingAppended(docs, tokens);
      assert tf.Keys - todo == {};
      while todo != {}
        invariant todo <= tf.Keys && Appended(docs, tokens, tf.Keys - todo, terms)
        invariant docs == old(docs) && nextDoc == |docs| + 1 && docLens == Lens(docs) + [|tokens|]
        decreases todo
      {
        var t :| t in todo;
        AppendedNext(docs, tokens, tf.Keys - todo, terms, t, tf[t]);
        terms := terms[t := (if t in terms then terms[t] else []) + [DocTf(doc, tf[t])]];
        assert tf.Keys - (todo - {t}) == (tf.Keys - todo) + {t};
        todo := todo - {t};
      }
      AppendedAll(docs, tokens, tf.Keys - todo, terms);
      docs := docs + [tokens];
    }
  }

  method CountTokens(tokens: seq<bytes>) returns (tf: map<bytes, nat>)
    ensures Counts(tf, tokens)
  {
    hide Counts;
    tf := map[];
    assert Counts(tf, tokens[..0]) by { CountsNone(); }
    for i := 0 to |tokens|
      invariant Counts(tf, tokens[..i])
    {
      CountsNext(tf, tokens, i);
      tf := tf[tokens[i] := (if tokens[i] in tf then tf[tokens[i]] else 0) + 1];
    }
    assert tokens[..|tokens|] == tokens;
  }

  lemma CountsNone()
    ensures Counts(map[], [])
  {
  }

  lemma CountsMean(tf: map<bytes, nat>, tokens: seq<bytes>)
    requires Counts(tf, tokens)
    ensures forall t :: (t in tf <==> t in tokens) && (t in tf ==> tf[t] == Occurs(tokens, t))
  {
  }

  // ----- the statistics list a term's posting in order -----

  function DocsOf(tfs: seq<DocTf>): (q: seq<nat>)
    ensures |q| == |tfs| && forall i :: 0 <= i < |tfs| ==> q[i] == tfs[i].doc
  {
    seq(|tfs|, i requires 0 <= i < |tfs| => tfs[i].doc)
  }

  lemma {:induction false} TfListDocs(docs: seq<seq<bytes>>, t: bytes)
    ensures Ordered.Lists(DocsOf(TfList(docs, t)), Inverted.Holding(docs, t))
    ensures forall e :: e in TfList(docs, t) ==> e.doc < |docs| && e.tf == Occurs(docs[e.doc], t)
    decreases |docs|
  {
    if docs != [] {
      var d := |docs| - 1;
      var front, tfs := docs[..d], TfList(docs[..d], t);
      TfListDocs(front, t);
      assert forall e: nat :: e < d ==> front[e] == docs[e];
      var more := if t in docs[d] then [DocTf(d, Occurs(docs[d], t))] else [];
      assert DocsOf(tfs + more) == DocsOf(tfs) + DocsOf(more);
      forall i | 0 <= i < |tfs| ensures DocsOf(tfs)[i] < d {
        assert tfs[i] in tfs;
      }
      assert docs == front + [docs[d]];
      Inverted.HoldingStep(front, docs[d], t);
      assert DocsOf(more) == if t in docs[d] then [d] else [];
      assert Ordered.Lists(DocsOf(tfs) + DocsOf(more), Inverted.Holding(docs, t));
    }
  }

  /** The documents of a term's statistics are its posting's, in posting order. */
  lemma StatsFollowPosting(docs: seq<seq<bytes>>, t: bytes)
    ensures DocsOf(TfList(docs, t)) == Ordered.Ascending(Inverted.Holding(docs, t))
  {
    TfListDocs(docs, t);
    Ordered.AscendingUnique(Inverted.Holding(docs, t), DocsOf(TfList(docs, t)));
  }

  /** The `j`-th document of a term's statistics is the `j`-th of its posting. */
  lemma TfAtRank(docs: seq<seq<bytes>>, t: bytes, d: nat)
    requires d in Inverted.Holding(docs, t)
    ensures var j := Ordered.Rank(Inverted.Holding(docs, t), d) - 1;
            0 <= j < |TfList(docs, t)| && TfList(docs, t)[j] == DocTf(d, Occurs(docs[d], t))
  {
    hide Ordered.Rank, Ordered.Ascending, Ordered.Lists;
    var j := Ordered.Rank(Inverted.Holding(docs, t), d) - 1;
    Ordered.RankIsPosition(Inverted.Holding(docs, t), d);
    StatsFollowPosting(docs, t);
    TfListDocs(docs, t);
    var tfs := TfList(docs, t);
    assert DocsOf(tfs)[j] == d;
    assert tfs[j] in tfs;
  }
}
