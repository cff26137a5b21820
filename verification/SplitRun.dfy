/** A greedy split builder's run, whatever it indexes: the state it keeps, related to the documents
    it was given. The trigram and the term builder (splitsetbuild.go, termsplitsetbuild.go) differ
    only in the rules. */
module SplitRun {
  import opened Bytes
  import opened Inverted
  import opened Splits
  import Ordered

  /** When a document overflows a split of tier `t`, what a split's file is, and the running
      byte count of an open index. */
  datatype Rules<!K> = Rules(tiered: bool, over: (seq<seq<K>>, seq<K>, nat) -> bool, blob: seq<seq<K>> -> bytes,
                             up: Postings<K> -> nat)

  datatype State<K> = State(open: Postings<K>, openCount: nat, globalBase: nat, nextId: nat, up: nat, specs: seq<Spec>,
                            blobs: seq<bytes>)

  /** Every document after the first fitted when it was added: the split is as long as the cap allows. */
  ghost predicate Fitted<K>(r: Rules<K>, part: seq<seq<K>>, tier: nat) {
    forall j :: 1 <= j < |part| ==> !r.over(part[..j], part[j], tier)
  }

  /** The open map is the index of the documents of `part`, each of which fitted. */
  ghost predicate OpenWell<K>(r: Rules<K>, part: seq<seq<K>>, open: Postings<K>, up: nat, tier: nat) {
    open == IndexOf(part) && up == r.up(open) && Fitted(r, part, tier)
  }

  /** Split `i` is the index of the documents its row names, no document of it overflowed it, and
      it was closed by one that did, unless it was sealed on request. */
  ghost predicate SealedWell<K>(r: Rules<K>, docs: seq<seq<K>>, forced: set<nat>, row: Spec, blob: bytes, i: nat) {
    var part := Covered(docs, row);
    && part != []
    && blob == r.blob(part)
    && row == RowOf(r.tiered, i, row.docIdLo, |part|, |blob|)
    && Fitted(r, part, i)
    && (i !in forced ==> row.docIdHi + 1 < |docs| && r.over(part, docs[row.docIdHi + 1], i))
  }

  ghost predicate AllSealedWell<K>(r: Rules<K>, docs: seq<seq<K>>, forced: set<nat>, specs: seq<Spec>,
                                   blobs: seq<bytes>) {
    forall i :: 0 <= i < |specs| && i < |blobs| ==> SealedWell(r, docs, forced, specs[i], blobs[i], i)
  }

  /** What every run keeps: splits tile the documents before the open ones, each split is the
      index of its documents, and the open map is the index of the rest. */
  ghost predicate Consistent<K>(r: Rules<K>, docs: seq<seq<K>>, forced: set<nat>, s: State<K>) {
    && s.nextId == |docs| == s.globalBase + s.openCount
    && Tiles(s.specs, s.globalBase) && |s.blobs| == |s.specs|
    && OpenWell(r, docs[s.globalBase..], s.open, s.up, |s.specs|)
    && AllSealedWell(r, docs, forced, s.specs, s.blobs)
  }

  lemma StateMeans<K>(r: Rules<K>, docs: seq<seq<K>>, forced: set<nat>, s: State<K>)
    requires Consistent(r, docs, forced, s)
    ensures s.nextId == |docs| == s.globalBase + s.openCount && |s.blobs| == |s.specs| && Tiles(s.specs, s.globalBase)
  {
  }

  lemma OpenMeans<K>(r: Rules<K>, docs: seq<seq<K>>, forced: set<nat>, s: State<K>)
    requires Consistent(r, docs, forced, s)
    ensures s.globalBase <= |docs| && s.open == IndexOf(docs[s.globalBase..]) && s.up == r.up(s.open)
  {
    hide AllSealedWell;
  }

  lemma StartsConsistent<K>(r: Rules<K>)
    requires r.up(map[]) == 0
    ensures Consistent(r, [], {}, State(map[], 0, 0, 0, 0, [], []))
  {
    IndexEmpty<K>();
  }

  // ----- sealing -----

  ghost function AfterSeal<K>(tiered: bool, s: State<K>, blob: bytes): State<K>
    requires s.openCount > 0
  {
    State(map[], 0, s.nextId, s.nextId, 0,
          s.specs + [RowOf(tiered, |s.specs|, s.globalBase, s.openCount, |blob|)], s.blobs + [blob])
  }

  lemma SealsOne<K>(r: Rules<K>, docs: seq<seq<K>>, forced: set<nat>, specs: seq<Spec>, blobs: seq<bytes>, base: nat,
                    row: Spec, blob: bytes)
    requires |specs| == |blobs| && AllSealedWell(r, docs, forced, specs, blobs)
    requires base < |docs| && Fitted(r, docs[base..], |specs|)
    requires blob == r.blob(docs[base..]) && row == RowOf(r.tiered, |specs|, base, |docs| - base, |blob|)
    ensures AllSealedWell(r, docs, forced + {|specs|}, specs + [row], blobs + [blob])
  {
    hide Fitted, IndexOf;
    assert Covered(docs, row) == docs[base..];
    assert SealedWell(r, docs, forced + {|specs|}, row, blob, |specs|);
    forall j | 0 <= j < |specs| ensures SealedWell(r, docs, forced + {|specs|}, specs[j], blobs[j], j) {
      assert SealedWell(r, docs, forced, specs[j], blobs[j], j);
    }
  }

  lemma SealPremise<K>(r: Rules<K>, part: seq<seq<K>>, s: State<K>)
    requires OpenWell(r, part, s.open, s.up, |s.specs|)
    ensures Fitted(r, part, |s.specs|)
  {
  }

  lemma NothingOpen<K>(r: Rules<K>, docs: seq<seq<K>>, tier: nat)
    requires r.up(map[]) == 0
    ensures OpenWell(r, docs[|docs|..], map[], 0, tier)
  {
    IndexEmpty<K>();
  }

  /** Sealing what is open keeps the state consistent. */
  lemma SealStep<K>(r: Rules<K>, docs: seq<seq<K>>, forced: set<nat>, s: State<K>, blob: bytes)
    requires Consistent(r, docs, forced, s) && s.openCount > 0 && blob == r.blob(docs[s.globalBase..])
             && r.up(map[]) == 0
    ensures Consistent(r, docs, forced + {|s.specs|}, AfterSeal(r.tiered, s, blob))
  {
    hide IndexOf, Tiles, AllSealedWell;
    SealPremise(r, docs[s.globalBase..], s);
    var row := RowOf(r.tiered, |s.specs|, s.globalBase, s.openCount, |blob|);
    hide OpenWell;
    TilesAppend(s.specs, s.globalBase, row);
    NothingOpen(r, docs, |s.specs| + 1);
    SealsOne(r, docs, forced, s.specs, s.blobs, s.globalBase, row, blob);
  }

  /** The split just sealed, while the next document still overflows it, needs no request. */
  lemma JustSealed<K>(r: Rules<K>, docs: seq<seq<K>>, forced: set<nat>, s: State<K>, keys: seq<K>, blob: bytes)
    requires Consistent(r, docs, forced, s) && s.openCount > 0 && r.over(docs[s.globalBase..], keys, |s.specs|)
    ensures var specs := AfterSeal(r.tiered, s, blob).specs;
            forall i :: 0 <= i < |specs| && i in forced + {|s.specs|} && i !in forced ==>
              specs[i].docIdHi + 1 == |docs| && r.over(Covered(docs, specs[i]), keys, i)
  {
    hide OpenWell, AllSealedWell, Tiles;
    var row := AfterSeal(r.tiered, s, blob).specs[|s.specs|];
    assert Covered(docs, row) == docs[s.globalBase..];
  }

  // ----- adding a document -----

  lemma AllWithin(specs: seq<Spec>, end: nat, bound: nat)
    requires Tiles(specs, end) && end <= bound
    ensures forall i :: 0 <= i < |specs| ==> specs[i].docIdLo <= specs[i].docIdHi < bound
  {
    forall i | 0 <= i < |specs| ensures specs[i].docIdLo <= specs[i].docIdHi < bound {
      TilesWithin(specs, end, i);
    }
  }

  lemma EarlierSplits<K>(r: Rules<K>, docs: seq<seq<K>>, forced: set<nat>, keys: seq<K>, kept: set<nat>,
                         specs: seq<Spec>, blobs: seq<bytes>)
    requires AllSealedWell(r, docs, forced, specs, blobs)
    requires forall i :: 0 <= i < |specs| && i in forced && i !in kept ==>
               specs[i].docIdHi + 1 == |docs| && r.over(Covered(docs, specs[i]), keys, i)
    requires forall i :: 0 <= i < |specs| ==> specs[i].docIdLo <= specs[i].docIdHi < |docs|
    ensures AllSealedWell(r, docs + [keys], kept, specs, blobs)
  {
    hide Fitted;
    forall i | 0 <= i < |specs| && i < |blobs| ensures SealedWell(r, docs + [keys], kept, specs[i], blobs[i], i) {
      assert SealedWell(r, docs, forced, specs[i], blobs[i], i);
      assert Covered(docs + [keys], specs[i]) == Covered(docs, specs[i]);
    }
  }

  lemma GrownFitted<K>(r: Rules<K>, part: seq<seq<K>>, keys: seq<K>, tier: nat)
    requires Fitted(r, part, tier) && (part == [] || !r.over(part, keys, tier))
    ensures Fitted(r, part + [keys], tier)
  {
    var more := part + [keys];
    forall j | 1 <= j < |more| ensures !r.over(more[..j], more[j], tier) {
      if j < |part| {
        assert more[..j] == part[..j] && more[j] == part[j];
      } else {
        assert more[..j] == part && more[j] == keys;
      }
    }
  }

  lemma GrownPart<K>(r: Rules<K>, part: seq<seq<K>>, keys: seq<K>, tier: nat, before: Postings<K>, up: nat,
                     open: Postings<K>, after: nat)
    requires OpenWell(r, part, before, up, tier) && open == Insert(before, |part|, keys) && after == r.up(open)
    requires part == [] || !r.over(part, keys, tier)
    ensures OpenWell(r, part + [keys], open, after, tier)
  {
    IndexStep(part, keys);
    hide Fitted, IndexOf, Insert;
    GrownFitted(r, part, keys, tier);
  }

  ghost function AfterAdd<K>(s: State<K>, open: Postings<K>, up: nat): State<K> {
    s.(open := open, openCount := s.openCount + 1, nextId := s.nextId + 1, up := up)
  }

  /** Adding a document that fits, or that starts a new split, keeps the state consistent. */
  lemma AddStep<K>(r: Rules<K>, docs: seq<seq<K>>, forced: set<nat>, kept: set<nat>, s: State<K>, keys: seq<K>,
                   open: Postings<K>, up: nat)
    requires Consistent(r, docs, forced, s) && open == Insert(s.open, s.openCount, keys) && up == r.up(open)
    requires s.openCount > 0 ==> !r.over(docs[s.globalBase..], keys, |s.specs|)
    requires forall i :: 0 <= i < |s.specs| && i in forced && i !in kept ==>
               s.specs[i].docIdHi + 1 == |docs| && r.over(Covered(docs, s.specs[i]), keys, i)
    ensures Consistent(r, docs + [keys], kept, AfterAdd(s, open, up))
  {
    hide OpenWell, IndexOf, Tiles, AllSealedWell;
    var part := docs[s.globalBase..];
    assert (docs + [keys])[s.globalBase..] == part + [keys];
    AllWithin(s.specs, s.globalBase, |docs|);
    EarlierSplits(r, docs, forced, keys, kept, s.specs, s.blobs);
    GrownPart(r, part, keys, |s.specs|, s.open, s.up, open, up);
  }

  /** The rows of a run: tiers count the splits up to what 16 bits hold, or are all zero; each row
      counts its documents and the bytes of its file. */
  lemma RowsMean<K>(r: Rules<K>, docs: seq<seq<K>>, forced: set<nat>, s: State<K>, i: nat)
    requires Consistent(r, docs, forced, s) && i < |s.specs|
    ensures var row := s.specs[i];
            && row.tier == (if r.tiered then (if i <= 65535 then i else 65535) else 0)
            && row.docIdLo <= row.docIdHi && row.docCount == row.docIdHi - row.docIdLo + 1
            && |s.blobs| == |s.specs| && row.byteSize == |s.blobs[i]|
  {
    hide OpenWell, Fitted;
    assert SealedWell(r, docs, forced, s.specs[i], s.blobs[i], i);
  }

  // ----- what a run has answered and decided -----

  /** Conservation over every run: the documents of a key are exactly those in the sealed splits'
      postings, rebased, and in the open one's. */
  lemma RunConserves<K>(r: Rules<K>, docs: seq<seq<K>>, forced: set<nat>, s: State<K>, k: K, d: nat)
    requires Consistent(r, docs, forced, s)
    ensures d in Holding(docs, k)
            <==> (exists i :: 0 <= i < |s.specs| && InSplit(docs, s.specs[i], k, d))
                 || (d >= s.globalBase && d - s.globalBase in At(s.open, k))
  {
    hide AllSealedWell, InSplit, Fitted;
    Conserved(docs, s.specs, s.globalBase, k, d);
  }

  /** A strict AND over a finished split set, split by split in order, is the AND over the corpus. */
  lemma FinishedAnd<K>(r: Rules<K>, docs: seq<seq<K>>, forced: set<nat>, s: State<K>, keys: seq<K>)
    requires Consistent(r, docs, forced, s) && s.openCount == 0
    ensures AndBySplit(docs, s.specs, keys) == Ordered.Ascending(Inverted.Matching(docs, keys))
  {
    StateMeans(r, docs, forced, s);
    AndBySplitIsAnd(docs, s.specs, s.globalBase, keys);
    assert MatchingIn(docs, keys, 0, |docs|) == Inverted.Matching(docs, keys);
  }

  ghost function Boundary(specs: seq<Spec>, i: nat): nat {
    if 0 < i <= |specs| then specs[i - 1].docIdHi + 1 else 0
  }

  /** What consistency says of split `i` of a run that only adds documents. */
  lemma SplitFacts<K>(r: Rules<K>, docs: seq<seq<K>>, s: State<K>, i: nat)
    requires Consistent(r, docs, {}, s) && i < |s.specs|
    ensures |s.blobs| == |s.specs|
    ensures var a := s.specs[i];
            && a.docIdLo == Boundary(s.specs, i) <= a.docIdHi < |docs| - 1
            && s.blobs[i] == r.blob(docs[a.docIdLo..a.docIdHi + 1])
            && a == RowOf(r.tiered, i, a.docIdLo, a.docIdHi + 1 - a.docIdLo, |s.blobs[i]|)
            && Fitted(r, docs[a.docIdLo..a.docIdHi + 1], i)
            && r.over(docs[a.docIdLo..a.docIdHi + 1], docs[a.docIdHi + 1], i)
  {
    hide OpenWell, Fitted;
    assert SealedWell(r, docs, {}, s.specs[i], s.blobs[i], i);
  }

  /** A document that follows a proper prefix of a fitted split did not overflow it. */
  lemma PrefixFits<K>(r: Rules<K>, docs: seq<seq<K>>, lo: nat, mid: nat, end: nat, tier: nat)
    requires lo < mid < end <= |docs| && Fitted(r, docs[lo..end], tier)
    ensures !r.over(docs[lo..mid], docs[mid], tier)
  {
    var part, j := docs[lo..end], mid - lo;
    assert part[..j] == docs[lo..mid] && part[j] == docs[mid];
  }

  lemma SameSplit<K>(r: Rules<K>, docs: seq<seq<K>>, s: State<K>, t: State<K>, i: nat)
    requires Consistent(r, docs, {}, s) && Consistent(r, docs, {}, t)
    requires i < |s.specs| && i < |t.specs| && Boundary(s.specs, i) == Boundary(t.specs, i)
    ensures |s.blobs| == |s.specs| && |t.blobs| == |t.specs|
    ensures s.specs[i] == t.specs[i] && s.blobs[i] == t.blobs[i] && Boundary(s.specs, i + 1) == Boundary(t.specs, i + 1)
  {
    hide Fitted, Consistent;
    SplitFacts(r, docs, s, i);
    SplitFacts(r, docs, t, i);
    var a, b := s.specs[i], t.specs[i];
    if a.docIdHi < b.docIdHi {
      PrefixFits(r, docs, a.docIdLo, a.docIdHi + 1, b.docIdHi + 1, i);
    } else if b.docIdHi < a.docIdHi {
      PrefixFits(r, docs, a.docIdLo, b.docIdHi + 1, a.docIdHi + 1, i);
    }
  }

  lemma {:induction false} SameSplits<K>(r: Rules<K>, docs: seq<seq<K>>, s: State<K>, t: State<K>, n: nat)
    requires Consistent(r, docs, {}, s) && Consistent(r, docs, {}, t)
    requires n <= |s.specs| == |s.blobs| && n <= |t.specs| == |t.blobs|
    ensures s.specs[..n] == t.specs[..n] && s.blobs[..n] == t.blobs[..n] && Boundary(s.specs, n) == Boundary(t.specs, n)
  {
    hide Consistent;
    if n > 0 {
      SameSplits(r, docs, s, t, n - 1);
      SameSplit(r, docs, s, t, n - 1);
    }
  }

  /** What consistency says of what is still open. */
  lemma OpenFacts<K>(r: Rules<K>, docs: seq<seq<K>>, s: State<K>)
    requires Consistent(r, docs, {}, s)
    ensures s.globalBase == Boundary(s.specs, |s.specs|) <= |docs| && |s.blobs| == |s.specs|
    ensures Fitted(r, docs[s.globalBase..|docs|], |s.specs|)
    ensures s == State(IndexOf(docs[s.globalBase..]), |docs| - s.globalBase, s.globalBase, |docs|,
                       r.up(IndexOf(docs[s.globalBase..])), s.specs, s.blobs)
  {
    hide IndexOf, Fitted, AllSealedWell;
    assert docs[s.globalBase..|docs|] == docs[s.globalBase..];
  }

  /** What is still open cannot hold a split that an overflow would have closed. */
  lemma NoMoreSplits<K>(r: Rules<K>, docs: seq<seq<K>>, s: State<K>, t: State<K>)
    requires Consistent(r, docs, {}, s) && Consistent(r, docs, {}, t)
    requires Boundary(s.specs, |s.specs|) == Boundary(t.specs, |s.specs|)
    ensures |s.specs| >= |t.specs|
  {
    hide Fitted, Consistent, IndexOf;
    OpenFacts(r, docs, s);
    var i := |s.specs|;
    if i < |t.specs| {
      SplitFacts(r, docs, t, i);
      PrefixFits(r, docs, s.globalBase, t.specs[i].docIdHi + 1, |docs|, i);
    }
  }

  lemma SameState<K>(r: Rules<K>, docs: seq<seq<K>>, s: State<K>, t: State<K>)
    requires Consistent(r, docs, {}, s) && Consistent(r, docs, {}, t) && |s.specs| <= |t.specs|
    ensures s == t
  {
    hide Consistent, Fitted;
    OpenFacts(r, docs, s);
    OpenFacts(r, docs, t);
    SameSplits(r, docs, s, t, |s.specs|);
    NoMoreSplits(r, docs, s, t);
  }

  /** Two runs that only add documents, the same ones, end in the same state: where the splits
      lie, and every byte of them, depends on the documents alone. */
  lemma AddsDetermine<K>(r: Rules<K>, docs: seq<seq<K>>, s: State<K>, t: State<K>)
    requires Consistent(r, docs, {}, s) && Consistent(r, docs, {}, t)
    ensures s == t
  {
    hide Consistent;
    if |s.specs| <= |t.specs| {
      SameState(r, docs, s, t);
    } else {
      SameState(r, docs, t, s);
    }
  }
}
