/** The greedy, byte-capped split builder (splitsetbuild.go), without facets and Bloom filters. */
module SplitBuilder {
  import opened Wrappers
  import opened Bytes
  import opened Inverted
  import opened Splits
  import opened SplitRun
  import RangeIndex
  import Ordered

  const NEW_KEY := 64
  const ELEMENT := 2

  datatype Config = Config(tiered: bool, byteCap: nat, capMax: nat, gram: nat, stride: nat, fold: bool)

  function Stride(cfg: Config): (s: nat)
    ensures s > 0
  {
    if cfg.stride == 0 then RangeIndex.DEFAULT_STRIDE else cfg.stride
  }

  function Cap(cfg: Config, tier: nat): nat {
    CapFor(cfg.byteCap, cfg.capMax, tier)
  }

  // ----- the seal arithmetic -----

  /** How many of the listed keys the index lacks; a key listed twice counts twice. */
  function NewKeys(p: Postings<nat>, keys: seq<nat>): (n: nat)
    ensures n <= |keys|
  {
    if keys == [] then 0
    else NewKeys(p, keys[..|keys| - 1]) + if keys[|keys| - 1] in p then 0 else 1
  }

  function Marginal(p: Postings<nat>, keys: seq<nat>): nat {
    NewKeys(p, keys) * NEW_KEY + |keys| * ELEMENT
  }

  function EstimateOf(stride: nat, nkeys: nat, postingsUp: nat): nat {
    20 + nkeys * NEW_KEY + RangeIndex.SparseCount(nkeys, stride) * 8 + postingsUp
  }

  /** The estimate of the split that would hold `p`. */
  ghost function Estimate(cfg: Config, p: Postings<nat>): nat {
    EstimateOf(Stride(cfg), |p|, ELEMENT * Elements(p))
  }

  /** Adding a document with these keys would take the estimate past the tier's cap. */
  ghost predicate Overflows(cfg: Config, part: seq<seq<nat>>, keys: seq<nat>, tier: nat) {
    Estimate(cfg, IndexOf(part)) + Marginal(IndexOf(part), keys) > Cap(cfg, tier)
  }

  function Front<T>(q: seq<T>): seq<T> {
    if q == [] then [] else q[..|q| - 1]
  }

  /** What the insertion loop has done after the first `i` keys of document `d`. */
  ghost predicate Inserted(p: Postings<nat>, d: nat, keys: seq<nat>, i: nat, now: Postings<nat>, added: int) {
    && i <= |keys| && now == Insert(p, d, keys[..i])
    && 0 <= added == Elements(now) - Elements(p) <= i
  }

  lemma InsertedStart(p: Postings<nat>, d: nat, keys: seq<nat>)
    ensures Inserted(p, d, keys, 0, p, 0)
  {
    assert keys[..0] == [];
    InsertNothing(p, d);
  }

  lemma InsertedStep(p: Postings<nat>, d: nat, keys: seq<nat>, i: nat, now: Postings<nat>, added: int)
    requires Inserted(p, d, keys, i, now, added) && i < |keys|
    ensures var k := keys[i];
            var next := now[k := At(now, k) + {d}];
            Inserted(p, d, keys, i + 1, next, if d in At(now, k) then added else added + 1)
  {
    var k := keys[i];
    var next := now[k := At(now, k) + {d}];
    assert keys[..i + 1] == keys[..i] + [k];
    InsertNext(p, d, keys[..i], k);
    hide Insert, Elements;
    if d in At(now, k) {
      PutSame(now, k, d);
    } else {
      ElementsPut(now, k, d);
    }
  }

  lemma PutSame(p: Postings<nat>, k: nat, d: nat)
    requires d in At(p, k)
    ensures p[k := At(p, k) + {d}] == p
  {
    assert At(p, k) + {d} == At(p, k);
  }

  lemma {:induction false} KeysGrow(p: Postings<nat>, keys: seq<nat>)
    ensures |p.Keys + KeySet(keys)| <= |p.Keys| + NewKeys(p, keys)
    decreases |keys|
  {
    if keys == [] {
      assert p.Keys + KeySet(keys) == p.Keys;
    } else {
      var front, k := keys[..|keys| - 1], keys[|keys| - 1];
      KeysGrow(p, front);
      assert forall x :: x in keys <==> x in front || x == k;
      if k in p {
        assert p.Keys + KeySet(keys) == p.Keys + KeySet(front);
      } else {
        assert p.Keys + KeySet(keys) == p.Keys + KeySet(front) + {k};
      }
    }
  }

  lemma InsertedSize(p: Postings<nat>, d: nat, keys: seq<nat>)
    ensures |Insert(p, d, keys)| <= |p| + NewKeys(p, keys)
  {
    KeysGrow(p, keys);
    assert Insert(p, d, keys).Keys == p.Keys + KeySet(keys);
    assert |Insert(p, d, keys)| == |Insert(p, d, keys).Keys|;
  }

  lemma SparseSum(a: nat, b: nat, stride: nat)
    requires stride > 0
    ensures RangeIndex.SparseCount(a + b, stride) <= RangeIndex.SparseCount(a, stride)
            + RangeIndex.SparseCount(b, stride)
  {
    hide RangeIndex.SparseCount;
    var x, y := RangeIndex.SparseCount(a, stride), RangeIndex.SparseCount(b, stride);
    RangeIndex.SparseCountMeans(a, stride, x);
    RangeIndex.SparseCountMeans(b, stride, y);
    Distribute(x, y, stride);
    RangeIndex.SparseCountMeans(a + b, stride, x + y);
  }

  lemma Distribute(x: nat, y: nat, c: nat)
    ensures (x + y) * c == x * c + y * c
  {
  }

  lemma SparseMonotone(a: nat, b: nat, stride: nat)
    requires stride > 0 && a <= b
    ensures RangeIndex.SparseCount(a, stride) <= RangeIndex.SparseCount(b, stride)
  {
    hide RangeIndex.SparseCount;
    RangeIndex.SparseCountMeans(b, stride, RangeIndex.SparseCount(b, stride));
    RangeIndex.SparseCountMeans(a, stride, RangeIndex.SparseCount(b, stride));
  }

  lemma EstimateArithmetic(stride: nat, n: nat, m: nat, after: nat, e: nat, more: nat, count: nat)
    requires stride > 0 && after <= n + m && more <= e + count
    ensures EstimateOf(stride, after, ELEMENT * more)
            <= EstimateOf(stride, n, ELEMENT * e) + (m * NEW_KEY + count * ELEMENT)
              + 8 * RangeIndex.SparseCount(m, stride)
  {
    hide RangeIndex.SparseCount;
    SparseSum(n, m, stride);
    SparseMonotone(after, n + m, stride);
  }

  /** A split of several documents is past its cap by no more than the sparse index of its
      last document's new keys. */
  ghost predicate Bounded(cfg: Config, part: seq<seq<nat>>, tier: nat) {
    |part| >= 2 ==>
      Estimate(cfg, IndexOf(part))
      <= Cap(cfg, tier) + 8 * RangeIndex.SparseCount(NewKeys(IndexOf(Front(part)), part[|part| - 1]), Stride(cfg))
  }

  /** The estimate grows by at most the marginal charge and the sparse growth it leaves out. */
  lemma EstimateGrowth(cfg: Config, p: Postings<nat>, d: nat, keys: seq<nat>)
    requires Elements(p) <= Elements(Insert(p, d, keys)) <= Elements(p) + |keys|
    ensures Estimate(cfg, Insert(p, d, keys))
            <= Estimate(cfg, p) + Marginal(p, keys) + 8 * RangeIndex.SparseCount(NewKeys(p, keys), Stride(cfg))
  {
    hide RangeIndex.SparseCount, Insert, Elements, NewKeys, EstimateOf;
    InsertedSize(p, d, keys);
    EstimateArithmetic(Stride(cfg), |p|, NewKeys(p, keys), |Insert(p, d, keys)|, Elements(p),
                       Elements(Insert(p, d, keys)), |keys|);
  }

  // ----- the rules of a trigram split set -----

  /** The file of a split that holds these documents. */
  ghost function BlobOf(cfg: Config, codec: Codec, part: seq<seq<nat>>): bytes {
    RangeIndex.FileOf(cfg.gram, Stride(cfg), RangeIndex.EntriesOf(Serialized(codec, IndexOf(part))), cfg.fold)
  }

  ghost function RulesOf(cfg: Config, codec: Codec): Rules<nat> {
    Rules(cfg.tiered, (part, keys, tier) => Overflows(cfg, part, keys, tier), part => BlobOf(cfg, codec, part),
          p => ELEMENT * Elements(p))
  }

  // ----- the builder -----

  lemma NewKeysNext(p: Postings<nat>, keys: seq<nat>, i: nat)
    requires i < |keys|
    ensures NewKeys(p, keys[..i + 1]) == NewKeys(p, keys[..i]) + if keys[i] in p then 0 else 1
  {
    assert keys[..i + 1][..i] == keys[..i];
  }

  lemma Unindexed(cfg: Config, codec: Codec)
    ensures RulesOf(cfg, codec).up(map[]) == 0
  {
  }

  lemma OverflowMeans(cfg: Config, codec: Codec, docs: seq<seq<nat>>, forced: set<nat>, s: State<nat>, keys: seq<nat>)
    requires Consistent(RulesOf(cfg, codec), docs, forced, s)
    ensures s.globalBase <= |docs|
    ensures RulesOf(cfg, codec).over(docs[s.globalBase..], keys, |s.specs|)
            <==> EstimateOf(Stride(cfg), |s.open|, s.up) + Marginal(s.open, keys) > Cap(cfg, |s.specs|)
    ensures EstimateOf(Stride(cfg), |s.open|, s.up) == Estimate(cfg, s.open)
  {
    hide Consistent;
    OpenMeans(RulesOf(cfg, codec), docs, forced, s);
  }

  lemma OpenBlob(cfg: Config, codec: Codec, docs: seq<seq<nat>>, forced: set<nat>, s: State<nat>)
    requires Consistent(RulesOf(cfg, codec), docs, forced, s)
    ensures s.globalBase <= |docs|
    ensures RulesOf(cfg, codec).blob(docs[s.globalBase..])
            == RangeIndex.FileOf(cfg.gram, Stride(cfg), RangeIndex.EntriesOf(Serialized(codec, s.open)), cfg.fold)
  {
    hide Consistent;
    OpenMeans(RulesOf(cfg, codec), docs, forced, s);
  }

  lemma OpenSeals(cfg: Config, codec: Codec, docs: seq<seq<nat>>, forced: set<nat>, s: State<nat>, blob: bytes)
    requires Consistent(RulesOf(cfg, codec), docs, forced, s) && s.openCount > 0
    requires blob == RangeIndex.FileOf(cfg.gram, Stride(cfg), RangeIndex.EntriesOf(Serialized(codec, s.open)), cfg.fold)
    ensures Consistent(RulesOf(cfg, codec), docs, forced + {|s.specs|}, AfterSeal(cfg.tiered, s, blob))
    ensures s.nextId == s.globalBase + s.openCount
  {
    hide Consistent, RulesOf, Tiles, RangeIndex.FileOf;
    RulesMean(cfg, codec);
    Unindexed(cfg, codec);
    OpenBlob(cfg, codec, docs, forced, s);
    StateMeans(RulesOf(cfg, codec), docs, forced, s);
    SealStep(RulesOf(cfg, codec), docs, forced, s, blob);
  }

  class SplitSetBuilder {
    const cfg: Config
    const codec: Codec
    var open: Postings<nat>
    var openCount: nat
    var globalBase: nat
    var nextGlobalID: nat
    var postingsUp: nat
    var specs: seq<Spec>
    var blobs: seq<bytes>
    ghost var docs: seq<seq<nat>>
    ghost var forced: set<nat>

    ghost function Now(): State<nat>
      reads this
    {
      State(open, openCount, globalBase, nextGlobalID, postingsUp, specs, blobs)
    }

    ghost predicate Valid()
      reads this
    {
      Consistent(RulesOf(cfg, codec), docs, forced, Now())
    }

    constructor (cfg: Config, codec: Codec)
      ensures Valid() && this.cfg == cfg && this.codec == codec && docs == [] && forced == {}
    {
      this.cfg, this.codec := cfg, codec;
      open, openCount, globalBase, nextGlobalID, postingsUp, specs, blobs := map[], 0, 0, 0, 0, [], [];
      docs, forced := [], {};
      Unindexed(cfg, codec);
      StartsConsistent(RulesOf(cfg, codec));
    }

    /** Appends a document and returns its ID, sealing the open split first when the document
        would take the estimate past the cap. Splits already sealed never change. */
    method AddKeys(keys: seq<nat>) returns (id: nat)
      requires Valid()
      modifies this
      ensures Valid() && docs == old(docs) + [keys] && id == |old(docs)| && forced == old(forced)
      ensures old(specs) <= specs && old(blobs) <= blobs
    {
      hide Consistent, Tiles, RulesOf, Insert;
      MakeRoom(keys);
      ghost var ready := Now();
      StateMeans(RulesOf(cfg, codec), docs, forced, ready);
      UpMeans(cfg, codec, docs, forced, ready);
      InsertKeys(keys);
      openCount := openCount + 1;
      id := nextGlobalID;
      nextGlobalID := nextGlobalID + 1;
      AddStep(RulesOf(cfg, codec), docs, forced, old(forced), ready, keys, open, postingsUp);
      docs := docs + [keys];
      forced := old(forced);
    }

    /** Seals the open split when `keys` would overflow it. */
    method MakeRoom(keys: seq<nat>)
      requires Valid()
      modifies this
      ensures Valid() && docs == old(docs) && nextGlobalID == old(nextGlobalID)
      ensures old(specs) <= specs && old(blobs) <= blobs && globalBase <= |docs|
      ensures openCount > 0 ==> !RulesOf(cfg, codec).over(docs[globalBase..], keys, |specs|)
      ensures forall i :: 0 <= i < |specs| && i in forced && i !in old(forced) ==>
                specs[i].docIdHi + 1 == |docs| && RulesOf(cfg, codec).over(Covered(docs, specs[i]), keys, i)
      ensures old(openCount) > 0 ==>
                (openCount == 0 <==> Estimate(cfg, old(open)) + Marginal(old(open), keys) > Cap(cfg, |old(specs)|))
      ensures old(openCount) > 0 && cfg.capMax == 0 ==>
                (openCount == 0 <==> Estimate(cfg, old(open)) + Marginal(old(open), keys) > cfg.byteCap)
    {
      hide Consistent, Tiles, RulesOf, EstimateOf, Estimate;
      ghost var before := Now();
      var newKeys := CountNew(keys);
      var marginal := newKeys * NEW_KEY + |keys| * ELEMENT;
      StateMeans(RulesOf(cfg, codec), docs, forced, before);
      OverflowMeans(cfg, codec, docs, forced, before, keys);
      RulesMean(cfg, codec);
      if openCount > 0 && EstimateOf(Stride(cfg), |open|, postingsUp) + marginal > Cap(cfg, |specs|) {
        Seal();
        JustSealed(RulesOf(cfg, codec), docs, old(forced), before, keys, blobs[|blobs| - 1]);
        StateMeans(RulesOf(cfg, codec), docs, forced, Now());
      }
    }

    method CountNew(keys: seq<nat>) returns (n: nat)
      ensures n == NewKeys(open, keys)
    {
      n := 0;
      for i := 0 to |keys|
        invariant n == NewKeys(open, keys[..i])
      {
        NewKeysNext(open, keys, i);
        if keys[i] !in open {
          n := n + 1;
        }
      }
      assert keys[..|keys|] == keys;
    }

    /** Records the open document under each key, counting the postings that grow. */
    method InsertKeys(keys: seq<nat>)
      requires postingsUp == RulesOf(cfg, codec).up(open)
      modifies this`open, this`postingsUp
      ensures open == Insert(old(open), openCount, keys)
      ensures postingsUp == RulesOf(cfg, codec).up(open)
    {
      hide Inserted, Insert;
      InsertedStart(open, openCount, keys);
      ghost var added := 0;
      for i := 0 to |keys|
        invariant Inserted(old(open), openCount, keys, i, open, added)
        invariant postingsUp == old(postingsUp) + ELEMENT * added
      {
        var k := keys[i];
        InsertedStep(old(open), openCount, keys, i, open, added);
        if openCount !in At(open, k) {
          postingsUp := postingsUp + ELEMENT;
          added := added + 1;
        }
        open := open[k := At(open, k) + {openCount}];
      }
      InsertedEnd(old(open), openCount, keys, open, added);
    }

    /** Serialises the open split, if it holds documents, and starts an empty one. */
    method Seal()
      requires Valid()
      modifies this
      ensures Valid() && docs == old(docs)
      ensures old(openCount) == 0 ==> Now() == old(Now()) && forced == old(forced)
      ensures old(openCount) > 0 ==> forced == old(forced) + {|old(specs)|}
      ensures old(openCount) > 0 ==> |blobs| > 0 && Now() == AfterSeal(cfg.tiered, old(Now()), blobs[|blobs| - 1])
    {
      hide Consistent, Tiles, RulesOf, RangeIndex.FileOf, RangeIndex.EntriesOf, Serialized, RowOf;
      if openCount == 0 {
        return;
      }
      ghost var before := Now();
      var blob := Serialise();
      OpenSeals(cfg, codec, docs, forced, before, blob);
      forced := forced + {|specs|};
      specs := specs + [RowOf(cfg.tiered, |specs|, globalBase, openCount, |blob|)];
      blobs := blobs + [blob];
      open, openCount, globalBase, postingsUp := map[], 0, nextGlobalID, 0;
    }

    /** The open postings, serialised in key order. */
    method Serialise() returns (blob: bytes)
      ensures blob == RangeIndex.FileOf(cfg.gram, Stride(cfg), RangeIndex.EntriesOf(Serialized(codec, open)), cfg.fold)
    {
      hide RangeIndex.FileOf;
      RangeIndex.KeysListed(open.Keys);
      var keys := Ordered.Ascending(open.Keys);
      var entries: seq<RangeIndex.Entry> := [];
      for i := 0 to |keys|
        invariant |entries| == i
        invariant forall j :: 0 <= j < i ==> entries[j] == RangeIndex.Entry(keys[j], codec.ser(open[keys[j]]))
      {
        assert keys[i] in keys;
        entries := entries + [RangeIndex.Entry(keys[i], codec.ser(open[keys[i]]))];
      }
      ListedSerialized(codec, open, entries);
      blob := RangeIndex.WriteSorted(cfg.gram, Stride(cfg), entries, cfg.fold);
    }

    /** Seals what is open and returns the manifest rows and files; refuses a set in which one
        document alone is over its cap. */
    method Finish() returns (r: Result<(seq<Spec>, seq<bytes>)>)
      requires Valid()
      modifies this
      ensures Valid() && docs == old(docs) && openCount == 0
      ensures r.Ok? ==> r.value == (specs, blobs)
      ensures r.Err? <==> exists i :: 0 <= i < |specs| && specs[i].docCount == 1 && specs[i].byteSize > Cap(cfg, i)
    {
      hide Consistent;
      Seal();
      for i := 0 to |specs|
        invariant forall j :: 0 <= j < i ==> !(specs[j].docCount == 1 && specs[j].byteSize > Cap(cfg, j))
      {
        if specs[i].docCount == 1 && specs[i].byteSize > Cap(cfg, i) {
          return Err(TooLarge);
        }
      }
      r := Ok((specs, blobs));
    }
  }

  lemma RulesMean(cfg: Config, codec: Codec)
    ensures RulesOf(cfg, codec).tiered == cfg.tiered
  {
  }

  lemma UpMeans(cfg: Config, codec: Codec, docs: seq<seq<nat>>, forced: set<nat>, s: State<nat>)
    requires Consistent(RulesOf(cfg, codec), docs, forced, s)
    ensures s.up == RulesOf(cfg, codec).up(s.open)
  {
    hide Consistent, RulesOf;
    OpenMeans(RulesOf(cfg, codec), docs, forced, s);
  }

  lemma InsertedEnd(p: Postings<nat>, d: nat, keys: seq<nat>, now: Postings<nat>, added: int)
    requires Inserted(p, d, keys, |keys|, now, added)
    ensures now == Insert(p, d, keys) && Elements(now) == Elements(p) + added
  {
    assert keys[..|keys|] == keys;
  }

  lemma ListedSerialized(codec: Codec, p: Postings<nat>, entries: seq<RangeIndex.Entry>)
    requires |entries| == |Ordered.Ascending(p.Keys)|
    requires forall j :: 0 <= j < |entries| ==> entries[j].key == Ordered.Ascending(p.Keys)[j] && entries[j].key in p
    requires forall j :: 0 <= j < |entries| ==> entries[j].posting == codec.ser(p[entries[j].key])
    ensures entries == RangeIndex.EntriesOf(Serialized(codec, p))
  {
    var m := Serialized(codec, p);
    assert m.Keys == p.Keys;
    RangeIndex.KeysListed(m.Keys);
  }

  // ----- the bound on a sealed split -----

  lemma InsertedElements(p: Postings<nat>, d: nat, keys: seq<nat>)
    ensures Elements(p) <= Elements(Insert(p, d, keys)) <= Elements(p) + |keys|
  {
    InsertedAll(p, d, keys, |keys|);
    assert keys[..|keys|] == keys;
  }

  lemma {:induction false} InsertedAll(p: Postings<nat>, d: nat, keys: seq<nat>, i: nat)
    requires i <= |keys|
    ensures Inserted(p, d, keys, i, Insert(p, d, keys[..i]), Elements(Insert(p, d, keys[..i])) - Elements(p))
  {
    if i == 0 {
      InsertedStart(p, d, keys);
    } else {
      InsertedAll(p, d, keys, i - 1);
      InsertedStep(p, d, keys, i - 1, Insert(p, d, keys[..i - 1]), Elements(Insert(p, d, keys[..i - 1])) - Elements(p));
    }
  }

  lemma LastFitted(cfg: Config, codec: Codec, front: seq<seq<nat>>, last: seq<nat>, tier: nat)
    requires Fitted(RulesOf(cfg, codec), front + [last], tier) && front != []
    ensures Estimate(cfg, IndexOf(front)) + Marginal(IndexOf(front), last) <= Cap(cfg, tier)
  {
    hide IndexOf, Estimate, Marginal;
    var part := front + [last];
    assert part[..|front|] == front && part[|front|] == last;
    assert !RulesOf(cfg, codec).over(part[..|front|], part[|front|], tier);
  }

  lemma GrownEstimate(cfg: Config, front: seq<seq<nat>>, last: seq<nat>)
    ensures Estimate(cfg, IndexOf(front + [last]))
            <= Estimate(cfg, IndexOf(front)) + Marginal(IndexOf(front), last)
               + 8 * RangeIndex.SparseCount(NewKeys(IndexOf(front), last), Stride(cfg))
  {
    hide IndexOf, Insert, Elements, RangeIndex.SparseCount, Estimate, NewKeys;
    IndexStep(front, last);
    InsertedElements(IndexOf(front), |front|, last);
    EstimateGrowth(cfg, IndexOf(front), |front|, last);
  }

  /** The real bound of the seal arithmetic: a split of several documents passes its cap by no
      more than the sparse index of its last document's new keys. */
  lemma SealBound(cfg: Config, codec: Codec, part: seq<seq<nat>>, tier: nat)
    requires Fitted(RulesOf(cfg, codec), part, tier)
    ensures Bounded(cfg, part, tier)
  {
    hide IndexOf, RangeIndex.SparseCount, Estimate, NewKeys, Fitted, Marginal;
    if |part| >= 2 {
      var front, last := Front(part), part[|part| - 1];
      assert part == front + [last];
      LastFitted(cfg, codec, front, last, tier);
      GrownEstimate(cfg, front, last);
    }
  }

  /** The same in the configured caps: the larger of the two, which without `capMax` is `byteCap`. */
  ghost predicate WithinConfig(cfg: Config, part: seq<seq<nat>>) {
    |part| >= 2 ==>
      Estimate(cfg, IndexOf(part))
      <= (if cfg.byteCap < cfg.capMax then cfg.capMax else cfg.byteCap)
         + 8 * RangeIndex.SparseCount(NewKeys(IndexOf(Front(part)), part[|part| - 1]), Stride(cfg))
  }

  lemma BoundedByConfig(cfg: Config, part: seq<seq<nat>>, tier: nat)
    requires Bounded(cfg, part, tier)
    ensures WithinConfig(cfg, part)
  {
    hide IndexOf, RangeIndex.SparseCount, Estimate, NewKeys, CapFor;
    CapAtMost(cfg.byteCap, cfg.capMax, tier);
  }

  /** The bound holds of every split of every run, and of what is open. */
  lemma RunBounded(cfg: Config, codec: Codec, docs: seq<seq<nat>>, forced: set<nat>, s: State<nat>)
    requires Consistent(RulesOf(cfg, codec), docs, forced, s)
    ensures forall i :: 0 <= i < |s.specs| ==>
              Bounded(cfg, Covered(docs, s.specs[i]), i) && WithinConfig(cfg, Covered(docs, s.specs[i]))
    ensures s.globalBase <= |docs|
    ensures Bounded(cfg, docs[s.globalBase..], |s.specs|) && WithinConfig(cfg, docs[s.globalBase..])
  {
    hide Bounded, WithinConfig, Fitted, RulesOf, Tiles, IndexOf;
    SealBound(cfg, codec, docs[s.globalBase..], |s.specs|);
    BoundedByConfig(cfg, docs[s.globalBase..], |s.specs|);
    forall i | 0 <= i < |s.specs|
      ensures Bounded(cfg, Covered(docs, s.specs[i]), i) && WithinConfig(cfg, Covered(docs, s.specs[i]))
    {
      assert SealedWell(RulesOf(cfg, codec), docs, forced, s.specs[i], s.blobs[i], i);
      SealBound(cfg, codec, Covered(docs, s.specs[i]), i);
      BoundedByConfig(cfg, Covered(docs, s.specs[i]), i);
    }
  }
}
