/** How good the split builder's size estimate is (splitsetbuild.go): when it can pass the cap,
    and up to which split size the written file stays within it. */
module SealSize {
  import opened Bytes
  import opened Inverted
  import opened Splits
  import opened SplitRun
  import opened SplitBuilder
  import RangeIndex

  // ----- estimate against cap -----

  ghost predicate Distinct(keys: seq<nat>) {
    forall i, j :: 0 <= i < j < |keys| ==> keys[i] != keys[j]
  }

  lemma OneMoreKey(p: set<nat>, keys: seq<nat>, front: seq<nat>, k: nat)
    requires keys == front + [k] && k !in front
    ensures |p + KeySet(keys)| == |p + KeySet(front)| + if k in p then 0 else 1
  {
    var a, b := p + KeySet(front), p + KeySet(keys);
    assert forall x :: x in keys <==> x in front || x == k;
    if k in p {
      assert b == a;
    } else {
      assert k !in a && b == a + {k};
    }
  }

  lemma {:induction false} KeysGrowExactly(p: Postings<nat>, keys: seq<nat>)
    requires Distinct(keys)
    ensures |p.Keys + KeySet(keys)| == |p.Keys| + NewKeys(p, keys)
    decreases |keys|
  {
    if keys == [] {
      assert p.Keys + KeySet(keys) == p.Keys;
    } else {
      hide KeySet;
      var front, k := keys[..|keys| - 1], keys[|keys| - 1];
      LastIsNew(keys, front, k);
      hide Distinct;
      KeysGrowExactly(p, front);
      OneMoreKey(p.Keys, keys, front, k);
    }
  }

  lemma LastIsNew(keys: seq<nat>, front: seq<nat>, k: nat)
    requires Distinct(keys) && keys != [] && front == keys[..|keys| - 1] && k == keys[|keys| - 1]
    ensures keys == front + [k] && k !in front && Distinct(front)
  {
  }

  lemma {:induction false} ElementsGrowExactly(p: Postings<nat>, d: nat, keys: seq<nat>)
    requires Distinct(keys) && forall k :: k in p ==> d !in p[k]
    ensures Elements(Insert(p, d, keys)) == Elements(p) + |keys|
    decreases |keys|
  {
    if keys == [] {
      InsertNothing(p, d);
    } else {
      var front, k := keys[..|keys| - 1], keys[|keys| - 1];
      LastIsNew(keys, front, k);
      hide Distinct, Elements;
      ElementsGrowExactly(p, d, front);
      InsertNext(p, d, front, k);
      assert d !in At(Insert(p, d, front), k);
      hide Insert, Elements;
      ElementsPut(Insert(p, d, front), k, d);
    }
  }

  function SparseGrowth(cfg: Config, n: nat, m: nat): int {
    RangeIndex.SparseCount(n + m, Stride(cfg)) - RangeIndex.SparseCount(n, Stride(cfg))
  }

  /** What adding a document really does to the estimate: the marginal charge, and the growth of
      the sparse index that the charge leaves out. */
  lemma EstimateExactly(cfg: Config, part: seq<seq<nat>>, keys: seq<nat>)
    requires Distinct(keys)
    ensures Estimate(cfg, IndexOf(part + [keys]))
            == Estimate(cfg, IndexOf(part)) + Marginal(IndexOf(part), keys)
               + 8 * SparseGrowth(cfg, |IndexOf(part)|, NewKeys(IndexOf(part), keys))
  {
    var p := IndexOf(part);
    IndexStep(part, keys);
    KeysGrowExactly(p, keys);
    assert Insert(p, |part|, keys).Keys == p.Keys + KeySet(keys);
    hide IndexOf, Insert, Elements, RangeIndex.SparseCount, NewKeys;
    ElementsGrowExactly(p, |part|, keys);
    assert |Insert(p, |part|, keys)| == |Insert(p, |part|, keys).Keys|;
  }

  /** The cap check lets the document in. */
  ghost predicate Admits(cfg: Config, part: seq<seq<nat>>, keys: seq<nat>, cap: nat) {
    Estimate(cfg, IndexOf(part)) + Marginal(IndexOf(part), keys) <= cap
  }

  /** A document the cap check lets in leaves the estimate within every such cap exactly when
      its new keys start no new sparse stride. */
  lemma WithinCapExactly(cfg: Config, part: seq<seq<nat>>, keys: seq<nat>)
    requires Distinct(keys)
    ensures (forall cap: nat :: Admits(cfg, part, keys, cap) ==> Estimate(cfg, IndexOf(part + [keys])) <= cap)
            <==> SparseGrowth(cfg, |IndexOf(part)|, NewKeys(IndexOf(part), keys)) <= 0
  {
    var least := Estimate(cfg, IndexOf(part)) + Marginal(IndexOf(part), keys);
    EstimateExactly(cfg, part, keys);
    assert Admits(cfg, part, keys, least);
    hide Estimate, Marginal, SparseGrowth, IndexOf;
  }

  lemma OneNewKey(cfg: Config, part: seq<seq<nat>>, k: nat)
    requires cfg.stride == 1 && k !in IndexOf(part)
    ensures Marginal(IndexOf(part), [k]) == 66
    ensures Estimate(cfg, IndexOf(part + [[k]])) == Estimate(cfg, IndexOf(part)) + 74
  {
    var p := IndexOf(part);
    assert [k][..0] == [] && NewKeys(p, [k]) == 1;
    hide IndexOf, Estimate;
    EstimateExactly(cfg, part, [k]);
  }

  lemma PairFitted(cfg: Config, codec: Codec, a: seq<nat>, b: seq<nat>, tier: nat)
    requires Admits(cfg, [a], b, Cap(cfg, tier))
    ensures Fitted(RulesOf(cfg, codec), [a, b], tier)
  {
    hide Estimate, Marginal, Cap, IndexOf;
    assert [a, b][..1] == [a];
  }

  lemma NothingEstimated(cfg: Config)
    ensures cfg.stride == 1 ==> Estimate(cfg, IndexOf<nat>([])) == 20
  {
    IndexEmpty<nat>();
    ElementsNone<nat>();
  }

  lemma OnlyFirst()
    ensures 1 !in IndexOf<nat>([]) && 2 !in IndexOf<nat>([[1]])
  {
    KeysMeans<nat>([], 1);
    KeysMeans<nat>([[1]], 2);
  }

  lemma FirstEstimates(cfg: Config)
    requires cfg.stride == 1
    ensures Estimate(cfg, IndexOf([[1]])) == 94 && Marginal(IndexOf([[1]]), [2]) == 66
    ensures Estimate(cfg, IndexOf([[1], [2]])) == 168
  {
    hide IndexOf, Estimate, Marginal, Insert, Elements;
    var none: seq<seq<nat>> := [];
    NothingEstimated(cfg);
    OnlyFirst();
    OneNewKey(cfg, none, 1);
    OneNewKey(cfg, [[1]], 2);
    assert none + [[1]] == [[1]] && [[1]] + [[2]] == [[1], [2]];
  }

  /** Two one-key documents, a stride of one and a cap of 160 bytes: the second is let in and
      takes the estimate to 168. */
  lemma EstimatePassesCap(codec: Codec)
    ensures var cfg := Config(true, 160, 0, 3, 1, true);
            Fitted(RulesOf(cfg, codec), [[1], [2]], 0) && Estimate(cfg, IndexOf([[1], [2]])) == 168 > Cap(cfg, 0)
  {
    hide Fitted, IndexOf, Estimate, Marginal;
    var cfg := Config(true, 160, 0, 3, 1, true);
    FirstEstimates(cfg);
    PairFitted(cfg, codec, [1], [2], 0);
  }

  // ----- file against estimate -----

  const CONTAINER := 0x1_0000
  const ARRAY_LIMIT := 4096
  const BITMAP_SIZE := 8192

  function ContainersOf(s: set<nat>): set<nat> {
    set d | d in s :: d / CONTAINER
  }

  function InContainer(s: set<nat>, c: nat): set<nat> {
    set d | d in s && d / CONTAINER == c
  }

  function ContainerSize(card: nat): nat {
    if card <= ARRAY_LIMIT then 2 * card else BITMAP_SIZE
  }

  function ContainerSizes(s: set<nat>): map<nat, nat> {
    map c | c in ContainersOf(s) :: 8 + ContainerSize(|InContainer(s, c)|)
  }

  /** The size of a posting in the bitmap format without run containers: an 8-byte header, then
      8 bytes of directory and the contents of each container. */
  ghost function PortableSize(s: set<nat>): nat {
    8 + Total<nat>(ContainerSizes(s))
  }

  ghost predicate Portable(codec: Codec) {
    forall s :: |codec.ser(s)| == PortableSize(s)
  }

  /** Each container costs at most its directory entry and two bytes for each document. */
  lemma {:induction false} ContainersAtMost(s: set<nat>)
    ensures Total<nat>(ContainerSizes(s)) <= 8 * |ContainersOf(s)| + 2 * |s|
    decreases |s|
  {
    if s != {} {
      var d :| d in s;
      var c: nat := d / CONTAINER;
      var block, rest := InContainer(s, c), s - InContainer(s, c);
      assert d in block;
      assert s == block + rest && block !! rest;
      assert |s| == |block| + |rest|;
      ContainersAtMost(rest);
      WithoutContainer(s, c, rest);
      var sizes := ContainerSizes(s);
      assert sizes[c] == 8 + ContainerSize(|block|) <= 8 + 2 * |block|;
      TotalTake<nat>(sizes, c);
      assert Total<nat>(sizes - {c}) == Total<nat>(ContainerSizes(rest));
      assert Total<nat>(sizes) <= 8 + 2 * |block| + 8 * |ContainersOf(rest)| + 2 * |rest|;
      assert 2 * |s| == 2 * |block| + 2 * |rest|;
    }
  }

  lemma WithoutContainer(s: set<nat>, c: nat, rest: set<nat>)
    requires c in ContainersOf(s) && rest == s - InContainer(s, c)
    ensures ContainerSizes(s) - {c} == ContainerSizes(rest) && |ContainersOf(s)| == |ContainersOf(rest)| + 1
  {
    forall x | x in ContainersOf(s) && x != c ensures x in ContainersOf(rest) {
      var d :| d in s && d / CONTAINER == x;
      assert d in rest;
    }
    assert ContainersOf(s) == ContainersOf(rest) + {c};
    forall x | x in ContainersOf(rest) ensures InContainer(s, x) == InContainer(rest, x) {
    }
  }

  lemma FewContainers(s: set<nat>, n: nat)
    requires (forall d :: d in s ==> d < n) && n <= 4 * CONTAINER
    ensures |ContainersOf(s)| <= 4
  {
    assert ContainersOf(s) <= {0, 1, 2, 3};
    SubsetSize(ContainersOf(s), {0, 1, 2, 3});
    assert |{0, 1, 2, 3}| == 4;
  }

  lemma SubsetSize(a: set<nat>, b: set<nat>)
    requires a <= b
    ensures |a| <= |b|
  {
    assert b == a + (b - a);
  }

  // ----- the size of a written file -----

  function PostingSizes(m: RangeIndex.Index): map<nat, nat> {
    map k | k in m :: |m[k]|
  }

  lemma {:induction false} JoinSize(es: seq<RangeIndex.Entry>, m: RangeIndex.Index)
    requires RangeIndex.Describes(es, m)
    ensures |Join(RangeIndex.PostingsOf(es))| == Total<nat>(PostingSizes(m))
    decreases |es|
  {
    hide Join, Total, RangeIndex.KeySorted;
    JoinLast(es);
    if es == [] {
      TotalEmpty();
      assert m == map[] && PostingSizes(m) == map[];
    } else {
      var front, last := es[..|es| - 1], es[|es| - 1];
      var less := m - {last.key};
      LessOne(es, m);
      JoinSize(front, less);
      TotalTake<nat>(PostingSizes(m), last.key);
      assert PostingSizes(m) - {last.key} == PostingSizes(less);
    }
  }

  lemma TotalEmpty()
    ensures Total<nat>(map[]) == 0
  {
  }

  lemma JoinLast(es: seq<RangeIndex.Entry>)
    ensures es == [] ==> Join(RangeIndex.PostingsOf(es)) == []
    ensures es != [] ==>
              |Join(RangeIndex.PostingsOf(es))|
              == |Join(RangeIndex.PostingsOf(es[..|es| - 1]))| + |es[|es| - 1].posting|
  {
    if es != [] {
      assert RangeIndex.PostingsOf(es)[..|es| - 1] == RangeIndex.PostingsOf(es[..|es| - 1]);
    }
  }

  lemma FrontSorted(es: seq<RangeIndex.Entry>)
    requires RangeIndex.KeySorted(es) && es != []
    ensures RangeIndex.KeySorted(es[..|es| - 1])
    ensures forall i :: 0 <= i < |es| - 1 ==> es[i].key != es[|es| - 1].key
  {
  }

  lemma LessOne(es: seq<RangeIndex.Entry>, m: RangeIndex.Index)
    requires RangeIndex.Describes(es, m) && es != []
    ensures RangeIndex.Describes(es[..|es| - 1], m - {es[|es| - 1].key})
  {
    hide RangeIndex.KeySorted;
    var front, last := es[..|es| - 1], es[|es| - 1];
    FrontSorted(es);
    forall k | k in m && k != last.key ensures exists i :: 0 <= i < |front| && front[i].key == k {
      var i :| 0 <= i < |es| && es[i].key == k;
      assert front[i].key == k;
    }
  }

  lemma FileSize(gram: nat, stride: nat, m: RangeIndex.Index, fold: bool)
    ensures |RangeIndex.FileOf(gram, stride, RangeIndex.EntriesOf(m), fold)|
            == RangeIndex.HeaderSize(fold) + 8 * RangeIndex.SparseCount(|m|, stride) + 20 * |m|
              + Total<nat>(PostingSizes(m))
  {
    hide RangeIndex.FileOf, RangeIndex.EntriesOf, RangeIndex.SparseCount, RangeIndex.Describes, Total;
    var es := RangeIndex.EntriesOf(m);
    RangeIndex.EntriesDescribe(m);
    JoinSize(es, m);
    RangeIndex.RangesTile(gram, stride, es, fold);
    StartEnds(RangeIndex.PostingsOf(es));
  }

  // ----- the two compared -----

  lemma TimesNext(a: nat, n: nat)
    ensures a * (n + 1) == a * n + a
  {
  }

  lemma TotalNone(m: map<nat, nat>)
    requires m.Keys == {}
    ensures Total<nat>(m) == 0 && |m| == 0
  {
    assert m == map[];
  }

  lemma {:induction false} TotalAffine(m: map<nat, nat>, z: map<nat, nat>, a: nat)
    requires m.Keys == z.Keys && forall k :: k in m ==> m[k] <= a + 2 * z[k]
    ensures Total<nat>(m) <= a * |z| + 2 * Total<nat>(z)
    decreases m.Keys
  {
    hide Total;
    if k :| k in m {
      TotalTake<nat>(m, k);
      TotalTake<nat>(z, k);
      TotalAffine(m - {k}, z - {k}, a);
      TimesNext(a, |z - {k}|);
    } else {
      TotalNone(m);
      TotalNone(z);
    }
  }

  lemma {:induction false} TotalConstant(m: map<nat, nat>, v: nat)
    requires forall k :: k in m ==> m[k] == v
    ensures Total<nat>(m) == v * |m|
    decreases m.Keys
  {
    hide Total;
    if k :| k in m {
      TotalTake<nat>(m, k);
      TotalConstant(m - {k}, v);
      TimesNext(v, |m - {k}|);
    } else {
      TotalNone(m);
    }
  }

  lemma PostingAtMost(codec: Codec, s: set<nat>, n: nat)
    requires Portable(codec) && (forall d :: d in s ==> d < n) && n <= 4 * CONTAINER
    ensures |codec.ser(s)| <= 40 + 2 * |s|
  {
    ContainersAtMost(s);
    FewContainers(s, n);
    hide ContainersOf, ContainerSizes, Total;
  }

  lemma SizesWithin(codec: Codec, p: Postings<nat>, n: nat)
    requires Portable(codec) && n <= 4 * CONTAINER && forall k, d :: k in p && d in p[k] ==> d < n
    ensures Total<nat>(PostingSizes(Serialized(codec, p))) <= 40 * |p| + 2 * Elements(p)
    ensures |Serialized(codec, p)| == |p|
  {
    var m := Serialized(codec, p);
    forall k | k in p ensures |m[k]| <= 40 + 2 * |p[k]| {
      PostingAtMost(codec, p[k], n);
    }
    assert m.Keys == p.Keys && |m| == |m.Keys| && |p| == |p.Keys|;
    assert |Sizes(p)| == |p| by { assert Sizes(p).Keys == p.Keys; }
    hide Portable;
    TotalAffine(PostingSizes(m), Sizes(p), 40);
  }

  /** Without run containers the file of a split is at most its estimate, as long as the split
      holds no more than four containers of documents. */
  lemma FileWithinEstimate(cfg: Config, codec: Codec, part: seq<seq<nat>>)
    requires Portable(codec) && |part| <= 4 * CONTAINER
    ensures |BlobOf(cfg, codec, part)| <= Estimate(cfg, IndexOf(part))
  {
    assert forall k, d :: k in IndexOf(part) && d in IndexOf(part)[k] ==> d < |part|;
    hide RangeIndex.FileOf, RangeIndex.EntriesOf, RangeIndex.SparseCount, IndexOf, Total, Serialized, Portable,
         Elements;
    SizesWithin(codec, IndexOf(part), |part|);
    FileSize(cfg.gram, Stride(cfg), Serialized(codec, IndexOf(part)), cfg.fold);
  }

  // ----- and past four containers -----

  const SPREAD: set<nat> := {0, 0x1_0000, 0x2_0000, 0x3_0000, 0x4_0000}

  /** A corpus of `n` documents in which two keys stand in one document of each of the first five containers. */
  function SpreadDocs(n: nat): (docs: seq<seq<nat>>)
    ensures |docs| == n
  {
    seq(n, (d: nat) => if d in SPREAD then [1, 2] else [])
  }

  lemma SpreadIndex(n: nat)
    requires n > 4 * CONTAINER
    ensures IndexOf(SpreadDocs(n)) == map[1 := SPREAD, 2 := SPREAD]
  {
    var docs, p := SpreadDocs(n), IndexOf(SpreadDocs(n));
    forall k ensures Holding(docs, k) == if k == 1 || k == 2 then SPREAD else {} {
      forall d ensures d in Holding(docs, k) <==> d in (if k == 1 || k == 2 then SPREAD else {}) {
      }
    }
    assert 0 in SPREAD;
    forall k ensures (k in p <==> k == 1 || k == 2) && (k in p ==> p[k] == SPREAD) {
      hide Holding, IndexOf, SpreadDocs;
      IndexAt(docs, k);
    }
    assert p.Keys == {1, 2};
  }

  lemma SpreadContainers()
    ensures ContainersOf(SPREAD) == {0, 1, 2, 3, 4} && |SPREAD| == 5
    ensures forall c: nat :: c <= 4 ==> InContainer(SPREAD, c) == {c * CONTAINER}
  {
    assert 0 in SPREAD && 0x1_0000 in SPREAD && 0x2_0000 in SPREAD && 0x3_0000 in SPREAD && 0x4_0000 in SPREAD;
    assert 0 / CONTAINER == 0 && 0x1_0000 / CONTAINER == 1 && 0x2_0000 / CONTAINER == 2;
    assert 0x3_0000 / CONTAINER == 3 && 0x4_0000 / CONTAINER == 4;
  }

  lemma SpreadSize()
    ensures PortableSize(SPREAD) == 58 && |SPREAD| == 5
  {
    hide ContainersOf, InContainer, SPREAD;
    SpreadContainers();
    var sizes := ContainerSizes(SPREAD);
    assert sizes.Keys == {0, 1, 2, 3, 4};
    forall c | c in sizes ensures sizes[c] == 10 {
      assert InContainer(SPREAD, c) == {c * CONTAINER};
    }
    assert |sizes| == 5;
    hide Total;
    TotalConstant(sizes, 10);
  }

  lemma SpreadFile(cfg: Config, codec: Codec, n: nat)
    requires Portable(codec) && n > 4 * CONTAINER
    ensures |BlobOf(cfg, codec, SpreadDocs(n))| > Estimate(cfg, IndexOf(SpreadDocs(n)))
  {
    hide RangeIndex.FileOf, RangeIndex.EntriesOf, RangeIndex.SparseCount, Total, IndexOf, SpreadDocs, PortableSize;
    SpreadIndex(n);
    SpreadSize();
    var p := map[1 := SPREAD, 2 := SPREAD];
    assert |p| == 2 by { assert p.Keys == {1, 2}; }
    assert |Sizes(p)| == 2 by { assert Sizes(p).Keys == {1, 2}; }
    TotalConstant(Sizes(p), 5);
    var m := Serialized(codec, p);
    assert |m| == 2 && |PostingSizes(m)| == 2 by { assert m.Keys == {1, 2} && PostingSizes(m).Keys == {1, 2}; }
    TotalConstant(PostingSizes(m), 58);
    FileSize(cfg.gram, Stride(cfg), m, cfg.fold);
  }

  /** The estimate bounds the written file for every split of at most `n` documents exactly
      when `n` is at most 262,144. */
  lemma EstimateHoldsExactly(cfg: Config, codec: Codec, n: nat)
    requires Portable(codec)
    ensures (forall part :: |part| <= n ==> |BlobOf(cfg, codec, part)| <= Estimate(cfg, IndexOf(part))) <==> n <= 262144
  {
    hide BlobOf, Estimate, IndexOf, Portable;
    if n <= 262144 {
      forall part | |part| <= n ensures |BlobOf(cfg, codec, part)| <= Estimate(cfg, IndexOf(part)) {
        FileWithinEstimate(cfg, codec, part);
      }
    } else {
      SpreadFile(cfg, codec, n);
      assert |SpreadDocs(n)| == n;
    }
  }
}
