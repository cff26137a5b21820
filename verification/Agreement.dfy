/** The builders agree: the monolith (monolithbuild.go), its slices (slice_trigram_monolith.rs)
    and the splits of the split builder (splitsetbuild.go) hold the same index of the same documents. */
module Agreement {
  import opened Wrappers
  import opened Bytes
  import opened Inverted
  import opened Splits
  import opened SplitRun
  import opened SplitBuilder
  import RangeIndex
  import RangeReader
  import Slicer
  import Ordered

  // ----- the monolith builder -----

  class TrigramMonolithBuilder {
    const codec: Codec
    const gram: nat
    const stride: nat
    const fold: bool
    var open: Postings<nat>
    var nextID: nat
    ghost var docs: seq<seq<nat>>

    ghost predicate Valid()
      reads this
    {
      nextID == |docs| && open == IndexOf(docs) && stride > 0
    }

    constructor (codec: Codec, gram: nat, stride: int, caseSensitive: bool)
      ensures Valid() && docs == [] && this.codec == codec && fold == !caseSensitive
      ensures this.gram == (if gram == 0 then 3 else gram)
      ensures this.stride == if stride <= 0 then RangeIndex.DEFAULT_STRIDE else stride
    {
      this.codec, this.gram, fold := codec, if gram == 0 then 3 else gram, !caseSensitive;
      this.stride := if stride <= 0 then RangeIndex.DEFAULT_STRIDE else stride;
      open, nextID, docs := map[], 0, [];
      IndexEmpty<nat>();
    }

    /** Indexes a document; one without keys still takes an ID. */
    method AddKeys(keys: seq<nat>) returns (id: nat)
      requires Valid()
      modifies this
      ensures Valid() && docs == old(docs) + [keys] && id == |old(docs)|
    {
      hide IndexOf, Insert;
      id := nextID;
      InsertNothing(open, id);
      assert keys[..0] == [];
      for i := 0 to |keys|
        invariant open == Insert(old(open), id, keys[..i])
        invariant nextID == old(nextID) && docs == old(docs)
      {
        assert keys[..i + 1] == keys[..i] + [keys[i]];
        InsertNext(old(open), id, keys[..i], keys[i]);
        open := open[keys[i] := At(open, keys[i]) + {id}];
      }
      assert keys[..|keys|] == keys;
      IndexStep(docs, keys);
      nextID := nextID + 1;
      docs := docs + [keys];
    }

    /** The index of everything added, whatever order the map gives its keys in. */
    method Write() returns (r: Result<bytes>)
      requires Valid()
      ensures r == Ok(RangeIndex.FileOf(gram, stride, RangeIndex.EntriesOf(Serialized(codec, IndexOf(docs))), fold))
    {
      hide RangeIndex.FileOf, RangeIndex.EntriesOf, IndexOf, RangeIndex.DistinctKeys;
      var entries := ListEntries(codec, open);
      r := RangeIndex.WriteIndexWith(gram, stride, entries, fold);
    }
  }

  /** The entries list the postings of `keys`, once each. */
  ghost predicate ListsPart(codec: Codec, p: Postings<nat>, keys: set<nat>, entries: seq<RangeIndex.Entry>) {
    && RangeIndex.DistinctKeys(entries)
    && (forall i :: 0 <= i < |entries| ==>
         entries[i].key in keys && entries[i].key in p && entries[i].posting == codec.ser(p[entries[i].key]))
    && (forall k :: k in keys ==> exists i :: 0 <= i < |entries| && entries[i].key == k)
  }

  /** The serialised postings, in whatever order the map gives its keys. */
  method ListEntries(codec: Codec, open: Postings<nat>) returns (entries: seq<RangeIndex.Entry>)
    ensures RangeIndex.DistinctKeys(entries) && RangeIndex.MapOf(entries) == Serialized(codec, open)
  {
    hide RangeIndex.DistinctKeys;
    entries := [];
    var todo := open.Keys;
    NothingListed(codec, open);
    while todo != {}
      invariant todo <= open.Keys && ListsPart(codec, open, open.Keys - todo, entries)
      decreases todo
    {
      var k :| k in todo;
      ListedNext(codec, open, open.Keys - todo, entries, k);
      entries := entries + [RangeIndex.Entry(k, codec.ser(open[k]))];
      todo := todo - {k};
      assert open.Keys - todo == open.Keys - (todo + {k}) + {k};
    }
    assert open.Keys - todo == open.Keys;
    ListedAll(codec, open, entries);
  }

  lemma NothingListed(codec: Codec, p: Postings<nat>)
    ensures ListsPart(codec, p, p.Keys - p.Keys, [])
  {
  }

  lemma ListedNext(codec: Codec, p: Postings<nat>, keys: set<nat>, entries: seq<RangeIndex.Entry>, k: nat)
    requires ListsPart(codec, p, keys, entries) && k !in keys && k in p
    ensures ListsPart(codec, p, keys + {k}, entries + [RangeIndex.Entry(k, codec.ser(p[k]))])
  {
    var more := entries + [RangeIndex.Entry(k, codec.ser(p[k]))];
    forall x | x in keys + {k} ensures exists i :: 0 <= i < |more| && more[i].key == x {
      if x == k {
        assert more[|entries|].key == x;
      } else {
        var i :| 0 <= i < |entries| && entries[i].key == x;
        assert more[i].key == x;
      }
    }
  }

  lemma ListedAll(codec: Codec, p: Postings<nat>, entries: seq<RangeIndex.Entry>)
    requires ListsPart(codec, p, p.Keys, entries)
    ensures RangeIndex.DistinctKeys(entries) && RangeIndex.MapOf(entries) == Serialized(codec, p)
  {
    var a, b := RangeIndex.MapOf(entries), Serialized(codec, p);
    forall k ensures (k in a <==> k in b) && (k in b ==> a[k] == b[k]) {
      if k in b {
        var i :| 0 <= i < |entries| && entries[i].key == k;
        RangeIndex.MapOfHolds(entries, i);
      }
    }
  }

  // ----- building and slicing agree -----

  /** The document ranges of manifest rows. */
  function RangesOf(specs: seq<Spec>): (rs: seq<Slicer.DocRange>)
    ensures |rs| == |specs|
  {
    seq(|specs|, i requires 0 <= i < |specs| => Slicer.DocRange(specs[i].docIdLo, specs[i].docIdHi + 1))
  }

  lemma SliceIsSplit(cfg: Config, codec: Codec, docs: seq<seq<nat>>, row: Spec)
    requires cfg.fold && row.docIdLo <= row.docIdHi < |docs|
    ensures Slicer.SplitFile(codec, cfg.gram, Stride(cfg), IndexOf(docs), Slicer.DocRange(row.docIdLo, row.docIdHi + 1))
            == BlobOf(cfg, codec, Covered(docs, row))
  {
    hide IndexOf, SliceOf, RangeIndex.FileOf, RangeIndex.EntriesOf, Serialized;
    SliceIsIndex(docs, row.docIdLo, row.docIdHi + 1);
  }

  /** Slicing the monolith at the ranges the split builder sealed gives the builder's files and
      manifest rows, split by split (no Bloom filter, no facets, case-folding, tiered). */
  lemma SlicesAreSplits(cfg: Config, codec: Codec, docs: seq<seq<nat>>, forced: set<nat>, s: State<nat>,
                        specs: seq<Spec>, files: seq<bytes>)
    requires Consistent(RulesOf(cfg, codec), docs, forced, s) && cfg.fold && cfg.tiered
    requires forall i :: 0 <= i < |s.specs| ==> s.specs[i].docIdLo <= s.specs[i].docIdHi
    requires Slicer.SplitsWanted(codec, Slicer.Origin(cfg.gram, Stride(cfg), IndexOf(docs)), RangesOf(s.specs), specs,
                                 files)
    ensures specs == s.specs && files == s.blobs
  {
    hide Overflows, IndexOf, RangeIndex.FileOf, OpenWell, BlobOf, Slicer.SplitFile, Fitted;
    StateMeans(RulesOf(cfg, codec), docs, forced, s);
    AllWithin(s.specs, s.globalBase, |docs|);
    hide Tiles;
    var o := Slicer.Origin(cfg.gram, Stride(cfg), IndexOf(docs));
    forall i | 0 <= i < |specs| ensures specs[i] == s.specs[i] && files[i] == s.blobs[i] {
      SliceIsSplit(cfg, codec, docs, s.specs[i]);
      assert Slicer.WantsSplit(codec, o, RangesOf(s.specs)[i], i, specs[i], files[i]);
      assert SealedWell(RulesOf(cfg, codec), docs, forced, s.specs[i], s.blobs[i], i);
    }
  }

  /** Builds a corpus both ways, as the slicer's self-test does: through the split builder, and
      through a monolith sliced at the builder's ranges. */
  method BuildBothWays(cfg: Config, codec: Codec, corpus: seq<seq<nat>>)
    returns (built: (seq<Spec>, seq<bytes>), sliced: Result<(seq<Spec>, seq<bytes>)>)
    requires cfg.fold && cfg.tiered && cfg.gram > 0 && Faithful(codec)
    requires RangeIndex.Fits(cfg.gram, Stride(cfg), Serialized(codec, IndexOf(corpus)), true)
    ensures sliced == Ok(built)
  {
    hide Consistent, RulesOf, IndexOf, RangeIndex.Fits, RangeIndex.FileOf, Slicer.SplitsWanted, RangesOf;
    var b := new SplitSetBuilder(cfg, codec);
    var m := new TrigramMonolithBuilder(codec, cfg.gram, Stride(cfg), false);
    for i := 0 to |corpus|
      invariant b.Valid() && fresh(b) && b.docs == corpus[..i] && b.cfg == cfg && b.codec == codec
      invariant m.Valid() && fresh(m) && m.docs == corpus[..i]
      invariant m.codec == codec && m.gram == cfg.gram && m.stride == Stride(cfg) && m.fold
    {
      var _ := b.AddKeys(corpus[i]);
      var _ := m.AddKeys(corpus[i]);
      assert corpus[..i + 1] == corpus[..i] + [corpus[i]];
    }
    assert corpus[..|corpus|] == corpus;
    var _ := b.Finish();
    built := (b.specs, b.blobs);
    var mono := m.Write();
    StateMeans(RulesOf(cfg, codec), corpus, b.forced, b.Now());
    AllWithin(b.specs, b.globalBase, |corpus|);
    RangesProper(b.specs);
    sliced := Slicer.Slice(mono.value, codec, RangesOf(b.specs),
                           Some(Slicer.Origin(cfg.gram, Stride(cfg), IndexOf(corpus))));
    SlicesAreSplits(cfg, codec, corpus, b.forced, b.Now(), sliced.value.0, sliced.value.1);
  }

  lemma RangesProper(specs: seq<Spec>)
    requires forall i :: 0 <= i < |specs| ==> specs[i].docIdLo <= specs[i].docIdHi
    ensures forall i :: 0 <= i < |specs| ==> RangesOf(specs)[i].lo < RangesOf(specs)[i].hi
  {
  }

  // ----- what a finished split set answers -----

  /** Reading a key from split `i`'s file gives the split's documents that hold the key. */
  lemma SplitReadsBack(cfg: Config, codec: Codec, docs: seq<seq<nat>>, forced: set<nat>, s: State<nat>, i: nat,
                       r: RangeReader.Reader, key: nat)
    requires Consistent(RulesOf(cfg, codec), docs, forced, s) && i < |s.specs| && Faithful(codec)
    requires RangeReader.Open(s.blobs[i]) == Ok(r)
    requires RangeIndex.Fits(cfg.gram, Stride(cfg), Serialized(codec, IndexOf(Covered(docs, s.specs[i]))), cfg.fold)
    ensures !RangeReader.BlockTooLarge(r, key) ==>
              match RangeReader.Posting(r, key)
              case Ok(None) => At(IndexOf(Covered(docs, s.specs[i])), key) == {}
              case Ok(Some(b)) => codec.de(b) == Some(At(IndexOf(Covered(docs, s.specs[i])), key))
              case Err(_) => |codec.ser(At(IndexOf(Covered(docs, s.specs[i])), key))| > RangeIndex.MAX_READ
  {
    hide RangeIndex.Fits, RangeIndex.FileOf, RangeReader.Open, RangeReader.Posting, RangeReader.BlockTooLarge,
         Overflows, Fitted, Tiles, IndexOf, Covered, OpenWell;
    assert SealedWell(RulesOf(cfg, codec), docs, forced, s.specs[i], s.blobs[i], i);
    RangeReader.PostingAgrees(r, cfg.gram, Stride(cfg), Serialized(codec, IndexOf(Covered(docs, s.specs[i]))), cfg.fold,
                              key);
  }
}
