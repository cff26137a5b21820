/** The chunked build end to end (rust/src/build.rs, module `chunk`): a partial for each chunk of
    the documents, then the streaming merge, against the one-shot writer. */
module ChunkBuild {
  import opened Wrappers
  import opened Bytes
  import opened Inverted
  import opened Splits
  import opened RangeIndex
  import opened PartialMerge
  import opened ChunkMerge
  import Agreement

  /** The corpus's keys and their number fit the format's fields. */
  ghost predicate CorpusFits(docs: seq<seq<nat>>) {
    |IndexOf(docs)| < TWO_32 && forall k: nat :: k in IndexOf(docs) ==> k < TWO_64
  }

  /** The entries of an index. */
  ghost function EntriesIn(codec: Codec, p: Postings<nat>): seq<Entry> {
    EntriesOf(Serialized(codec, p))
  }

  ghost function AllEntries(codec: Codec, ps: seq<Postings<nat>>): (lists: Lists)
    ensures |lists| == |ps| && forall i :: 0 <= i < |ps| ==> lists[i] == EntriesIn(codec, ps[i])
  {
    seq(|ps|, i requires 0 <= i < |ps| => EntriesIn(codec, ps[i]))
  }

  lemma ChunkWithin(docs: seq<seq<nat>>, lo: nat, hi: nat)
    requires CorpusFits(docs)
    ensures |ChunkOf(docs, lo, hi)| < TWO_32 && forall k: nat :: k in ChunkOf(docs, lo, hi) ==> k < TWO_64
  {
    var p, all := ChunkOf(docs, lo, hi), IndexOf(docs);
    assert p.Keys <= all.Keys;
    SizeWithin(p.Keys, all.Keys);
    assert |p| == |p.Keys| && |all| == |all.Keys|;
  }

  lemma SizeWithin(a: set<nat>, b: set<nat>)
    requires a <= b
    ensures |a| <= |b|
  {
    assert b == a + (b - a) && |b| == |a| + |b - a|;
  }

  lemma ChunkFits(codec: Codec, docs: seq<seq<nat>>, lo: nat, hi: nat)
    requires CorpusFits(docs) && !TooLong(EntriesIn(codec, ChunkOf(docs, lo, hi)))
    ensures FitsFields(EntriesIn(codec, ChunkOf(docs, lo, hi))) && Sorted(EntriesIn(codec, ChunkOf(docs, lo, hi)))
  {
    hide EntriesOf, ChunkOf, CorpusFits;
    ChunkWithin(docs, lo, hi);
    var p := ChunkOf(docs, lo, hi);
    var m := Serialized(codec, p);
    EntriesDescribe(m);
    assert m.Keys == p.Keys && |m| == |m.Keys| && |p| == |p.Keys|;
  }

  lemma SameLong(entries: seq<Entry>, m: Index)
    requires DistinctKeys(entries) && MapOf(entries) == m
    ensures TooLong(entries) <==> TooLong(EntriesOf(m))
  {
    var es := EntriesOf(m);
    EntriesDescribe(m);
    if i :| 0 <= i < |entries| && |entries[i].posting| >= TWO_32 {
      MapOfHolds(entries, i);
      assert entries[i].key in m;
      var j :| 0 <= j < |es| && es[j].key == entries[i].key;
    }
    if j :| 0 <= j < |es| && |es[j].posting| >= TWO_32 {
      assert es[j].key in m;
      var i :| 0 <= i < |entries| && entries[i].key == es[j].key;
      MapOfHolds(entries, i);
    }
  }

  /** One chunk's partial. */
  method WriteChunk(codec: Codec, chunk: Postings<nat>) returns (r: Result<bytes>)
    ensures r.Err? <==> TooLong(EntriesIn(codec, chunk))
    ensures r.Ok? ==> r.value == PartialOf(EntriesIn(codec, chunk))
  {
    hide EntriesOf, MapOf, TooLong, DistinctKeys, PartialOf;
    var entries := Agreement.ListEntries(codec, chunk);
    SameLong(entries, Serialized(codec, chunk));
    var w, _ := WritePartial(entries);
    r := w;
  }

  /** Partials for all the chunks, then the merge. For any cut of the documents it fails exactly
      when a posting of some chunk, or of the whole, is too long for its field; otherwise the
      merged file is the one-shot writer's file of the whole corpus, byte for byte. */
  method BuildChunked(codec: Codec, chunks: seq<Postings<nat>>, gram: nat, stride: nat, ghost docs: seq<seq<nat>>,
                      ghost cuts: seq<nat>)
    returns (r: Result<bytes>)
    requires Faithful(codec) && CorpusFits(docs)
    requires ChunksOf(docs, cuts, chunks) && cuts[|chunks|] == |docs|
    ensures r.Err? <==> (exists i :: 0 <= i < |chunks| && TooLong(EntriesIn(codec, chunks[i])))
                        || TooLong(EntriesIn(codec, IndexOf(docs)))
    ensures r.Ok? ==> r.value == FileOf(gram, if stride == 0 then DEFAULT_STRIDE else stride,
                                        EntriesIn(codec, IndexOf(docs)), true)
  {
    hide EntriesIn, TooLong, FileOf, Faithful, CorpusFits, PartialOf, MergeOut, Bad, AllDistinct, FitsFields, Sorted,
         ChunkOf;
    ghost var lists := AllEntries(codec, chunks);
    var files: seq<bytes> := [];
    for i := 0 to |chunks|
      invariant |files| == i
      invariant forall j :: 0 <= j < i ==>
                  files[j] == PartialOf(lists[j]) && FitsFields(lists[j]) && Sorted(lists[j])
                    && !TooLong(EntriesIn(codec, chunks[j]))
    {
      var w := WriteChunk(codec, chunks[i]);
      if w.Err? {
        return Err(w.error);
      }
      ChunkFits(codec, docs, cuts[i], cuts[i + 1]);
      files := files + [w.value];
    }
    assert ListsOf(codec, chunks, lists) by { ListsAre(codec, chunks); }
    ChunkedBuildIsWhole(codec, docs, cuts, chunks, lists);
    assert MergeOut(codec, lists) == EntriesIn(codec, IndexOf(docs)) by { EntriesInIs(codec, IndexOf(docs)); }
    r := MergePartials(codec, files, gram, stride, lists);
  }

  lemma ListsAre(codec: Codec, ps: seq<Postings<nat>>)
    ensures ListsOf(codec, ps, AllEntries(codec, ps))
  {
  }

  lemma EntriesInIs(codec: Codec, p: Postings<nat>)
    ensures EntriesIn(codec, p) == EntriesOf(Serialized(codec, p))
  {
  }

  /** The two builds side by side: chunked, and in one go. */
  method BuildBoth(codec: Codec, corpus: seq<seq<nat>>, chunks: seq<Postings<nat>>, gram: nat, stride: nat,
                   ghost cuts: seq<nat>)
    returns (chunked: Result<bytes>, whole: Result<bytes>)
    requires Faithful(codec) && CorpusFits(corpus) && gram > 0
    requires ChunksOf(corpus, cuts, chunks) && cuts[|chunks|] == |corpus|
    ensures chunked.Ok? ==> whole == chunked
    ensures chunked.Err? ==> (exists i :: 0 <= i < |chunks| && TooLong(EntriesIn(codec, chunks[i])))
                             || TooLong(EntriesIn(codec, IndexOf(corpus)))
  {
    hide TooLong, FileOf, EntriesOf, IndexOf, ChunksOf, CorpusFits, Faithful;
    chunked := BuildChunked(codec, chunks, gram, stride, corpus, cuts);
    var b := new Agreement.TrigramMonolithBuilder(codec, gram, stride, false);
    assert corpus[..0] == [];
    for d := 0 to |corpus|
      invariant b.Valid() && b.docs == corpus[..d] && fresh(b)
      invariant b.gram == gram && b.stride == (if stride == 0 then DEFAULT_STRIDE else stride) && b.fold
                && b.codec == codec
    {
      var _ := b.AddKeys(corpus[d]);
      assert corpus[..d + 1] == corpus[..d] + [corpus[d]];
    }
    assert corpus[..|corpus|] == corpus;
    whole := b.Write();
  }
}
