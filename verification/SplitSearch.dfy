/** A strict AND over a finished split set's files (reader.go, rust/src/splitset.rs): each split's
    postings read from its file and intersected, its documents rebased by its first ID. */
module SplitSearch {
  import opened Wrappers
  import opened Bytes
  import opened Inverted
  import opened Splits
  import opened SplitRun
  import opened SplitBuilder
  import Agreement
  import RangeIndex
  import RangeReader
  import Ordered

  /** Every split's index fits its file's fields. */
  ghost predicate SplitsFit(cfg: Config, codec: Codec, docs: seq<seq<nat>>, specs: seq<Spec>) {
    forall i :: 0 <= i < |specs| ==>
      RangeIndex.Fits(cfg.gram, Stride(cfg), Serialized(codec, IndexOf(Covered(docs, specs[i]))), cfg.fold)
  }

  /** Reading a key gives its documents in the index `p`, whenever the read succeeds. */
  ghost predicate ReadsKey(codec: Codec, r: RangeReader.Reader, p: Postings<nat>, key: nat) {
    match RangeReader.Posting(r, key)
    case Ok(None) => At(p, key) == {}
    case Ok(Some(b)) => codec.de(b) == Some(At(p, key))
    case Err(_) => true
  }

  ghost predicate KeysRead(r: RangeReader.Reader, keys: seq<nat>) {
    forall key :: key in keys ==> RangeReader.Posting(r, key).Ok?
  }

  ghost predicate FileReads(file: bytes, keys: seq<nat>) {
    RangeReader.Open(file).Ok? && KeysRead(RangeReader.Open(file).value, keys)
  }

  /** The postings of the keys in one file, intersected; it fails when one cannot be read. */
  method AndOfFile(codec: Codec, r: RangeReader.Reader, keys: seq<nat>, ghost p: Postings<nat>)
    returns (res: Result<set<nat>>)
    requires forall key :: key in keys ==> ReadsKey(codec, r, p, key)
    ensures res.Ok? <==> KeysRead(r, keys)
    ensures res.Ok? ==> res.value == And(p, keys)
  {
    hide RangeReader.Posting;
    var acc: set<nat> := {};
    for i := 0 to |keys|
      invariant forall j :: 0 <= j < i ==> RangeReader.Posting(r, keys[j]).Ok?
      invariant acc == And(p, keys[..i])
    {
      var posting := RangeReader.Posting(r, keys[i]);
      assert keys[i] in keys && ReadsKey(codec, r, p, keys[i]);
      if posting.Err? {
        return Err(posting.error);
      }
      var docs := if posting.value.None? then Some({}) else codec.de(posting.value.value);
      acc := if i == 0 then docs.value else acc * docs.value;
      AndNext(p, keys, i);
    }
    assert keys[..|keys|] == keys;
    res := Ok(acc);
  }

  lemma AndNext(p: Postings<nat>, keys: seq<nat>, i: nat)
    requires i < |keys|
    ensures And(p, keys[..i + 1]) == if i == 0 then At(p, keys[0]) else And(p, keys[..i]) * At(p, keys[i])
  {
    assert keys[..i + 1][..i] == keys[..i];
  }

  lemma SplitReads(cfg: Config, codec: Codec, docs: seq<seq<nat>>, forced: set<nat>, s: State<nat>, i: nat,
                   r: RangeReader.Reader, keys: seq<nat>)
    requires Consistent(RulesOf(cfg, codec), docs, forced, s) && i < |s.specs| && Faithful(codec)
    requires SplitsFit(cfg, codec, docs, s.specs) && RangeReader.Open(s.blobs[i]) == Ok(r)
    ensures forall key :: key in keys ==> ReadsKey(codec, r, IndexOf(Covered(docs, s.specs[i])), key)
  {
    hide RangeIndex.Fits, Consistent, IndexOf, Covered, RangeReader.Open, RangeReader.Posting,
         RangeReader.BlockTooLarge;
    StateMeans(RulesOf(cfg, codec), docs, forced, s);
    forall key | key in keys ensures ReadsKey(codec, r, IndexOf(Covered(docs, s.specs[i])), key) {
      Agreement.SplitReadsBack(cfg, codec, docs, forced, s, i, r, key);
      TooLargeFails(r, key);
    }
  }

  lemma TooLargeFails(r: RangeReader.Reader, key: nat)
    ensures RangeReader.BlockTooLarge(r, key) ==> RangeReader.Posting(r, key).Err?
  {
  }

  /** The split files' answer is the corpus's: over a finished builder's files, in split order, the
      documents that hold every key, ascending. It fails exactly when some read does. */
  method AndOverFiles(codec: Codec, specs: seq<Spec>, files: seq<bytes>, keys: seq<nat>, ghost cfg: Config,
                      ghost docs: seq<seq<nat>>, ghost forced: set<nat>, ghost s: State<nat>)
    returns (res: Result<seq<nat>>)
    requires Consistent(RulesOf(cfg, codec), docs, forced, s) && s.openCount == 0 && Faithful(codec)
    requires specs == s.specs && files == s.blobs && SplitsFit(cfg, codec, docs, specs)
    ensures res.Ok? <==> forall i :: 0 <= i < |files| ==> FileReads(files[i], keys)
    ensures res.Ok? ==> res.value == Ordered.Ascending(Inverted.Matching(docs, keys))
  {
    hide RangeIndex.Fits, Consistent, IndexOf, Covered, RangeReader.Open, And, Rebased, Inverted.Matching, SplitsFit,
         ReadsKey, KeysRead, AndBySplit, Ordered.Ascending;
    StateMeans(RulesOf(cfg, codec), docs, forced, s);
    var found: seq<nat> := [];
    assert specs[..0] == [];
    assert AndBySplit(docs, [], keys) == [] by { NoSplits(docs, keys); }
    for i := 0 to |files|
      invariant forall j :: 0 <= j < i ==> FileReads(files[j], keys)
      invariant found == AndBySplit(docs, specs[..i], keys)
    {
      var r := RangeReader.Open(files[i]);
      if r.Err? {
        return Err(r.error);
      }
      SplitReads(cfg, codec, docs, forced, s, i, r.value, keys);
      var hits := AndOfFile(codec, r.value, keys, IndexOf(Covered(docs, specs[i])));
      if hits.Err? {
        return Err(hits.error);
      }
      found := found + Rebased(Ordered.Ascending(hits.value), specs[i].docIdLo);
      AndBySplitNext(docs, specs, keys, i);
    }
    assert specs[..|files|] == specs;
    FinishedAnd(RulesOf(cfg, codec), docs, forced, s, keys);
    res := Ok(found);
  }
}
