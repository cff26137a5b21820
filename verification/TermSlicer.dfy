/** Slicing a written term monolith into splits by document range (slice_term_monolith.rs). */
module TermSlicer {
  import opened Wrappers
  import opened Bytes
  import opened Inverted
  import opened Splits
  import opened FrontCoding
  import opened TermIndex
  import opened TermSearch
  import opened TermWritten
  import TermOrder
  import Slicer

  // ----- the entries of a slice -----

  datatype TermDocs = TermDocs(term: bytes, docs: set<nat>)

  /** What one monolith entry pushes to the split of `r`. */
  function SliceTerm(t: bytes, full: set<nat>, r: Slicer.DocRange): seq<TermDocs> {
    var local := Window(full, r.lo, r.hi);
    if local == {} then [] else [TermDocs(t, local)]
  }

  function SliceTerms(terms: seq<bytes>, m: TermMap, r: Slicer.DocRange): seq<TermDocs> {
    if terms == [] then []
    else
      var t := terms[|terms| - 1];
      SliceTerms(terms[..|terms| - 1], m, r) + SliceTerm(t, At(m, t), r)
  }

  /** The map a list of pushed terms stands for. */
  function MapOfTerms(q: seq<TermDocs>): TermMap {
    if q == [] then map[] else MapOfTerms(q[..|q| - 1])[q[|q| - 1].term := q[|q| - 1].docs]
  }

  lemma {:induction false} SlicedMap(terms: seq<bytes>, m: TermMap, r: Slicer.DocRange)
    requires forall i, j :: 0 <= i < j < |terms| ==> terms[i] != terms[j]
    requires forall t :: t in terms ==> t in m
    ensures forall t :: t in MapOfTerms(SliceTerms(terms, m, r)) <==> t in terms && Window(m[t], r.lo, r.hi) != {}
    ensures forall t :: t in MapOfTerms(SliceTerms(terms, m, r)) ==>
              MapOfTerms(SliceTerms(terms, m, r))[t] == Window(m[t], r.lo, r.hi)
    decreases |terms|
  {
    if terms != [] {
      hide Window;
      var front, t := terms[..|terms| - 1], terms[|terms| - 1];
      assert forall x :: x in terms <==> x in front || x == t;
      SlicedMap(front, m, r);
      var q, more := SliceTerms(front, m, r), SliceTerm(t, At(m, t), r);
      if more != [] {
        assert (q + more)[..|q + more| - 1] == q;
      } else {
        assert q + more == q;
      }
    }
  }

  /** Slicing every term of a map gives the sliced map. */
  lemma SlicedTerms(m: TermMap, r: Slicer.DocRange)
    ensures MapOfTerms(SliceTerms(TermOrder.SortedTerms(m.Keys), m, r)) == SliceOf(m, r.lo, r.hi)
  {
    var terms := TermOrder.SortedTerms(m.Keys);
    TermOrder.SortedTermsList(m.Keys);
    forall i, j | 0 <= i < j < |terms| ensures terms[i] != terms[j] {
      TermOrder.LessNot(terms[i], terms[j]);
    }
    SlicedMap(terms, m, r);
    var a, b := MapOfTerms(SliceTerms(terms, m, r)), SliceOf(m, r.lo, r.hi);
    assert a.Keys == b.Keys;
  }

  lemma SliceTermsNext(terms: seq<bytes>, m: TermMap, r: Slicer.DocRange, i: nat)
    requires i < |terms|
    ensures SliceTerms(terms[..i + 1], m, r) == SliceTerms(terms[..i], m, r) + SliceTerm(terms[i], At(m, terms[i]), r)
  {
    assert terms[..i + 1][..i] == terms[..i];
  }

  // ----- the scan -----

  /** What each split has been pushed after the first `n` terms. */
  ghost predicate PushedTo(sinks: seq<seq<TermDocs>>, ranges: seq<Slicer.DocRange>, m: TermMap, n: nat) {
    var terms := TermOrder.SortedTerms(m.Keys);
    && |sinks| == |ranges| && n <= |terms|
    && forall i :: 0 <= i < |sinks| ==> sinks[i] == SliceTerms(terms[..n], m, ranges[i])
  }

  method PushSlices(sinks: seq<seq<TermDocs>>, ranges: seq<Slicer.DocRange>, term: bytes, full: set<nat>)
    returns (next: seq<seq<TermDocs>>)
    requires |sinks| == |ranges|
    ensures |next| == |sinks| && forall i :: 0 <= i < |sinks| ==> next[i] == sinks[i] + SliceTerm(term, full, ranges[i])
  {
    next := [];
    for si := 0 to |sinks|
      invariant |next| == si && forall i :: 0 <= i < si ==> next[i] == sinks[i] + SliceTerm(term, full, ranges[i])
    {
      var local := Window(full, ranges[si].lo, ranges[si].hi);
      next := next + [if local == {} then sinks[si] else sinks[si] + [TermDocs(term, local)]];
    }
  }

  lemma PushedNext(sinks: seq<seq<TermDocs>>, next: seq<seq<TermDocs>>, ranges: seq<Slicer.DocRange>, m: TermMap,
                   n: nat, t: bytes)
    requires PushedTo(sinks, ranges, m, n) && n < |TermOrder.SortedTerms(m.Keys)|
             && t == TermOrder.SortedTerms(m.Keys)[n] && t in m
    requires |next| == |sinks| && forall i :: 0 <= i < |sinks| ==> next[i] == sinks[i] + SliceTerm(t, m[t], ranges[i])
    ensures PushedTo(next, ranges, m, n + 1)
  {
    hide SliceTerm, SliceTerms;
    var terms := TermOrder.SortedTerms(m.Keys);
    forall i | 0 <= i < |next| ensures next[i] == SliceTerms(terms[..n + 1], m, ranges[i]) {
      SliceTermsNext(terms, m, ranges[i], n);
    }
  }

  /** The postings reader stands where term `n`'s posting starts. */
  ghost predicate InStep(codec: Codec, f: TermFile, src: Source, n: nat, postPos: nat) {
    var parts := Parts(codec, src.m, TermOrder.SortedTerms(src.m.Keys), src.boundary);
    n <= |parts| && postPos == Start(parts, n)
  }

  /** Entry `n` of the dictionary stands at the reader, names the `n`-th term, and its posting
      holds the term's documents; the reader then stands at the next. */
  lemma StepFacts(codec: Codec, f: TermFile, src: Source, n: nat, postPos: nat)
    requires Of(codec, f, src) && OnlyEmptyIsEmpty(codec) && InStep(codec, f, src, n, postPos)
             && n < |Flatten(src.groups)|
    ensures var it := Flatten(src.groups)[n];
            && n < |TermOrder.SortedTerms(src.m.Keys)| && it.term == TermOrder.SortedTerms(src.m.Keys)[n]
            && it.term in src.m
            && it.headOff == postPos && it.headSize == |codec.ser(HeadOf(src.m[it.term], src.boundary))|
            && ReadAt(f.posts, postPos, 4).Some? && Field(ReadAt(f.posts, postPos, 4).value, 0, 4)
               == |codec.ser(Tail(src, it.term))|
            && ReadAt(f.posts, postPos + 4, it.headSize) == Some(codec.ser(HeadOf(src.m[it.term], src.boundary)))
            && ReadAt(f.posts, postPos + 4 + it.headSize, |codec.ser(Tail(src, it.term))|)
               == Some(codec.ser(Tail(src, it.term)))
            && (|codec.ser(Tail(src, it.term))| == 0 ==> Tail(src, it.term) == {})
            && HeadOf(src.m[it.term], src.boundary) + Tail(src, it.term) == src.m[it.term]
            && InStep(codec, f, src, n + 1, postPos + 4 + it.headSize + |codec.ser(Tail(src, it.term))|)
  {
    hide Join, Start, Field, HeadOf, TermIndex.TailOf, PostingOf, ReadAt, Flatten, Emitted, TermsFit;
    var it, terms := Flatten(src.groups)[n], TermOrder.SortedTerms(src.m.Keys);
    assert it in Flatten(src.groups);
    var parts := Parts(codec, src.m, terms, src.boundary);
    ItemSource(codec, f, src, it);
    PostingParts(codec, src.m[it.term], src.boundary);
    TermIndex.HeadAndTail(src.m[it.term], src.boundary);
    TermAt(codec, src.m, terms, src.boundary, n);
    var head, tail := codec.ser(HeadOf(src.m[it.term], src.boundary)), codec.ser(Tail(src, it.term));
    HeadOfRead(f.posts, it.headOff + 4, head, tail);
    PartEnds(parts, n);
  }

  lemma TermAt(codec: Codec, m: TermMap, terms: seq<bytes>, boundary: nat, n: nat)
    requires n < |terms|
    ensures ItemsOf(codec, m, terms, boundary)[n].term == terms[n]
    ensures ItemsOf(codec, m, terms, boundary)[n].headOff == Start(Parts(codec, m, terms, boundary), n)
  {
  }

  lemma HeadOfRead(file: bytes, at: nat, head: bytes, tail: bytes)
    requires ReadAt(file, at, |head| + |tail|) == Some(head + tail)
    ensures ReadAt(file, at, |head|) == Some(head)
  {
    assert file[at..at + |head|] == file[at..at + (|head| + |tail|)][..|head|] == head;
  }

  lemma PartEnds(parts: seq<bytes>, n: nat)
    requires n < |parts|
    ensures Start(parts, n + 1) == Start(parts, n) + |parts[n]|
  {
    PartSlice(parts, n);
  }

  /** Reads dictionary and postings in lockstep and fans every term out to the splits. Over a
      written monolith no step fails. */
  method Scan(codec: Codec, f: TermFile, ranges: seq<Slicer.DocRange>, ghost src: Option<Source>)
    returns (r: Result<seq<seq<TermDocs>>>)
    requires src.Some? ==> Of(codec, f, src.value) && OnlyEmptyIsEmpty(codec)
    ensures r.Ok? ==> |r.value| == |ranges|
    ensures src.Some? ==> r.Ok? && PushedTo(r.value, ranges, src.value.m, |src.value.m|)
  {
    hide Of, ReadsAs, PushedTo, InStep, Flatten, ReadBlock, OnlyEmptyIsEmpty;
    var postPos: nat := 0;
    var sinks: seq<seq<TermDocs>> := seq(|ranges|, i => []);
    if src.Some? {
      SourceReads(codec, f, src.value);
      ScanStarts(codec, f, src.value, ranges, sinks);
      ScanEnds(codec, f, src.value);
    }
    ghost var n: nat := 0;
    for b := 0 to |f.router|
      invariant src.Some? ==> PushedTo(sinks, ranges, src.value.m, n) && InStep(codec, f, src.value, n, postPos)
      invariant src.Some? ==> |f.router| == |src.value.groups| && n == |Flatten(src.value.groups[..b])|
      invariant |sinks| == |ranges|
    {
      if src.Some? {
        BlockFacts(f, src.value.groups, b);
        BlockAhead(src.value.groups, b);
      }
      var block := ReadBlock(f, f.router[b].1);
      if block.Err? {
        return Err(block.error);
      }
      var scanned := ScanBlock(codec, f, block.value, ranges, sinks, postPos, src, n, b);
      if scanned.Err? {
        return Err(scanned.error);
      }
      sinks, postPos := scanned.value.0, scanned.value.1;
      n := n + |block.value|;
    }
    if src.Some? {
      assert src.value.groups[..|f.router|] == src.value.groups;
    }
    r := Ok(sinks);
  }

  lemma ScanStarts(codec: Codec, f: TermFile, src: Source, ranges: seq<Slicer.DocRange>, sinks: seq<seq<TermDocs>>)
    requires |sinks| == |ranges| && forall i :: 0 <= i < |sinks| ==> sinks[i] == []
    ensures PushedTo(sinks, ranges, src.m, 0) && InStep(codec, f, src, 0, 0) && Flatten(src.groups[..0]) == []
  {
    var terms := TermOrder.SortedTerms(src.m.Keys);
    assert terms[..0] == [] && src.groups[..0] == [];
  }

  lemma ScanEnds(codec: Codec, f: TermFile, src: Source)
    requires Of(codec, f, src)
    ensures |Flatten(src.groups)| == |src.m| && |f.router| == |src.groups|
  {
    hide Flatten, TermsFit, Parts, Emitted;
    TermOrder.SortedTermsList(src.m.Keys);
    SourceReads(codec, f, src);
    assert |src.m| == |src.m.Keys|;
  }

  /** The entries of block `b` follow those before it. */
  lemma BlockAhead(groups: seq<seq<Item>>, b: nat)
    requires b < |groups|
    ensures Flatten(groups[..b + 1]) == Flatten(groups[..b]) + groups[b]
    ensures |Flatten(groups[..b])| + |groups[b]| <= |Flatten(groups)|
    ensures forall j :: 0 <= j < |groups[b]| ==> Flatten(groups)[|Flatten(groups[..b])| + j] == groups[b][j]
  {
    hide Flatten;
    assert groups[..b + 1] == groups[..b] + [groups[b]];
    FlattenAppend(groups[..b], groups[b]);
    if groups[b] != [] {
      GroupItems(groups, b, 0);
    } else {
      BeforeSplits(groups, b, 0);
    }
    forall j | 0 <= j < |groups[b]| ensures Flatten(groups)[|Flatten(groups[..b])| + j] == groups[b][j] {
      GroupItems(groups, b, j);
    }
  }

  /** Scans the entries of one block. */
  method ScanBlock(codec: Codec, f: TermFile, block: seq<Item>, ranges: seq<Slicer.DocRange>,
                   before: seq<seq<TermDocs>>, pos: nat, ghost src: Option<Source>, ghost n: nat, ghost b: nat)
    returns (r: Result<(seq<seq<TermDocs>>, nat)>)
    requires |before| == |ranges|
    requires src.Some? ==> Of(codec, f, src.value) && OnlyEmptyIsEmpty(codec)
    requires src.Some? ==> PushedTo(before, ranges, src.value.m, n) && InStep(codec, f, src.value, n, pos)
    requires src.Some? ==> n + |block| <= |Flatten(src.value.groups)| && forall j :: 0 <= j < |block| ==>
               Flatten(src.value.groups)[n + j] == block[j]
    ensures src.Some? ==> r.Ok?
    ensures r.Ok? ==> |r.value.0| == |ranges|
    ensures src.Some? ==>
              PushedTo(r.value.0, ranges, src.value.m, n + |block|)
              && InStep(codec, f, src.value, n + |block|, r.value.1)
  {
    hide Of, PushedTo, InStep, Flatten, OnlyEmptyIsEmpty, HeadOf, Tail, ReadAt, SliceTerm;
    var sinks, postPos := before, pos;
    for j := 0 to |block|
      invariant |sinks| == |ranges|
      invariant src.Some? ==> PushedTo(sinks, ranges, src.value.m, n + j) && InStep(codec, f, src.value, n + j, postPos)
    {
      var it := block[j];
      if src.Some? {
        StepFacts(codec, f, src.value, n + j, postPos);
        OfFaithful(codec, f, src.value);
      }
      var read := ReadEntry(codec, f, it, postPos);
      if read.Err? {
        return Err(read.error);
      }
      var next := PushSlices(sinks, ranges, it.term, read.value.0);
      if src.Some? {
        assert read.value.0 == src.value.m[it.term];
        PushedNext(sinks, next, ranges, src.value.m, n + j, it.term);
      }
      sinks, postPos := next, read.value.1;
    }
    r := Ok((sinks, postPos));
  }

  /** The posting at the reader: its documents, and where the reader stands after it. */
  function ReadEntry(codec: Codec, f: TermFile, it: Item, postPos: nat): Result<(set<nat>, nat)> {
    if it.headOff != postPos then Err(Diverged)
    else match ReadAt(f.posts, postPos, 4)
      case None => Err(Truncated)
      case Some(word) =>
        var tailSize := Field(word, 0, 4);
        match ReadAt(f.posts, postPos + 4, it.headSize)
        case None => Err(Truncated)
        case Some(head) =>
          match ReadAt(f.posts, postPos + 4 + it.headSize, tailSize)
          case None => Err(Truncated)
          case Some(tail) =>
            match codec.de(head)
            case None => Err(Malformed)
            case Some(h) =>
              if tailSize == 0 then Ok((h, postPos + 4 + it.headSize))
              else match codec.de(tail)
                case None => Err(Malformed)
                case Some(t) => Ok((h + t, postPos + 4 + it.headSize + tailSize))
  }

  // ----- the slices -----

  /** The index of the documents of `r` fits the file's fields. */
  ghost predicate SliceWrites(codec: Codec, src: Source, r: Slicer.DocRange) {
    Writes(codec, SliceOf(src.m, r.lo, r.hi), src.boundary, DEFAULT_CAP)
  }

  /** A split's file is the written index of the split's documents. */
  ghost predicate IsSlice(codec: Codec, src: Source, r: Slicer.DocRange, f: TermFile) {
    exists groups :: IsWritten(codec, SliceOf(src.m, r.lo, r.hi), src.boundary, DEFAULT_CAP, f, groups)
  }

  /** Writes one split from what was pushed to it. */
  method WriteSplit(codec: Codec, q: seq<TermDocs>, boundary: nat)
    returns (r: Result<TermFile>, ghost groups: seq<seq<Item>>)
    ensures r.Err? ==> r.error == TooLarge
    ensures r.Ok? <==> Writes(codec, MapOfTerms(q), boundary, DEFAULT_CAP)
    ensures r.Ok? ==> IsWritten(codec, MapOfTerms(q), boundary, DEFAULT_CAP, r.value, groups)
  {
    r, groups := WriteIndex(codec, MapOfTerms(q), boundary);
  }

  /** Slices a term monolith into one index for each range. Over a written monolith the lockstep
      never diverges, every file is the index of its documents alone, and it can fail only where a
      split passes a limit of the format. */
  method SliceTermMonolith(codec: Codec, f: TermFile, ranges: seq<Slicer.DocRange>, boundary: nat,
                           ghost src: Option<Source>)
    returns (r: Result<seq<TermFile>>)
    requires src.Some? ==> Of(codec, f, src.value) && OnlyEmptyIsEmpty(codec) && src.value.boundary == boundary
    ensures src.Some? && r.Err? ==> r.error == TooLarge
    ensures src.Some? ==> (r.Ok? <==> forall i :: 0 <= i < |ranges| ==> SliceWrites(codec, src.value, ranges[i]))
    ensures src.Some? && r.Ok? ==> |r.value| == |ranges| && forall i :: 0 <= i < |ranges| ==>
              IsSlice(codec, src.value, ranges[i], r.value[i])
  {
    hide Of, PushedTo, IsWritten, OnlyEmptyIsEmpty, IsSlice, MapOfTerms, SliceOf, Writes;
    var sinks := Scan(codec, f, ranges, src);
    if sinks.Err? {
      return Err(sinks.error);
    }
    var files: seq<TermFile> := [];
    for i := 0 to |ranges|
      invariant |files| == i
      invariant src.Some? ==> forall j :: 0 <= j < i ==> SliceWrites(codec, src.value, ranges[j])
      invariant src.Some? ==> forall j :: 0 <= j < i ==> IsSlice(codec, src.value, ranges[j], files[j])
    {
      var w, groups := WriteSplit(codec, sinks.value[i], boundary);
      if src.Some? {
        PushedAll(sinks.value, ranges, src.value.m, i);
      }
      if w.Err? {
        return Err(w.error);
      }
      if src.Some? {
        SliceIs(codec, src.value, ranges[i], w.value, groups);
      }
      files := files + [w.value];
    }
    r := Ok(files);
  }

  lemma PushedAll(sinks: seq<seq<TermDocs>>, ranges: seq<Slicer.DocRange>, m: TermMap, i: nat)
    requires PushedTo(sinks, ranges, m, |m|) && i < |ranges|
    ensures |sinks| == |ranges| && MapOfTerms(sinks[i]) == SliceOf(m, ranges[i].lo, ranges[i].hi)
  {
    var terms := TermOrder.SortedTerms(m.Keys);
    TermOrder.SortedTermsList(m.Keys);
    assert |m| == |m.Keys| && terms[..|m|] == terms;
    SlicedTerms(m, ranges[i]);
  }

  lemma SliceIs(codec: Codec, src: Source, r: Slicer.DocRange, f: TermFile, groups: seq<seq<Item>>)
    requires IsWritten(codec, SliceOf(src.m, r.lo, r.hi), src.boundary, DEFAULT_CAP, f, groups)
    ensures IsSlice(codec, src, r, f)
  {
  }

  /** Slicing commutes with building: the slice of the corpus's monolith and the index built from
      the range's documents alone are the same bytes. */
  lemma SliceIsBuilt(codec: Codec, docs: seq<seq<bytes>>, src: Source, r: Slicer.DocRange, f: TermFile, g: TermFile,
                     groups: seq<seq<Item>>)
    requires src.m == IndexOf(docs) && r.lo <= r.hi <= |docs| && IsSlice(codec, src, r, f)
    requires IsWritten(codec, IndexOf(docs[r.lo..r.hi]), src.boundary, DEFAULT_CAP, g, groups)
    ensures f == g
  {
    hide IsWritten, IndexOf, SliceOf;
    SliceIsIndex(docs, r.lo, r.hi);
    var fg :| IsWritten(codec, SliceOf(src.m, r.lo, r.hi), src.boundary, DEFAULT_CAP, f, fg);
    WrittenUnique(codec, IndexOf(docs[r.lo..r.hi]), src.boundary, DEFAULT_CAP, f, fg, g, groups);
  }
}
