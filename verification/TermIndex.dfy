/** The term index file (terms.go): postings split at the head boundary, the front-coded
    dictionary over them, and the router over the blocks' last terms. */
module TermIndex {
  import opened Wrappers
  import opened Bytes
  import opened FrontCoding
  import opened Splits
  import TermOrder

  const SIZE_LIMIT: nat := 0x100_0000
  const OFFSET_LIMIT: nat := 0x100_0000_0000

  type TermMap = map<bytes, set<nat>>

  /** The file past its header. The router is an ordered map from each block's last term to the
      block's packed place, listed in key order. */
  datatype TermFile = TermFile(router: seq<(bytes, nat)>, dict: bytes, posts: bytes)

  // ----- postings -----

  function HeadOf(s: set<nat>, boundary: nat): set<nat> {
    set d | d in s && d < boundary
  }

  function TailOf(s: set<nat>, boundary: nat): set<nat> {
    set d | d in s && d >= boundary
  }

  lemma HeadAndTail(s: set<nat>, boundary: nat)
    ensures HeadOf(s, boundary) + TailOf(s, boundary) == s
  {
  }

  /** Tail size, head, tail. */
  function PostingOf(codec: Codec, s: set<nat>, boundary: nat): bytes {
    LE(|codec.ser(TailOf(s, boundary))|, 4) + (codec.ser(HeadOf(s, boundary)) + codec.ser(TailOf(s, boundary)))
  }

  function Parts(codec: Codec, m: TermMap, terms: seq<bytes>, boundary: nat): (parts: seq<bytes>)
    ensures |parts| == |terms|
    ensures forall i :: 0 <= i < |terms| && terms[i] in m ==> parts[i] == PostingOf(codec, m[terms[i]], boundary)
  {
    seq(|terms|, i requires 0 <= i < |terms| => if terms[i] in m then PostingOf(codec, m[terms[i]], boundary) else [])
  }

  function ItemAt(codec: Codec, m: TermMap, terms: seq<bytes>, boundary: nat, i: nat): Item
    requires i < |terms|
  {
    Item(terms[i], Start(Parts(codec, m, terms, boundary), i),
         if terms[i] in m then |codec.ser(HeadOf(m[terms[i]], boundary))| else 0)
  }

  /** The dictionary: each term with the place and the size of its head posting. */
  function ItemsOf(codec: Codec, m: TermMap, terms: seq<bytes>, boundary: nat): (items: seq<Item>)
    ensures |items| == |terms| && forall i :: 0 <= i < |terms| ==> items[i] == ItemAt(codec, m, terms, boundary, i)
  {
    seq(|terms|, i requires 0 <= i < |terms| => ItemAt(codec, m, terms, boundary, i))
  }

  /** What the size and offset fields of one term can hold. */
  ghost predicate TermFits(codec: Codec, m: TermMap, terms: seq<bytes>, boundary: nat, i: nat)
    requires i < |terms|
  {
    && terms[i] in m && |codec.ser(HeadOf(m[terms[i]], boundary))| < SIZE_LIMIT
    && |codec.ser(TailOf(m[terms[i]], boundary))| < TWO_32
    && Start(Parts(codec, m, terms, boundary), i) < OFFSET_LIMIT
  }

  ghost predicate TermsFit(codec: Codec, m: TermMap, terms: seq<bytes>, boundary: nat) {
    forall i :: 0 <= i < |terms| ==> TermFits(codec, m, terms, boundary, i)
  }

  // ----- the router -----

  function Pack(off: nat, len: nat): nat { off * SIZE_LIMIT + len }

  lemma PackUnpacks(off: nat, len: nat)
    requires len < SIZE_LIMIT
    ensures Pack(off, len) / SIZE_LIMIT == off && Pack(off, len) % SIZE_LIMIT == len
  {
  }

  ghost predicate BlockFits(b: DictBlock) {
    |b.bs| < SIZE_LIMIT && b.off < OFFSET_LIMIT
  }

  function RouterOf(blocks: seq<DictBlock>): (router: seq<(bytes, nat)>)
    ensures |router| == |blocks|
    ensures forall i :: 0 <= i < |blocks| ==> router[i] == (blocks[i].lastTerm, Pack(blocks[i].off, |blocks[i].bs|))
  {
    seq(|blocks|, i requires 0 <= i < |blocks| => (blocks[i].lastTerm, Pack(blocks[i].off, |blocks[i].bs|)))
  }

  /** `f` is the file of `m`, its dictionary cut into `groups`. */
  ghost predicate IsWritten(codec: Codec, m: TermMap, boundary: nat, cap: nat, f: TermFile, groups: seq<seq<Item>>) {
    var terms := TermOrder.SortedTerms(m.Keys);
    && TermsFit(codec, m, terms, boundary) && (forall t :: t in m ==> |t| < TWO_64)
    && Flatten(groups) == ItemsOf(codec, m, terms, boundary)
    && f.posts == Join(Parts(codec, m, terms, boundary))
    && f.dict == Join(BlockBytes(groups))
    && exists blocks ::
         Emitted(cap, groups, blocks, |f.dict|) && f.router == RouterOf(blocks)
         && forall b :: b in blocks ==> BlockFits(b)
  }

  // ----- writing -----

  ghost predicate Pushing(w: DictBlockWriter, items: seq<Item>)
    reads w
  {
    w.Valid() && w.Pushed() == items && (w.groups != [] ==> w.open != [])
  }

  lemma PartNext(codec: Codec, m: TermMap, terms: seq<bytes>, boundary: nat, i: nat)
    requires i < |terms| && terms[i] in m
    ensures Join(Parts(codec, m, terms, boundary)[..i + 1])
            == Join(Parts(codec, m, terms, boundary)[..i]) + PostingOf(codec, m[terms[i]], boundary)
  {
    hide PostingOf, Join;
    var parts := Parts(codec, m, terms, boundary);
    assert parts[..i + 1] == parts[..i] + [parts[i]];
    JoinAppend(parts[..i], parts[i]);
  }

  lemma TermFitsMeans(codec: Codec, m: TermMap, terms: seq<bytes>, boundary: nat, i: nat)
    requires i < |terms| && terms[i] in m
    ensures TermFits(codec, m, terms, boundary, i)
            <==> |codec.ser(HeadOf(m[terms[i]], boundary))| < SIZE_LIMIT
                 && |codec.ser(TailOf(m[terms[i]], boundary))| < TWO_32
                 && |Join(Parts(codec, m, terms, boundary)[..i])| < OFFSET_LIMIT
  {
  }

  /** Lays the postings out and pushes a dictionary entry for each; nothing when a field overflows. */
  method WritePostings(codec: Codec, m: TermMap, terms: seq<bytes>, boundary: nat, w: DictBlockWriter)
    returns (r: Option<(bytes, seq<(bytes, nat)>)>)
    requires Pushing(w, []) && (forall i :: 0 <= i < |terms| ==> terms[i] in m && |terms[i]| < TWO_64)
    modifies w
    ensures r.Some? <==> TermsFit(codec, m, terms, boundary)
    ensures r.Some? ==> Pushing(w, ItemsOf(codec, m, terms, boundary))
    ensures r.Some? ==> r.value.0 == Join(Parts(codec, m, terms, boundary))
    ensures r.Some? ==> |r.value.1| == |terms| && forall i :: 0 <= i < |terms| ==>
              r.value.1[i] == (terms[i], Start(Parts(codec, m, terms, boundary), i))
  {
    hide Emitted, Writing, Full, Flatten, Join, PostingOf, HeadOf, TailOf, TermFits, LE, WithinCap;
    ghost var parts := Parts(codec, m, terms, boundary);
    ghost var items := ItemsOf(codec, m, terms, boundary);
    var region: bytes, dict := [], [];
    assert Join(parts[..0]) == [] by { JoinNone(parts); }
    assert items[..0] == [];
    for i := 0 to |terms|
      invariant Pushing(w, items[..i])
      invariant region == Join(parts[..i])
      invariant forall j :: 0 <= j < i ==> TermFits(codec, m, terms, boundary, j)
      invariant |dict| == i && forall j :: 0 <= j < i ==> dict[j] == (terms[j], Start(parts, j))
    {
      var posting := m[terms[i]];
      var head, tail := codec.ser(HeadOf(posting, boundary)), codec.ser(TailOf(posting, boundary));
      var headOff := |region|;
      TermFitsMeans(codec, m, terms, boundary, i);
      if |head| >= SIZE_LIMIT || headOff >= OFFSET_LIMIT || |tail| >= TWO_32 {
        return None;
      }
      PartNext(codec, m, terms, boundary, i);
      PostingIs(codec, posting, boundary);
      region := region + (LE(|tail|, 4) + (head + tail));
      assert Fits(Item(terms[i], headOff, |head|));
      w.Push(Item(terms[i], headOff, |head|));
      dict := dict + [(terms[i], headOff)];
      assert items[..i + 1] == items[..i] + [items[i]];
    }
    assert items[..|terms|] == items && parts[..|terms|] == parts;
    r := Some((region, dict));
  }

  lemma JoinNone(parts: seq<bytes>)
    ensures Join(parts[..0]) == []
  {
  }

  lemma PostingIs(codec: Codec, s: set<nat>, boundary: nat)
    ensures PostingOf(codec, s, boundary)
            == LE(|codec.ser(TailOf(s, boundary))|, 4) + (codec.ser(HeadOf(s, boundary))
                                                          + codec.ser(TailOf(s, boundary)))
  {
  }

  /** The router over the blocks, and the dictionary region; nothing when a block's place does not pack. */
  method WriteRouter(blocks: seq<DictBlock>, ghost groups: seq<seq<Item>>, ghost cap: nat, ghost dictLen: nat)
    returns (r: Option<(seq<(bytes, nat)>, bytes)>)
    requires Emitted(cap, groups, blocks, dictLen)
    ensures r.Some? <==> forall b :: b in blocks ==> BlockFits(b)
    ensures r.Some? ==> r.value == (RouterOf(blocks), Join(BlockBytes(groups))) && |r.value.1| == dictLen
  {
    hide Join, BlockOf, Full, WithinCap;
    var router, dict := [], [];
    assert Join(BlockBytes(groups)[..0]) == [] by { JoinNone(BlockBytes(groups)); }
    for i := 0 to |blocks|
      invariant |router| == i && forall j :: 0 <= j < i ==> router[j] == RouterOf(blocks)[j]
      invariant dict == Join(BlockBytes(groups)[..i])
      invariant forall j :: 0 <= j < i ==> BlockFits(blocks[j])
    {
      if |blocks[i].bs| >= SIZE_LIMIT || blocks[i].off >= OFFSET_LIMIT {
        assert blocks[i] in blocks;
        return None;
      }
      router := router + [(blocks[i].lastTerm, Pack(blocks[i].off, |blocks[i].bs|))];
      assert BlockBytes(groups)[..i + 1] == BlockBytes(groups)[..i] + [blocks[i].bs];
      JoinAppend(BlockBytes(groups)[..i], blocks[i].bs);
      dict := dict + blocks[i].bs;
    }
    assert BlockBytes(groups)[..|blocks|] == BlockBytes(groups);
    assert router == RouterOf(blocks);
    r := Some((router, dict));
  }

  /** Finishes the dictionary: the router and the region; nothing when a block's place does not pack. */
  method FinishDictionary(w: DictBlockWriter, ghost items: seq<Item>)
    returns (r: Option<(seq<(bytes, nat)>, bytes)>, ghost groups: seq<seq<Item>>, ghost blocks: seq<DictBlock>)
    requires Pushing(w, items)
    modifies w
    ensures Flatten(groups) == items && Emitted(w.cap, groups, blocks, |Join(BlockBytes(groups))|)
    ensures r.Some? <==> forall b :: b in blocks ==> BlockFits(b)
    ensures r.Some? ==> r.value == (RouterOf(blocks), Join(BlockBytes(groups)))
  {
    hide Emitted, Writing, Full, Flatten, Join, BlockFits;
    var bs := w.Finish();
    groups, blocks := w.groups, bs;
    EmittedLength(w.cap, groups, blocks, w.dictLen);
    r := WriteRouter(bs, groups, w.cap, w.dictLen);
  }

  /** The list has the terms of `m`, each once, in byte order. */
  ghost predicate ListsInByteOrder(dict: seq<(bytes, nat)>, m: TermMap) {
    && (forall t :: t in m <==> exists i :: 0 <= i < |dict| && dict[i].0 == t)
    && forall i, j :: 0 <= i < j < |dict| ==> TermOrder.BytesBelow(dict[i].0, dict[j].0)
  }

  /** The list has each entry's term and the offset of its posting. */
  ghost predicate ListsItems(dict: seq<(bytes, nat)>, items: seq<Item>) {
    |dict| == |items| && forall i :: 0 <= i < |items| ==> dict[i] == (items[i].term, items[i].headOff)
  }

  lemma DictInByteOrder(codec: Codec, m: TermMap, boundary: nat, dict: seq<(bytes, nat)>)
    requires var terms := TermOrder.SortedTerms(m.Keys);
             |dict| == |terms| && forall i :: 0 <= i < |terms| ==>
               dict[i] == (terms[i], Start(Parts(codec, m, terms, boundary), i))
    ensures ListsInByteOrder(dict, m)
    ensures ListsItems(dict, ItemsOf(codec, m, TermOrder.SortedTerms(m.Keys), boundary))
  {
    hide ListsInByteOrder, Start, Parts, HeadOf;
    SortedInByteOrder(dict, m);
  }

  lemma SortedInByteOrder(dict: seq<(bytes, nat)>, m: TermMap)
    requires var terms := TermOrder.SortedTerms(m.Keys);
             |dict| == |terms| && forall i :: 0 <= i < |terms| ==> dict[i].0 == terms[i]
    ensures ListsInByteOrder(dict, m)
  {
    hide TermOrder.BytesBelow, TermOrder.Sorted, TermOrder.SortedTerms;
    var terms := TermOrder.SortedTerms(m.Keys);
    TermOrder.SortedTermsList(m.Keys);
    TermOrder.SortedMeans(terms);
    forall t ensures t in m <==> exists i :: 0 <= i < |dict| && dict[i].0 == t {
      assert t in m <==> t in terms;
      if t in terms {
        var i :| 0 <= i < |terms| && terms[i] == t;
        assert dict[i].0 == t;
      }
    }
  }

  /** Writes the index of `m` and returns its dictionary: every term in order with the offset of
      its posting. It fails when a filter is on without a language, when a posting's size or place
      overflows its field, or when a block's does. */
  method WriteTermIndex(codec: Codec, m: TermMap, boundary: nat, filters: bool, language: bool, blockCap: nat)
    returns (r: Result<(TermFile, seq<(bytes, nat)>)>, ghost groups: seq<seq<Item>>, ghost blocks: seq<DictBlock>)
    requires forall t :: t in m ==> |t| < TWO_64
    ensures var terms := TermOrder.SortedTerms(m.Keys);
            r.Err? <==> (filters && !language) || !TermsFit(codec, m, terms, boundary) || !forall b :: b in blocks ==>
              BlockFits(b)
    ensures var terms := TermOrder.SortedTerms(m.Keys);
            (!filters || language) && TermsFit(codec, m, terms, boundary) ==>
              && Flatten(groups) == ItemsOf(codec, m, terms, boundary)
              && Emitted(if blockCap == 0 then DEFAULT_CAP else blockCap, groups, blocks, |Join(BlockBytes(groups))|)
    ensures r.Ok? ==> IsWritten(codec, m, boundary, if blockCap == 0 then DEFAULT_CAP else blockCap, r.value.0, groups)
    ensures r.Ok? ==> ListsItems(r.value.1, Flatten(groups)) && ListsInByteOrder(r.value.1, m)
  {
    hide Emitted, Writing, Full, Flatten, Join, TermOrder.Sorted, TermsFit, ListsInByteOrder, ListsItems, IsWritten,
         BlockFits, Parts, ItemsOf;
    groups, blocks := [], [];
    if filters && !language {
      return Err(Malformed), groups, blocks;
    }
    var terms := TermOrder.SortedTerms(m.Keys);
    TermOrder.SortedTermsList(m.Keys);
    forall i | 0 <= i < |terms| ensures terms[i] in m && |terms[i]| < TWO_64 {
      assert terms[i] in terms;
    }
    var w := new DictBlockWriter(blockCap);
    assert Pushing(w, []) by { FlattenNone(); }
    var written := WritePostings(codec, m, terms, boundary, w);
    if written.None? {
      return Err(TooLarge), groups, blocks;
    }
    var routed;
    routed, groups, blocks := FinishDictionary(w, ItemsOf(codec, m, terms, boundary));
    if routed.None? {
      return Err(TooLarge), groups, blocks;
    }
    DictInByteOrder(codec, m, boundary, written.value.1);
    Assembled(codec, m, boundary, w.cap, routed.value, written.value.0, groups, blocks);
    r := Ok((TermFile(routed.value.0, routed.value.1, written.value.0), written.value.1));
  }

  lemma Assembled(codec: Codec, m: TermMap, boundary: nat, cap: nat, routed: (seq<(bytes, nat)>, bytes), posts: bytes,
                  groups: seq<seq<Item>>, blocks: seq<DictBlock>)
    requires var terms := TermOrder.SortedTerms(m.Keys);
             && TermsFit(codec, m, terms, boundary) && (forall t :: t in m ==> |t| < TWO_64)
             && Flatten(groups) == ItemsOf(codec, m, terms, boundary) && posts == Join(Parts(codec, m, terms, boundary))
    requires routed == (RouterOf(blocks), Join(BlockBytes(groups)))
    requires Emitted(cap, groups, blocks, |routed.1|) && forall b :: b in blocks ==> BlockFits(b)
    ensures IsWritten(codec, m, boundary, cap, TermFile(routed.0, routed.1, posts), groups)
  {
    hide Emitted, Flatten, Join, TermsFit, BlockFits, Parts, ItemsOf;
  }

  lemma FlattenNone()
    ensures Flatten([]) == []
  {
  }

  lemma EmittedLength(cap: nat, groups: seq<seq<Item>>, blocks: seq<DictBlock>, dictLen: nat)
    requires Emitted(cap, groups, blocks, dictLen)
    ensures dictLen == |Join(BlockBytes(groups))|
  {
  }
}
