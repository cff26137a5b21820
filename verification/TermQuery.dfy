/** Resolving a query's terms against a written term index (rust/src/terms.rs,
    rust/src/terms_dict.rs): one wave of dictionary blocks, each read once, then one wave of heads. */
module TermQuery {
  import opened Wrappers
  import opened Bytes
  import opened FrontCoding
  import opened Splits
  import opened TermIndex
  import opened TermSearch
  import opened Inverted
  import Bm25Search
  import TermOrder

  type TermHead = Bm25Search.TermHead

  // ----- one block -----

  /** Scans a block's entries in order and stops at the first that is not below the term. */
  method ScanFor(items: seq<Item>, term: bytes) returns (r: Option<Item>)
    ensures ItemsSorted(items) ==> (r.Some? <==> exists it :: it in items && it.term == term)
    ensures r.Some? ==> r.value in items && r.value.term == term
  {
    hide TermOrder.Less, ItemsSorted;
    for i := 0 to |items|
      invariant forall j :: 0 <= j < i ==> TermOrder.Less(items[j].term, term)
    {
      if items[i].term == term {
        return Some(items[i]);
      }
      if !TermOrder.Less(items[i].term, term) {
        forall it | it in items && ItemsSorted(items) ensures it.term != term {
          LaterThan(items, i, term, it);
        }
        return None;
      }
    }
    TermOrder.LessIrreflexive(term);
    r := None;
  }

  lemma LaterThan(items: seq<Item>, i: nat, term: bytes, it: Item)
    requires ItemsSorted(items) && i < |items| && it in items
    requires items[i].term != term && !TermOrder.Less(items[i].term, term)
    requires forall j :: 0 <= j < i ==> TermOrder.Less(items[j].term, term)
    ensures it.term != term
  {
    hide TermOrder.Less;
    var j :| 0 <= j < |items| && items[j] == it;
    TermOrder.LessIrreflexive(term);
    if j > i {
      assert TermOrder.Less(items[i].term, items[j].term);
    }
  }

  // ----- a wave of blocks -----

  /** The terms that the index has, in order. */
  function Kept(m: TermMap, terms: seq<bytes>): (q: seq<bytes>)
    ensures forall t :: t in q <==> t in terms && t in m
  {
    if terms == [] then []
    else Kept(m, terms[..|terms| - 1]) + if terms[|terms| - 1] in m then [terms[|terms| - 1]] else []
  }

  /** The entries of these terms, in order. */
  ghost predicate Located(groups: seq<seq<Item>>, terms: seq<bytes>, locs: seq<Item>) {
    && |locs| == |terms|
    && forall i :: 0 <= i < |locs| ==> locs[i].term == terms[i] && locs[i] in Flatten(groups)
  }

  /** The terms that are routed somewhere, each with the packed place of its block. */
  function Places(f: TermFile, terms: seq<bytes>): seq<(bytes, nat)> {
    if terms == [] then []
    else
      var t := terms[|terms| - 1];
      var b := Ge(f.router, t, 0);
      Places(f, terms[..|terms| - 1]) + if b < |f.router| then [(t, f.router[b].1)] else []
  }

  function Terms(places: seq<(bytes, nat)>): (q: seq<bytes>)
    ensures |q| == |places| && forall i :: 0 <= i < |q| ==> q[i] == places[i].0
  {
    seq(|places|, i requires 0 <= i < |places| => places[i].0)
  }

  /** The distinct blocks the terms are routed to. */
  ghost function Routed(f: TermFile, terms: seq<bytes>): set<nat> {
    set q | q in Places(f, terms) :: q.1
  }

  ghost predicate IsPlace(f: TermFile, terms: seq<bytes>, q: (bytes, nat)) {
    var b := Ge(f.router, q.0, 0);
    q.0 in terms && b < |f.router| && q.1 == f.router[b].1
  }

  lemma {:induction false} PlacesAre(f: TermFile, terms: seq<bytes>, q: (bytes, nat))
    ensures q in Places(f, terms) <==> IsPlace(f, terms, q)
  {
    if terms != [] {
      var front, t := terms[..|terms| - 1], terms[|terms| - 1];
      PlacesAre(f, front, q);
      assert q.0 in terms <==> q.0 in front || q.0 == t;
    }
  }

  /** A term the index has is routed to the block that holds its entry. */
  lemma HeldIsRouted(codec: Codec, f: TermFile, src: Source, t: bytes)
    requires Of(codec, f, src)
    ensures var b := Ge(f.router, t, 0);
            && |f.router| == |src.groups|
            && (b < |src.groups| ==> ReadBlock(f, f.router[b].1) == Ok(src.groups[b]) && ItemsSorted(src.groups[b]))
            && (t in src.m <==> b < |src.groups| && exists it :: it in src.groups[b] && it.term == t)
            && (b < |src.groups| ==> forall it :: it in src.groups[b] ==> it in Flatten(src.groups))
  {
    hide Of, ReadsAs, Flatten, ReadBlock, TermOrder.Less, ItemsSorted;
    SourceReads(codec, f, src);
    FindRouted(f, src.groups, t);
    var b := Ge(f.router, t, 0);
    if t in src.m {
      TermListed(codec, f, src, t);
    }
    if b < |src.groups| {
      GroupSorted(f, src.groups, b);
      if it :| it in src.groups[b] && it.term == t {
        ItemSource(codec, f, src, it);
      }
    }
  }

  lemma GroupSorted(f: TermFile, groups: seq<seq<Item>>, b: nat)
    requires ReadsAs(f, groups) && b < |groups|
    ensures ItemsSorted(groups[b])
  {
    hide Flatten, BlockReads, TermOrder.Less;
    forall i, j | 0 <= i < j < |groups[b]| ensures TermOrder.Less(groups[b][i].term, groups[b][j].term) {
      GroupOrder(groups, b, i, b, j);
    }
  }

  lemma {:induction false} KeptOfPlaces(codec: Codec, f: TermFile, src: Source, terms: seq<bytes>)
    requires Of(codec, f, src)
    ensures Kept(src.m, Terms(Places(f, terms))) == Kept(src.m, terms)
  {
    hide Of;
    if terms != [] {
      var front, t := terms[..|terms| - 1], terms[|terms| - 1];
      KeptOfPlaces(codec, f, src, front);
      HeldIsRouted(codec, f, src, t);
      var b := Ge(f.router, t, 0);
      if b < |f.router| {
        var q := Places(f, terms);
        assert Terms(q)[..|q| - 1] == Terms(Places(f, front));
      } else {
        assert Places(f, terms) == Places(f, front);
      }
    }
  }

  lemma {:induction false} DistinctSize(q: seq<nat>, s: set<nat>)
    requires forall i, j :: 0 <= i < j < |q| ==> q[i] != q[j]
    requires forall v :: v in s <==> v in q
    ensures |s| == |q|
  {
    if q != [] {
      var front, v := q[..|q| - 1], q[|q| - 1];
      assert v !in front && forall u :: u in q <==> u in front || u == v;
      DistinctSize(front, s - {v});
    }
  }

  lemma LocatedNext(src: Source, places: seq<(bytes, nat)>, i: nat, locs: seq<Item>, hit: Option<Item>)
    requires i < |places| && Located(src.groups, Kept(src.m, Terms(places[..i])), locs)
    requires hit.Some? <==> places[i].0 in src.m
    requires hit.Some? ==> hit.value.term == places[i].0 && hit.value in Flatten(src.groups)
    ensures Located(src.groups, Kept(src.m, Terms(places[..i + 1])),
                    match hit case None => locs case Some(it) => locs + [it])
  {
    var q := Terms(places[..i + 1]);
    assert q[..|q| - 1] == Terms(places[..i]);
  }

  lemma PlacesNext(f: TermFile, terms: seq<bytes>, i: nat)
    requires i < |terms|
    ensures var b := Ge(f.router, terms[i], 0);
            Places(f, terms[..i + 1]) == Places(f, terms[..i])
              + if b < |f.router| then [(terms[i], f.router[b].1)] else []
  {
    assert terms[..i + 1][..i] == terms[..i];
  }

  lemma LocatedNone(src: Source, places: seq<(bytes, nat)>)
    ensures Located(src.groups, Kept(src.m, Terms(places[..0])), [])
  {
  }

  /** Some term is past the last term of every block. */
  ghost predicate PastEvery(f: TermFile, terms: seq<bytes>) {
    exists t :: t in terms && Ge(f.router, t, 0) == |f.router|
  }

  /** Routes each term; nothing when a strict query has one past every block. */
  method Route(f: TermFile, terms: seq<bytes>, lenient: bool) returns (r: Option<seq<(bytes, nat)>>)
    ensures r.None? <==> !lenient && PastEvery(f, terms)
    ensures r.Some? ==> r.value == Places(f, terms) && (!lenient ==> Terms(r.value) == terms)
  {
    hide Places;
    var places: seq<(bytes, nat)> := [];
    assert terms[..0] == [] && Places(f, []) == [] by { PlacesNone(f); }
    for i := 0 to |terms|
      invariant places == Places(f, terms[..i]) && (!lenient ==> Terms(places) == terms[..i])
      invariant !lenient ==> forall j :: 0 <= j < i ==> Ge(f.router, terms[j], 0) < |f.router|
    {
      var b := Ge(f.router, terms[i], 0);
      PlacesNext(f, terms, i);
      if b == |f.router| {
        if !lenient {
          return None;
        }
      } else {
        places := places + [(terms[i], f.router[b].1)];
      }
    }
    assert terms[..|terms|] == terms;
    r := Some(places);
  }

  lemma PlacesNone(f: TermFile)
    ensures Places(f, []) == []
  {
  }

  /** The distinct places, in the order the terms first name them. */
  method Distinct(places: seq<(bytes, nat)>) returns (unique: seq<nat>)
    ensures forall i, j :: 0 <= i < j < |unique| ==> unique[i] != unique[j]
    ensures forall v :: v in unique <==> exists j :: 0 <= j < |places| && places[j].1 == v
  {
    unique := [];
    for i := 0 to |places|
      invariant forall j, k :: 0 <= j < k < |unique| ==> unique[j] != unique[k]
      invariant forall v :: v in unique <==> exists j :: 0 <= j < i && places[j].1 == v
    {
      if places[i].1 !in unique {
        unique := unique + [places[i].1];
      }
    }
  }

  /** Reads the blocks at these places, or fails when one does not decode. */
  method ReadBlocks(f: TermFile, unique: seq<nat>) returns (r: Result<seq<seq<Item>>>)
    ensures r.Ok? <==> forall i :: 0 <= i < |unique| ==> ReadBlock(f, unique[i]).Ok?
    ensures r.Ok? ==> |r.value| == |unique| && forall i :: 0 <= i < |unique| ==>
              ReadBlock(f, unique[i]) == Ok(r.value[i])
  {
    hide ReadBlock;
    var blocks: seq<seq<Item>> := [];
    for i := 0 to |unique|
      invariant |blocks| == i && forall j :: 0 <= j < i ==> ReadBlock(f, unique[j]) == Ok(blocks[j])
    {
      var block := ReadBlock(f, unique[i]);
      if block.Err? {
        return Err(block.error);
      }
      blocks := blocks + [block.value];
    }
    r := Ok(blocks);
  }

  /** Scans each routed term's block for it. */
  method LocateAll(codec: Codec, f: TermFile, places: seq<(bytes, nat)>, unique: seq<nat>, blocks: seq<seq<Item>>,
                   lenient: bool, ghost terms: seq<bytes>, ghost src: Option<Source>)
    returns (r: Option<seq<Item>>)
    requires places == Places(f, terms) && (forall i :: 0 <= i < |places| ==> places[i].1 in unique)
    requires |blocks| == |unique| && forall i :: 0 <= i < |unique| ==> ReadBlock(f, unique[i]) == Ok(blocks[i])
    requires src.Some? ==> Of(codec, f, src.value)
    ensures src.Some? ==> (r.None? <==> !lenient && exists i :: 0 <= i < |places| && places[i].0 !in src.value.m)
    ensures src.Some? && r.Some? ==> Located(src.value.groups, Kept(src.value.m, Terms(places)), r.value)
  {
    hide Of, Flatten, ReadBlock, ItemsSorted, Located, Places, Kept;
    var locs: seq<Item> := [];
    if src.Some? {
      LocatedNone(src.value, places);
    }
    for i := 0 to |places|
      invariant src.Some? && !lenient ==> forall j :: 0 <= j < i ==> places[j].0 in src.value.m
      invariant src.Some? ==> Located(src.value.groups, Kept(src.value.m, Terms(places[..i])), locs)
    {
      var at :| 0 <= at < |unique| && unique[at] == places[i].1;
      var hit := ScanFor(blocks[at], places[i].0);
      if src.Some? {
        PlacesAre(f, terms, places[i]);
        HeldIsRouted(codec, f, src.value, places[i].0);
        LocatedNext(src.value, places, i, locs, hit);
      }
      if hit.Some? {
        locs := locs + [hit.value];
      } else if !lenient {
        return None;
      }
    }
    assert places[..|places|] == places;
    r := Some(locs);
  }

  lemma BlocksReadable(codec: Codec, f: TermFile, src: Source, terms: seq<bytes>, unique: seq<nat>)
    requires Of(codec, f, src)
    requires forall v :: v in unique <==> exists j :: 0 <= j < |Places(f, terms)| && Places(f, terms)[j].1 == v
    ensures forall i :: 0 <= i < |unique| ==> ReadBlock(f, unique[i]).Ok?
  {
    hide Of, Flatten, ReadBlock, ItemsSorted, Places;
    forall i | 0 <= i < |unique| ensures ReadBlock(f, unique[i]).Ok? {
      assert unique[i] in unique;
      var j :| 0 <= j < |Places(f, terms)| && Places(f, terms)[j].1 == unique[i];
      var q := Places(f, terms)[j];
      PlacesAre(f, terms, q);
      HeldIsRouted(codec, f, src, q.0);
    }
  }

  lemma Unrouted(codec: Codec, f: TermFile, src: Source, terms: seq<bytes>)
    requires Of(codec, f, src)
    ensures forall t :: t in terms && Ge(f.router, t, 0) == |f.router| ==> t !in src.m
  {
    hide Of, Flatten, ReadBlock, ItemsSorted;
    forall t | t in terms && Ge(f.router, t, 0) == |f.router| ensures t !in src.m {
      HeldIsRouted(codec, f, src, t);
    }
  }

  /** Resolves the terms to their entries. A term the index lacks abandons a strict query and is
      dropped from a lenient one; each distinct block is read once, and none when a strict query has a
      term past every block. */
  method ResolveLocs(codec: Codec, f: TermFile, terms: seq<bytes>, lenient: bool, ghost src: Option<Source>)
    returns (r: Result<Option<seq<Item>>>, fetched: nat)
    requires src.Some? ==> Of(codec, f, src.value)
    ensures src.Some? ==> r.Ok? && (r.value.None? <==> !lenient && exists t :: t in terms && t !in src.value.m)
    ensures src.Some? && r.value.Some? ==> Located(src.value.groups, Kept(src.value.m, terms), r.value.value)
    ensures fetched == if !lenient && PastEvery(f, terms) then 0 else |Routed(f, terms)|
  {
    hide Of, Flatten, ReadBlock, ItemsSorted, Located, Places, Kept;
    var places := Route(f, terms, lenient);
    if src.Some? {
      Unrouted(codec, f, src.value, terms);
    }
    if places.None? {
      return Ok(None), 0;
    }
    var unique := Distinct(places.value);
    DistinctSize(unique, Routed(f, terms));
    if src.Some? {
      BlocksReadable(codec, f, src.value, terms, unique);
    }
    var blocks := ReadBlocks(f, unique);
    fetched := |unique|;
    if blocks.Err? {
      return Err(blocks.error), fetched;
    }
    if src.Some? {
      KeptOfPlaces(codec, f, src.value, terms);
    }
    var locs := LocateAll(codec, f, places.value, unique, blocks.value, lenient, terms, src);
    assert !lenient ==> forall t :: t in terms <==> exists i :: 0 <= i < |places.value| && Terms(places.value)[i] == t;
    r := Ok(locs);
  }

  // ----- a wave of heads -----

  /** What the tail wave would read; nothing is read for a tail of no bytes. */
  function ReadTail(codec: Codec, f: TermFile, hb: HeadBlock): Option<set<nat>> {
    if hb.tailSize == 0 then Some({})
    else match ReadAt(f.posts, hb.tailOff, hb.tailSize) case None => None case Some(buf) => codec.de(buf)
  }

  /** The head and tail of term `t`, and where its posting starts. */
  ghost predicate HeadIs(codec: Codec, src: Source, t: bytes, h: TermHead) {
    && t in src.m && (exists it :: it in Flatten(src.groups) && it.term == t && it.headOff == h.headOff)
    && h.head == HeadOf(src.m[t], src.boundary) && h.tail == Tail(src, t) && h.tailSize == |codec.ser(Tail(src, t))|
  }

  ghost predicate HeadsAre(codec: Codec, src: Source, terms: seq<bytes>, heads: seq<TermHead>) {
    |heads| == |terms| && forall i :: 0 <= i < |heads| ==> HeadIs(codec, src, terms[i], heads[i])
  }

  lemma HeadOfItem(codec: Codec, f: TermFile, src: Source, it: Item)
    requires Of(codec, f, src) && OnlyEmptyIsEmpty(codec) && it in Flatten(src.groups)
    ensures ReadHead(codec, f, it).Some?
    ensures var hb := ReadHead(codec, f, it).value;
            ReadTail(codec, f, hb).Some? &&
            HeadIs(codec, src, it.term, Bm25Search.TermHead(it.headOff, hb.head, ReadTail(codec, f, hb).value,
                                                            hb.tailSize))
  {
    hide IsWritten, ReadHead, ReadAt, Flatten, HeadOf, Tail;
    HeadReads(codec, f, src, it);
    assert codec.de(codec.ser(Tail(src, it.term))) == Some(Tail(src, it.term));
  }

  /** A head lies below the boundary and a tail from it on. */
  lemma HeadsSplit(codec: Codec, src: Source, terms: seq<bytes>, heads: seq<TermHead>)
    requires HeadsAre(codec, src, terms, heads) && OnlyEmptyIsEmpty(codec)
    ensures Bm25Search.AllSplit(heads, src.boundary)
    ensures forall i :: 0 <= i < |heads| ==> heads[i].head + heads[i].tail == Whole(src, terms[i])
  {
    hide Flatten;
    forall i | 0 <= i < |heads|
      ensures Bm25Search.SplitAt(heads[i], src.boundary) && heads[i].head + heads[i].tail == Whole(src, terms[i])
    {
      assert HeadIs(codec, src, terms[i], heads[i]);
      TermIndex.HeadAndTail(src.m[terms[i]], src.boundary);
    }
  }

  /** Reads the head of each entry. */
  method ReadHeadBlocks(codec: Codec, f: TermFile, locs: seq<Item>, ghost terms: seq<bytes>, ghost src: Option<Source>)
    returns (r: Result<seq<TermHead>>)
    requires src.Some? ==> Of(codec, f, src.value) && OnlyEmptyIsEmpty(codec) && Located(src.value.groups, terms, locs)
    ensures src.Some? ==> r.Ok? && HeadsAre(codec, src.value, terms, r.value)
  {
    hide Of, Flatten, ReadHead, ReadTail, OnlyEmptyIsEmpty, HeadIs;
    var heads: seq<TermHead> := [];
    for i := 0 to |locs|
      invariant |heads| == i && (src.Some? ==> forall j :: 0 <= j < i ==> HeadIs(codec, src.value, terms[j], heads[j]))
    {
      var hb := ReadHead(codec, f, locs[i]);
      if src.Some? {
        HeadOfItem(codec, f, src.value, locs[i]);
      }
      if hb.None? {
        return Err(Truncated);
      }
      var tail := ReadTail(codec, f, hb.value);
      heads := heads + [Bm25Search.TermHead(locs[i].headOff, hb.value.head, if tail.Some? then tail.value else {},
                                            hb.value.tailSize)];
    }
    r := Ok(heads);
  }

  /** The query's terms: its tokens, sorted, each once. */
  function TermsOf(tokens: seq<bytes>): seq<bytes> {
    TermOrder.SortedTerms(KeySet(tokens))
  }

  /** The heads of a query's terms. A strict query has none when it has no terms or the index
      lacks one; a lenient one has those of the terms that the index has. */
  method QueryHeads(codec: Codec, f: TermFile, tokens: seq<bytes>, lenient: bool, ghost src: Option<Source>)
    returns (r: Result<Option<seq<TermHead>>>)
    requires src.Some? ==> Of(codec, f, src.value) && OnlyEmptyIsEmpty(codec)
    ensures src.Some? ==> r.Ok?
    ensures src.Some? ==>
              (r.value.None?
               <==> !lenient && (TermsOf(tokens) == [] || exists t :: t in TermsOf(tokens) && t !in src.value.m))
    ensures src.Some? && r.value.Some? ==> HeadsAre(codec, src.value, Kept(src.value.m, TermsOf(tokens)), r.value.value)
  {
    hide Of, Located, HeadsAre, OnlyEmptyIsEmpty, Kept, TermsOf;
    var terms := TermsOf(tokens);
    if terms == [] {
      if src.Some? {
        NothingKept(codec, src.value);
      }
      return Ok(if lenient then Some([]) else None);
    }
    var locs, _ := ResolveLocs(codec, f, terms, lenient, src);
    if locs.Err? {
      return Err(locs.error);
    }
    if locs.value.None? {
      return Ok(None);
    }
    var heads := ReadHeadBlocks(codec, f, locs.value.value, if src.Some? then Kept(src.value.m, terms) else [], src);
    r := if heads.Err? then Err(heads.error) else Ok(Some(heads.value));
  }

  lemma NothingKept(codec: Codec, src: Source)
    ensures HeadsAre(codec, src, Kept(src.m, []), [])
  {
  }
}
