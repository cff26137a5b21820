/** A term index as a function of its map: the cut of the dictionary into blocks is unique, so the
    writer's file is, and so are its bytes (terms.go). */
module TermWritten {
  import opened Wrappers
  import opened Bytes
  import opened Splits
  import opened FrontCoding
  import opened TermIndex
  import TermOrder

  // ----- a written index is determined by its map -----

  lemma {:induction false} BlockGrows(items: seq<Item>, k: nat)
    requires k <= |items|
    ensures |BlockOf(items[..k])| <= |BlockOf(items)|
    decreases |items|
  {
    if k < |items| {
      hide Encoded;
      var front := items[..|items| - 1];
      BlockGrows(front, k);
      assert front[..k] == items[..k] && items == front + [items[|items| - 1]];
      EncodedAppend(START, front, items[|items| - 1]);
    } else {
      assert items[..k] == items;
    }
  }

  /** A block within the cap has no full block as a proper prefix. */
  lemma NoFullPrefix(cap: nat, a: seq<Item>, next: Item, b: seq<Item>)
    requires WithinCap(cap, b) && 0 < |a| < |b| && b[..|a|] == a && b[|a|] == next
    ensures !Full(cap, a, next)
  {
    hide Encoded, EncodedAll;
    assert b[..|a| + 1] == a + [next];
    EncodedAppend(START, a, next);
    BlockGrows(b, |a| + 1);
  }

  /** The blocks of a dictionary: each as long as the cap allows. */
  ghost predicate Greedy(cap: nat, groups: seq<seq<Item>>) {
    && (forall i :: 0 <= i < |groups| ==> groups[i] != [] && WithinCap(cap, groups[i]))
    && (forall i :: 0 <= i < |groups| - 1 ==> Full(cap, groups[i], groups[i + 1][0]))
  }

  lemma FlattenOne(groups: seq<seq<Item>>)
    requires |groups| == 1
    ensures Flatten(groups) == groups[0] + Flatten(groups[1..])
  {
    assert groups[..0] == [] && groups[1..] == [];
  }

  lemma {:induction false} FlattenHead(groups: seq<seq<Item>>)
    requires groups != []
    ensures Flatten(groups) == groups[0] + Flatten(groups[1..])
    decreases |groups|
  {
    hide Flatten;
    if |groups| == 1 {
      FlattenOne(groups);
    } else {
      var front, last := groups[..|groups| - 1], groups[|groups| - 1];
      FlattenHead(front);
      FlattenAppend(front, last);
      FlattenAppend(front[1..], last);
      assert front + [last] == groups && front[1..] + [last] == groups[1..];
    }
  }

  lemma GreedyTail(cap: nat, groups: seq<seq<Item>>)
    requires Greedy(cap, groups) && groups != []
    ensures Greedy(cap, groups[1..]) && groups[0] != [] && WithinCap(cap, groups[0])
    ensures |groups| > 1 ==> groups[1] != [] && Full(cap, groups[0], groups[1][0])
  {
    hide WithinCap, Full;
  }

  /** The first block of a greedy cut is not shorter than that of another cut. */
  lemma NotShorter(cap: nat, a: seq<seq<Item>>, b: seq<seq<Item>>)
    requires Greedy(cap, a) && Greedy(cap, b) && a != [] && b != [] && Flatten(a) == Flatten(b)
    ensures |a[0]| >= |b[0]|
  {
    hide WithinCap, Full, Greedy, Flatten;
    GreedyTail(cap, a);
    GreedyTail(cap, b);
    FlattenHead(a);
    FlattenHead(b);
    FlattenNone();
    if |a| == 1 {
      assert a[1..] == [];
    } else if |a[0]| < |b[0]| {
      PrefixOf(a[0], Flatten(a[1..]), b[0], Flatten(b[1..]));
      GreedyTail(cap, a[1..]);
      FlattenHead(a[1..]);
      assert Flatten(a)[|a[0]|] == a[1][0];
      NoFullPrefix(cap, a[0], a[1][0], b[0]);
    }
  }

  lemma PrefixOf(a: seq<Item>, x: seq<Item>, b: seq<Item>, y: seq<Item>)
    requires a + x == b + y && |a| < |b|
    ensures b[..|a|] == a && (a + x)[|a|] == b[|a|]
  {
    assert (a + x)[..|a|] == a && (b + y)[..|b|] == b;
    assert (b + y)[..|b|][..|a|] == (b + y)[..|a|];
  }

  /** There is one greedy cut of a list of entries. */
  lemma {:induction false} GreedyUnique(cap: nat, a: seq<seq<Item>>, b: seq<seq<Item>>)
    requires Greedy(cap, a) && Greedy(cap, b) && Flatten(a) == Flatten(b)
    ensures a == b
    decreases |a|
  {
    hide WithinCap, Full, Greedy, Flatten;
    if a == [] || b == [] {
      EmptyCuts(cap, a, b);
    } else {
      NotShorter(cap, a, b);
      NotShorter(cap, b, a);
      FlattenHead(a);
      FlattenHead(b);
      SameHead(a[0], Flatten(a[1..]), b[0], Flatten(b[1..]));
      GreedyTail(cap, a);
      GreedyTail(cap, b);
      GreedyUnique(cap, a[1..], b[1..]);
      assert a == [a[0]] + a[1..] && b == [b[0]] + b[1..];
    }
  }

  lemma SameHead(a: seq<Item>, x: seq<Item>, b: seq<Item>, y: seq<Item>)
    requires a + x == b + y && |a| == |b|
    ensures a == b && x == y
  {
    assert a == (a + x)[..|a|] && b == (b + y)[..|b|];
    assert x == (a + x)[|a|..] && y == (b + y)[|b|..];
  }

  lemma EmptyCuts(cap: nat, a: seq<seq<Item>>, b: seq<seq<Item>>)
    requires Greedy(cap, a) && Greedy(cap, b) && Flatten(a) == Flatten(b) && (a == [] || b == [])
    ensures a == b
  {
    FlattenNone();
    if a != [] {
      FlattenHead(a);
    }
    if b != [] {
      FlattenHead(b);
    }
  }

  /** The cut of a map's dictionary into blocks. */
  ghost predicate Cut(codec: Codec, m: TermMap, boundary: nat, cap: nat, groups: seq<seq<Item>>,
                      blocks: seq<DictBlock>) {
    && Flatten(groups) == ItemsOf(codec, m, TermOrder.SortedTerms(m.Keys), boundary)
    && Emitted(cap, groups, blocks, |Join(BlockBytes(groups))|)
  }

  /** There is one such cut. */
  lemma CutUnique(codec: Codec, m: TermMap, boundary: nat, cap: nat, fg: seq<seq<Item>>, fb: seq<DictBlock>,
                  gg: seq<seq<Item>>, gb: seq<DictBlock>)
    requires Cut(codec, m, boundary, cap, fg, fb) && Cut(codec, m, boundary, cap, gg, gb)
    ensures fg == gg && fb == gb
  {
    hide Join, Flatten, Full, WithinCap, ItemsOf;
    GreedyUnique(cap, fg, gg);
    assert fb == gb;
  }

  /** The map's index fits the file's fields: every posting's sizes and place, and every block of
      the dictionary's cut. */
  ghost predicate Writes(codec: Codec, m: TermMap, boundary: nat, cap: nat) {
    && (forall t :: t in m ==> |t| < TWO_64)
    && TermsFit(codec, m, TermOrder.SortedTerms(m.Keys), boundary)
    && exists groups, blocks :: Cut(codec, m, boundary, cap, groups, blocks) && forall b :: b in blocks ==> BlockFits(b)
  }

  lemma WritesMeans(codec: Codec, m: TermMap, boundary: nat, cap: nat, groups: seq<seq<Item>>, blocks: seq<DictBlock>)
    requires (forall t :: t in m ==> |t| < TWO_64) && TermsFit(codec, m, TermOrder.SortedTerms(m.Keys), boundary)
    requires Cut(codec, m, boundary, cap, groups, blocks)
    ensures Writes(codec, m, boundary, cap) <==> forall b :: b in blocks ==> BlockFits(b)
  {
    hide Cut, TermsFit, BlockFits;
    if Writes(codec, m, boundary, cap) {
      var gg, gb :| Cut(codec, m, boundary, cap, gg, gb) && forall b :: b in gb ==> BlockFits(b);
      CutUnique(codec, m, boundary, cap, groups, blocks, gg, gb);
    }
  }

  /** A term index is a function of its map, boundary and cap: two written files agree byte for byte. */
  lemma WrittenUnique(codec: Codec, m: TermMap, boundary: nat, cap: nat, f: TermFile, fg: seq<seq<Item>>, g: TermFile,
                      gg: seq<seq<Item>>)
    requires IsWritten(codec, m, boundary, cap, f, fg) && IsWritten(codec, m, boundary, cap, g, gg)
    ensures f == g && fg == gg
  {
    hide TermsFit, Join, Flatten, Emitted, Parts, ItemsOf, BlockFits;
    var fb :| Emitted(cap, fg, fb, |f.dict|) && f.router == RouterOf(fb) && forall b :: b in fb ==> BlockFits(b);
    var gb :| Emitted(cap, gg, gb, |g.dict|) && g.router == RouterOf(gb) && forall b :: b in gb ==> BlockFits(b);
    CutUnique(codec, m, boundary, cap, fg, fb, gg, gb);
  }

  // ----- the writer's file -----

  /** Writes the index of `m` with the default block cap. No term is 2^64 bytes long. */
  method WriteIndex(codec: Codec, m: TermMap, boundary: nat) returns (r: Result<TermFile>, ghost groups: seq<seq<Item>>)
    ensures r.Err? ==> r.error == TooLarge
    ensures r.Ok? <==> Writes(codec, m, boundary, DEFAULT_CAP)
    ensures r.Ok? ==> IsWritten(codec, m, boundary, DEFAULT_CAP, r.value, groups)
  {
    hide IsWritten, TermsFit, Emitted, Flatten, Join, BlockFits;
    groups := [];
    if exists t :: t in m && |t| >= TWO_64 {
      return Err(TooLarge), groups;
    }
    var w, cut, blocks := WriteTermIndex(codec, m, boundary, false, false, 0);
    groups := cut;
    if TermsFit(codec, m, TermOrder.SortedTerms(m.Keys), boundary) {
      assert Cut(codec, m, boundary, DEFAULT_CAP, cut, blocks);
      WritesMeans(codec, m, boundary, DEFAULT_CAP, cut, blocks);
    }
    r := if w.Err? then Err(TooLarge) else Ok(w.value.0);
  }

  /** How a builder writes its indexes: the tokenizer's settings, which the header records, and the
      router's bytes. */
  datatype Format = Format(codec: Codec, boundary: nat, language: byte, stem: bool, stopwords: bool,
                           caseNormalization: bool,
                           router: seq<(bytes, nat)> -> bytes)

  const MAGIC := 0x49545252
  const VERSION := 2
  const STEMMED := 1
  const STOPWORDS := 2
  const CASE_SENSITIVE := 4
  const FILE_HEADER := 40

  function Flags(fmt: Format): nat {
    (if fmt.stem then STEMMED else 0) + (if fmt.stopwords then STOPWORDS else 0)
      + if fmt.caseNormalization then 0 else CASE_SENSITIVE
  }

  function HeaderFields(fmt: Format, terms: nat, router: nat, dict: nat): (fs: seq<Fld>)
    ensures |fs| == 10
  {
    [Fld(MAGIC, 4), Fld(VERSION, 2), Fld(Flags(fmt), 2), Fld(terms, 4), Fld(fmt.boundary, 4), Fld(router, 8),
     Fld(dict, 8), Fld(DEFAULT_CAP, 4), Fld(if fmt.stem || fmt.stopwords then fmt.language else 0, 1), Fld(0, 3)]
  }

  lemma HeaderSize(fmt: Format, terms: nat, router: nat, dict: nat)
    ensures |Layout(HeaderFields(fmt, terms, router, dict))| == FILE_HEADER
  {
    hide Flags, Layout;
    LayoutSize(HeaderFields(fmt, terms, router, dict));
    HeaderWidths(fmt, terms, router, dict);
  }

  lemma HeaderWidths(fmt: Format, terms: nat, router: nat, dict: nat)
    ensures var h := HeaderFields(fmt, terms, router, dict);
            && Width(h, 0) == 0 && Width(h, 1) == 4 && Width(h, 2) == 6 && Width(h, 3) == 8 && Width(h, 4) == 12
            && Width(h, 5) == 16 && Width(h, 6) == 24 && Width(h, 7) == 32 && Width(h, 8) == 36 && Width(h, 10) == 40
  {
    hide Flags;
    var h := HeaderFields(fmt, terms, router, dict);
    assert Width(h, 0) == 0;
    hide Width;
    WidthNext(h, 0); WidthNext(h, 1); WidthNext(h, 2); WidthNext(h, 3); WidthNext(h, 4);
    WidthNext(h, 5); WidthNext(h, 6); WidthNext(h, 7); WidthNext(h, 8); WidthNext(h, 9);
  }

  /** The bytes of a written index: header, router, dictionary, postings. */
  function Serialised(fmt: Format, terms: nat, f: TermFile): (b: bytes)
    ensures |b| == FILE_HEADER + |fmt.router(f.router)| + |f.dict| + |f.posts|
  {
    var router := fmt.router(f.router);
    HeaderSize(fmt, terms, |router|, |f.dict|);
    Layout(HeaderFields(fmt, terms, |router|, |f.dict|)) + (router + (f.dict + f.posts))
  }

  /** The writer accepts `m`: a filter needs a language, and everything fits its field. */
  ghost predicate Accepts(fmt: Format, m: TermMap) {
    (fmt.stem || fmt.stopwords ==> fmt.language != 0) && Writes(fmt.codec, m, fmt.boundary, DEFAULT_CAP)
  }

  /** `b` is a file of `m`. */
  ghost predicate IsFileOf(fmt: Format, m: TermMap, b: bytes) {
    exists f, groups :: IsWritten(fmt.codec, m, fmt.boundary, DEFAULT_CAP, f, groups) && b == Serialised(fmt, |m|, f)
  }

  /** The file of `m`. */
  ghost function FileOf(fmt: Format, m: TermMap): Result<bytes> {
    if Accepts(fmt, m) && exists b :: IsFileOf(fmt, m, b) then
      var b :| IsFileOf(fmt, m, b);
      Ok(b)
    else Err(TooLarge)
  }

  /** There is one file of a map. */
  lemma FileUnique(fmt: Format, m: TermMap, a: bytes, b: bytes)
    requires IsFileOf(fmt, m, a) && IsFileOf(fmt, m, b)
    ensures a == b
  {
    hide IsWritten, Serialised;
    var f, fg :| IsWritten(fmt.codec, m, fmt.boundary, DEFAULT_CAP, f, fg) && a == Serialised(fmt, |m|, f);
    var g, gg :| IsWritten(fmt.codec, m, fmt.boundary, DEFAULT_CAP, g, gg) && b == Serialised(fmt, |m|, g);
    WrittenUnique(fmt.codec, m, fmt.boundary, DEFAULT_CAP, f, fg, g, gg);
  }

  /** The bytes of the index of `m`, which depend on nothing else; refuses exactly what is not accepted. */
  method WriteFile(fmt: Format, m: TermMap) returns (r: Result<bytes>)
    ensures r.Ok? <==> Accepts(fmt, m)
    ensures r.Ok? ==> IsFileOf(fmt, m, r.value) && |r.value| >= FILE_HEADER
    ensures r == FileOf(fmt, m)
  {
    hide IsWritten, Serialised, Writes;
    if (fmt.stem || fmt.stopwords) && fmt.language == 0 {
      return Err(TooLarge);
    }
    var f, groups := WriteIndex(fmt.codec, m, fmt.boundary);
    if f.Err? {
      return Err(TooLarge);
    }
    var b := Serialised(fmt, |m|, f.value);
    assert IsFileOf(fmt, m, b);
    forall c | IsFileOf(fmt, m, c) ensures c == b {
      FileUnique(fmt, m, b, c);
    }
    r := Ok(b);
  }
}
