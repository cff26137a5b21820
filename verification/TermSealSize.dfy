/** How the term split builder's size estimate (termsplitsetbuild.go) compares with the file the
    term writer (terms.go) gives for the same documents. The router's size is a parameter. */
module TermSealSize {
  import opened Bytes
  import opened FrontCoding
  import opened Inverted
  import opened Splits
  import opened TermIndex
  import opened TermWritten
  import opened SplitRun
  import opened TermSplitBuilder
  import SealSize
  import TermOrder

  /** The size of a written index: header, router, dictionary, postings. */
  function FileSize(f: TermFile, router: nat): nat {
    FILE_HEADER + router + |f.dict| + |f.posts|
  }

  /** The builder's estimate of a split of these documents. */
  ghost function EstimateOf(part: seq<seq<bytes>>): nat {
    HEADER + Charged(IndexOf(part))
  }

  // ----- sums over the terms of a map -----

  /** What the listed terms come to. */
  function SumOver(terms: seq<bytes>, sizes: map<bytes, nat>): nat {
    if terms == [] then 0
    else
      var t := terms[|terms| - 1];
      SumOver(terms[..|terms| - 1], sizes) + if t in sizes then sizes[t] else 0
  }

  lemma {:induction false} SumWithin(terms: seq<bytes>, a: map<bytes, nat>, b: map<bytes, nat>)
    requires forall t :: t in terms ==> t in a && t in b && a[t] == b[t]
    ensures SumOver(terms, a) == SumOver(terms, b)
  {
    if terms != [] {
      assert terms[|terms| - 1] in terms;
      SumWithin(terms[..|terms| - 1], a, b);
    }
  }

  /** Listing every term once sums up the whole map. */
  lemma {:induction false} SumIsTotal(terms: seq<bytes>, sizes: map<bytes, nat>)
    requires Distinct(terms) && forall t :: t in sizes <==> t in terms
    ensures SumOver(terms, sizes) == Total<bytes>(sizes)
    decreases |terms|
  {
    if terms == [] {
      assert sizes == map[];
    } else {
      var front, t := terms[..|terms| - 1], terms[|terms| - 1];
      LastApart(terms, front, t);
      var less := sizes - {t};
      SumIsTotal(front, less);
      SumWithin(front, sizes, less);
      TotalTake<bytes>(sizes, t);
    }
  }

  lemma LastApart(terms: seq<bytes>, front: seq<bytes>, t: bytes)
    requires Distinct(terms) && terms != [] && front == terms[..|terms| - 1] && t == terms[|terms| - 1]
    ensures t !in front && Distinct(front) && forall u :: u in terms <==> u in front || u == t
  {
    assert terms == front + [t];
  }

  lemma SortedListing(m: Postings<bytes>)
    ensures var terms := TermOrder.SortedTerms(m.Keys);
            && Distinct(terms) && TermOrder.Sorted(terms) && |terms| == |m|
            && forall t :: t in terms <==> t in m
  {
    var terms := TermOrder.SortedTerms(m.Keys);
    TermOrder.SortedTermsList(m.Keys);
    SortedDistinct(terms);
    assert |m.Keys| == |m|;
  }

  // ----- the charge -----

  lemma {:induction false} CostsSum(m: Postings<bytes>, terms: seq<bytes>)
    requires forall t :: t in terms ==> t in m
    ensures SumOver(terms, Costs(m)) == NEW_TERM * |terms| + Lengths(terms) + ELEMENT * SumOver(terms, Sizes(m))
  {
    if terms != [] {
      var front, t := terms[..|terms| - 1], terms[|terms| - 1];
      assert t in terms && terms == front + [t];
      CostsSum(m, front);
    }
  }

  /** What an index has been charged: a base for each term, the terms' bytes, and two bytes for
      each document of each posting. */
  lemma ChargedIs(m: Postings<bytes>)
    ensures Charged(m) == NEW_TERM * |m| + Lengths(TermOrder.SortedTerms(m.Keys)) + ELEMENT * Elements(m)
  {
    hide Total, Lengths, SumOver, Distinct, TermOrder.Sorted, TermOrder.SortedTerms;
    var terms := TermOrder.SortedTerms(m.Keys);
    SortedListing(m);
    SumIsTotal(terms, Costs(m));
    SumIsTotal(terms, Sizes(m));
    CostsSum(m, terms);
  }

  // ----- the postings region -----

  /** The size of each term's posting: the tail's length, the head, the tail. */
  ghost function PostSizes(m: Postings<bytes>, boundary: nat): map<bytes, nat> {
    map t | t in m :: 4 + SealSize.PortableSize(HeadOf(m[t], boundary)) + SealSize.PortableSize(TailOf(m[t], boundary))
  }

  lemma {:induction false} JoinSum(terms: seq<bytes>, parts: seq<bytes>, sizes: map<bytes, nat>)
    requires |parts| == |terms|
    requires forall i :: 0 <= i < |terms| ==> terms[i] in sizes && |parts[i]| == sizes[terms[i]]
    ensures |Join(parts)| == SumOver(terms, sizes)
    decreases |terms|
  {
    if terms != [] {
      JoinSum(terms[..|terms| - 1], parts[..|parts| - 1], sizes);
    }
  }

  lemma PartSize(codec: Codec, m: Postings<bytes>, boundary: nat, t: bytes)
    requires SealSize.Portable(codec) && t in m
    ensures t in PostSizes(m, boundary) && |PostingOf(codec, m[t], boundary)| == PostSizes(m, boundary)[t]
  {
    hide SealSize.PortableSize, HeadOf, TailOf;
  }

  lemma PostsSize(codec: Codec, m: Postings<bytes>, boundary: nat)
    requires SealSize.Portable(codec)
    ensures |Join(Parts(codec, m, TermOrder.SortedTerms(m.Keys), boundary))| == Total<bytes>(PostSizes(m, boundary))
  {
    hide Total, SumOver, Join, Distinct, TermOrder.Sorted, TermOrder.SortedTerms, PostingOf, SealSize.Portable;
    var terms := TermOrder.SortedTerms(m.Keys);
    SortedListing(m);
    var parts := Parts(codec, m, terms, boundary);
    forall i | 0 <= i < |terms| ensures terms[i] in PostSizes(m, boundary)
      && |parts[i]| == PostSizes(m, boundary)[terms[i]] {
      assert terms[i] in terms;
      PartSize(codec, m, boundary, terms[i]);
    }
    JoinSum(terms, parts, PostSizes(m, boundary));
    SumIsTotal(terms, PostSizes(m, boundary));
  }

  // ----- the dictionary -----

  /** The varints of one entry. */
  function EntryVarints(prev: Prev, it: Item): (n: nat)
    ensures n >= 4
  {
    var shared := Shared(prev.term, it.term);
    |Uvarint(shared)| + |Uvarint(|it.term| - shared)| + |Uvarint(Delta(prev, it))| + |Uvarint(it.headSize)|
  }

  function Varints(prev: Prev, items: seq<Item>): (n: nat)
    ensures n >= 4 * |items|
    decreases |items|
  {
    if items == [] then 0 else EntryVarints(prev, items[0]) + Varints(PrevOf(items[0]), items[1..])
  }

  /** The bytes of terms that front coding leaves out. */
  function SharedBytes(prev: Prev, items: seq<Item>): nat
    decreases |items|
  {
    if items == [] then 0 else Shared(prev.term, items[0].term) + SharedBytes(PrevOf(items[0]), items[1..])
  }

  function TermBytes(items: seq<Item>): nat {
    if items == [] then 0 else TermBytes(items[..|items| - 1]) + |items[|items| - 1].term|
  }

  lemma {:induction false} TermBytesAppend(a: seq<Item>, b: seq<Item>)
    ensures TermBytes(a + b) == TermBytes(a) + TermBytes(b)
    decreases |b|
  {
    if b == [] {
      assert a + b == a;
    } else {
      assert (a + b)[..|a + b| - 1] == a + b[..|b| - 1];
      TermBytesAppend(a, b[..|b| - 1]);
    }
  }

  /** An encoded block: its varints, and its terms less what front coding leaves out. */
  lemma {:induction false} BlockSize(prev: Prev, items: seq<Item>)
    ensures |EncodedAll(prev, items)| + SharedBytes(prev, items) == Varints(prev, items) + TermBytes(items)
    decreases |items|
  {
    if items != [] {
      hide Encoded, Shared, Uvarint, Delta, TermBytes;
      EncodedSize(prev, items[0]);
      BlockSize(PrevOf(items[0]), items[1..]);
      assert items == [items[0]] + items[1..];
      TermBytesAppend([items[0]], items[1..]);
      OneTerm(items[0]);
    }
  }

  lemma OneTerm(it: Item)
    ensures TermBytes([it]) == |it.term|
  {
    assert [it][..0] == [];
  }

  function AllVarints(groups: seq<seq<Item>>): nat {
    if groups == [] then 0 else AllVarints(groups[..|groups| - 1]) + Varints(START, groups[|groups| - 1])
  }

  function AllShared(groups: seq<seq<Item>>): nat {
    if groups == [] then 0 else AllShared(groups[..|groups| - 1]) + SharedBytes(START, groups[|groups| - 1])
  }

  /** The dictionary region: every block's varints, and the terms less what front coding leaves out. */
  lemma {:induction false} DictSize(groups: seq<seq<Item>>)
    ensures |Join(BlockBytes(groups))| + AllShared(groups) == AllVarints(groups) + TermBytes(Flatten(groups))
    ensures AllVarints(groups) >= 4 * |Flatten(groups)|
    decreases |groups|
  {
    if groups != [] {
      var front, g := groups[..|groups| - 1], groups[|groups| - 1];
      DictSize(front);
      BlockSize(START, g);
      TermBytesAppend(Flatten(front), g);
      assert BlockBytes(groups)[..|groups| - 1] == BlockBytes(front);
    }
  }

  lemma {:induction false} ItemLengths(items: seq<Item>, terms: seq<bytes>)
    requires |items| == |terms| && forall i :: 0 <= i < |items| ==> items[i].term == terms[i]
    ensures TermBytes(items) == Lengths(terms)
    decreases |items|
  {
    if items != [] {
      ItemLengths(items[..|items| - 1], terms[..|terms| - 1]);
    }
  }

  // ----- the file against the estimate -----

  /** What the estimate leaves room for besides the header. */
  const ALLOWANCE := HEADER - FILE_HEADER

  lemma WrittenSizes(codec: Codec, m: Postings<bytes>, boundary: nat, cap: nat, f: TermFile, groups: seq<seq<Item>>)
    requires SealSize.Portable(codec) && IsWritten(codec, m, boundary, cap, f, groups)
    ensures |f.posts| == Total<bytes>(PostSizes(m, boundary)) && |Flatten(groups)| == |m|
    ensures |f.dict| + AllShared(groups) == AllVarints(groups) + Lengths(TermOrder.SortedTerms(m.Keys))
  {
    hide Flatten, Join, TermsFit, Emitted, SealSize.Portable, TermOrder.Sorted, TermOrder.SortedTerms, Distinct,
         Lengths, TermBytes, Total, AllShared, AllVarints;
    var terms := TermOrder.SortedTerms(m.Keys);
    SortedListing(m);
    PostsSize(codec, m, boundary);
    DictSize(groups);
    ItemLengths(Flatten(groups), terms);
  }

  /** The exact difference between a split's file and its estimate, for any documents: the router,
      the dictionary's varints and the postings, against the header's allowance, the prefixes that
      front coding leaves out, and the charge of 24 bytes a term and two a document. */
  lemma FileAgainstEstimate(codec: Codec, part: seq<seq<bytes>>, boundary: nat, cap: nat, f: TermFile,
                            groups: seq<seq<Item>>, router: nat)
    requires SealSize.Portable(codec) && IsWritten(codec, IndexOf(part), boundary, cap, f, groups)
    ensures var m := IndexOf(part);
            FileSize(f, router) - EstimateOf(part)
            == router + AllVarints(groups) + Total<bytes>(PostSizes(m, boundary))
               - (ALLOWANCE + AllShared(groups) + NEW_TERM * |m| + ELEMENT * Elements(m))
  {
    hide IsWritten, SealSize.Portable, PostSizes, Total, Elements, Lengths, IndexOf, Charged;
    WrittenSizes(codec, IndexOf(part), boundary, cap, f, groups);
    ChargedIs(IndexOf(part));
  }

  /** In every run, a sealed split's recorded size is that of the written index of its documents, and
      it exceeds the estimate by exactly this difference. */
  lemma SealedAgainstEstimate(cfg: Config, fmt: Format, docs: seq<seq<bytes>>, forced: set<nat>, s: State<bytes>,
                              i: nat)
    returns (f: TermFile, groups: seq<seq<Item>>)
    requires Consistent(RulesOf(cfg, fmt), docs, forced, s) && NoneEmpty(s.blobs) && i < |s.specs|
             && SealSize.Portable(fmt.codec)
    ensures IsWritten(fmt.codec, IndexOf(Covered(docs, s.specs[i])), fmt.boundary, DEFAULT_CAP, f, groups)
    ensures var m := IndexOf(Covered(docs, s.specs[i]));
            s.specs[i].byteSize - EstimateOf(Covered(docs, s.specs[i]))
            == |fmt.router(f.router)| + AllVarints(groups) + Total<bytes>(PostSizes(m, fmt.boundary))
               - (ALLOWANCE + AllShared(groups) + NEW_TERM * |m| + ELEMENT * Elements(m))
  {
    hide Consistent, RulesOf, IsWritten, SealSize.Portable, PostSizes, Total, Elements, IndexOf, EstimateOf, Covered,
         AllVarints, AllShared;
    SealedIsFile(cfg, fmt, docs, forced, s, i);
    var part := Covered(docs, s.specs[i]);
    f, groups :| IsWritten(fmt.codec, IndexOf(part), fmt.boundary, DEFAULT_CAP, f, groups)
      && s.blobs[i] == Serialised(fmt, |IndexOf(part)|, f);
    FileAgainstEstimate(fmt.codec, part, fmt.boundary, DEFAULT_CAP, f, groups, |fmt.router(f.router)|);
  }

  // ----- splits of array containers -----

  /** The terms whose posting has both a head and a tail. */
  ghost function SplitTerms(m: Postings<bytes>, boundary: nat): set<bytes> {
    set t | t in m && HeadOf(m[t], boundary) != {} && TailOf(m[t], boundary) != {}
  }

  lemma EmptyPosting()
    ensures SealSize.PortableSize({}) == 8
  {
    assert SealSize.ContainersOf({}) == {};
    assert SealSize.ContainerSizes({}) == map[];
  }

  /** A posting of one array container: the header, a directory entry, two bytes a document. */
  lemma OneContainer(s: set<nat>)
    requires s != {} && forall d :: d in s ==> d < SealSize.ARRAY_LIMIT
    ensures SealSize.PortableSize(s) == 16 + 2 * |s|
  {
    forall d | d in s ensures d / SealSize.CONTAINER == 0 {
    }
    var d :| d in s;
    assert SealSize.ContainersOf(s) == {0};
    assert SealSize.InContainer(s, 0) == s;
    FewDocs(s, SealSize.ARRAY_LIMIT);
    var sizes := SealSize.ContainerSizes(s);
    assert sizes == map[0 := 8 + 2 * |s|];
    TotalPut<nat>(map[], 0, 8 + 2 * |s|);
    assert map[][0 := 8 + 2 * |s|] == sizes;
  }

  lemma {:induction false} FewDocs(s: set<nat>, n: nat)
    requires forall d :: d in s ==> d < n
    ensures |s| <= n
    decreases n
  {
    if n == 0 {
      assert s == {};
    } else {
      FewDocs(s - {n - 1}, n - 1);
    }
  }

  lemma SplitPosting(s: set<nat>, boundary: nat)
    requires s != {} && forall d :: d in s ==> d < SealSize.ARRAY_LIMIT
    ensures 4 + SealSize.PortableSize(HeadOf(s, boundary)) + SealSize.PortableSize(TailOf(s, boundary))
            == 28 + 2 * |s| + if HeadOf(s, boundary) != {} && TailOf(s, boundary) != {} then 8 else 0
  {
    hide SealSize.PortableSize;
    var head, tail := HeadOf(s, boundary), TailOf(s, boundary);
    assert s == head + tail && head !! tail;
    assert |s| == |head| + |tail|;
    EmptyPosting();
    if head != {} {
      OneContainer(head);
    }
    if tail != {} {
      OneContainer(tail);
    }
  }

  /** What `PostSizes` comes to, summed over terms. */
  lemma {:induction false} SmallSum(m: Postings<bytes>, boundary: nat, terms: seq<bytes>)
    requires Distinct(terms) && forall t :: t in terms ==> t in m
    requires forall t :: t in m ==> m[t] != {} && forall d :: d in m[t] ==> d < SealSize.ARRAY_LIMIT
    ensures SumOver(terms, PostSizes(m, boundary))
            == 28 * |terms| + ELEMENT * SumOver(terms, Sizes(m)) + 8 * |SplitTerms(m, boundary) * KeySet(terms)|
    decreases |terms|
  {
    hide SealSize.PortableSize, HeadOf, TailOf;
    if terms == [] {
      assert SplitTerms(m, boundary) * KeySet(terms) == {};
    } else {
      var front, t := terms[..|terms| - 1], terms[|terms| - 1];
      LastApart(terms, front, t);
      assert t in terms;
      SmallSum(m, boundary, front);
      SplitPosting(m[t], boundary);
      var before, after := SplitTerms(m, boundary) * KeySet(front), SplitTerms(m, boundary) * KeySet(terms);
      assert t !in before;
      assert after == if t in SplitTerms(m, boundary) then before + {t} else before;
    }
  }

  lemma SmallPosts(m: Postings<bytes>, boundary: nat)
    requires forall t :: t in m ==> m[t] != {} && forall d :: d in m[t] ==> d < SealSize.ARRAY_LIMIT
    ensures Total<bytes>(PostSizes(m, boundary)) == 28 * |m| + ELEMENT * Elements(m) + 8 * |SplitTerms(m, boundary)|
  {
    hide Total, SumOver, Distinct, TermOrder.Sorted, TermOrder.SortedTerms, HeadOf, TailOf, SealSize.PortableSize;
    var terms := TermOrder.SortedTerms(m.Keys);
    SortedListing(m);
    SmallSum(m, boundary, terms);
    SumIsTotal(terms, PostSizes(m, boundary));
    SumIsTotal(terms, Sizes(m));
    assert SplitTerms(m, boundary) * KeySet(terms) == SplitTerms(m, boundary);
  }

  lemma PartPostings(part: seq<seq<bytes>>)
    requires |part| <= SealSize.ARRAY_LIMIT
    ensures forall t :: t in IndexOf(part) ==>
              IndexOf(part)[t] != {} && forall d :: d in IndexOf(part)[t] ==> d < SealSize.ARRAY_LIMIT
  {
    forall t | t in IndexOf(part) ensures IndexOf(part)[t] != {} && forall d :: d in IndexOf(part)[t] ==>
      d < SealSize.ARRAY_LIMIT {
      IndexAt(part, t);
    }
  }

  /** For a split of at most 4,096 documents the estimate bounds the file exactly when the router,
      the varints, four bytes a term, and eight for each posting with head and tail fit the
      header's allowance and the prefixes that front coding leaves out. */
  lemma SmallSplitExactly(codec: Codec, part: seq<seq<bytes>>, boundary: nat, cap: nat, f: TermFile,
                          groups: seq<seq<Item>>, router: nat)
    requires SealSize.Portable(codec) && IsWritten(codec, IndexOf(part), boundary, cap, f, groups)
    requires |part| <= SealSize.ARRAY_LIMIT
    ensures var m := IndexOf(part);
            FileSize(f, router) <= EstimateOf(part)
            <==> router + AllVarints(groups) + 4 * |m| + 8 * |SplitTerms(m, boundary)| <= ALLOWANCE + AllShared(groups)
  {
    hide IsWritten, SealSize.Portable, PostSizes, Total, Elements, IndexOf, SplitTerms, EstimateOf, FileSize;
    FileAgainstEstimate(codec, part, boundary, cap, f, groups, router);
    PartPostings(part);
    SmallPosts(IndexOf(part), boundary);
  }

  // ----- from the terms alone -----

  /** What consecutive terms share. */
  function Prefixes(prev: bytes, terms: seq<bytes>): nat
    decreases |terms|
  {
    if terms == [] then 0 else Shared(prev, terms[0]) + Prefixes(terms[0], terms[1..])
  }

  /** Starting a block anew never leaves out more. */
  lemma {:induction false} FreshStart(prev: bytes, terms: seq<bytes>)
    ensures Prefixes([], terms) <= Prefixes(prev, terms)
  {
  }

  lemma {:induction false} PrefixesAppend(prev: bytes, a: seq<bytes>, b: seq<bytes>)
    ensures Prefixes(prev, a) + Prefixes([], b) <= Prefixes(prev, a + b)
    decreases |a|
  {
    if a == [] {
      assert a + b == b;
      FreshStart(prev, b);
    } else {
      assert (a + b)[1..] == a[1..] + b;
      PrefixesAppend(a[0], a[1..], b);
    }
  }

  function TermsOf(items: seq<Item>): (terms: seq<bytes>)
    ensures |terms| == |items| && forall i :: 0 <= i < |items| ==> terms[i] == items[i].term
  {
    seq(|items|, i requires 0 <= i < |items| => items[i].term)
  }

  lemma {:induction false} SharedArePrefixes(prev: Prev, items: seq<Item>)
    ensures SharedBytes(prev, items) == Prefixes(prev.term, TermsOf(items))
    decreases |items|
  {
    if items != [] {
      SharedArePrefixes(PrevOf(items[0]), items[1..]);
      assert TermsOf(items)[1..] == TermsOf(items[1..]);
    }
  }

  lemma {:induction false} SharedAtMost(groups: seq<seq<Item>>)
    ensures AllShared(groups) <= Prefixes([], TermsOf(Flatten(groups)))
    decreases |groups|
  {
    if groups != [] {
      var front, g := groups[..|groups| - 1], groups[|groups| - 1];
      SharedAtMost(front);
      SharedArePrefixes(START, g);
      PrefixesAppend([], TermsOf(Flatten(front)), TermsOf(g));
      assert TermsOf(Flatten(groups)) == TermsOf(Flatten(front)) + TermsOf(g);
    }
  }

  /** When eight bytes a term outweigh the header's allowance and what neighbouring terms share,
      the file passes the estimate, however its blocks fall and whatever the router takes. */
  lemma EstimateFallsShort(codec: Codec, part: seq<seq<bytes>>, boundary: nat, cap: nat, f: TermFile,
                           groups: seq<seq<Item>>, router: nat)
    requires SealSize.Portable(codec) && IsWritten(codec, IndexOf(part), boundary, cap, f, groups)
    requires |part| <= SealSize.ARRAY_LIMIT
    requires router + 8 * |IndexOf(part)| > ALLOWANCE + Prefixes([], TermOrder.SortedTerms(IndexOf(part).Keys))
    ensures FileSize(f, router) > EstimateOf(part)
  {
    hide IsWritten, SealSize.Portable, IndexOf, SplitTerms, EstimateOf, FileSize, Flatten, AllShared, AllVarints,
         TermOrder.SortedTerms;
    SmallSplitExactly(codec, part, boundary, cap, f, groups, router);
    WrittenTerms(codec, IndexOf(part), boundary, cap, f, groups);
    DictSize(groups);
    SharedAtMost(groups);
  }

  lemma WrittenTerms(codec: Codec, m: Postings<bytes>, boundary: nat, cap: nat, f: TermFile, groups: seq<seq<Item>>)
    requires IsWritten(codec, m, boundary, cap, f, groups)
    ensures TermsOf(Flatten(groups)) == TermOrder.SortedTerms(m.Keys) && |Flatten(groups)| == |m|
  {
    hide Flatten, Join, TermsFit, Emitted, TermOrder.Sorted, Distinct;
    SortedListing(m);
  }

  lemma {:induction false} NothingShared(prev: bytes, terms: seq<bytes>)
    requires Distinct(terms) && prev !in terms && (forall t :: t in terms ==> |t| == 1) && |prev| <= 1
    ensures Prefixes(prev, terms) == 0
    decreases |terms|
  {
    if terms != [] {
      var t, rest := terms[0], terms[1..];
      assert t in terms && forall u :: u in rest ==> u in terms && u != t;
      if prev != [] {
        assert prev == [prev[0]] && t == [t[0]] && prev != t;
      }
      NothingShared(t, rest);
    }
  }

  /** Twelve terms of one byte each. */
  function TwelveTerms(): seq<bytes> {
    [[0], [1], [2], [3], [4], [5], [6], [7], [8], [9], [10], [11]]
  }

  /** One document of twelve one-byte terms: its file takes more than the 452 bytes estimated. */
  lemma TwelveTermsFallShort(codec: Codec, boundary: nat, cap: nat, f: TermFile, groups: seq<seq<Item>>, router: nat)
    requires SealSize.Portable(codec) && IsWritten(codec, IndexOf([TwelveTerms()]), boundary, cap, f, groups)
    ensures EstimateOf([TwelveTerms()]) == 452 < FileSize(f, router)
  {
    hide IsWritten, SealSize.Portable, EstimateOf, FileSize, IndexOf, Prefixes;
    var terms := TwelveTerms();
    TwelveDistinct();
    OneDocEstimate(terms);
    var sorted := TermOrder.SortedTerms(IndexOf([terms]).Keys);
    SortedListing(IndexOf([terms]));
    NothingShared([], sorted);
    EstimateFallsShort(codec, [terms], boundary, cap, f, groups, router);
  }

  lemma TwelveDistinct()
    ensures Distinct(TwelveTerms()) && Lengths(TwelveTerms()) == 12 && forall t :: t in TwelveTerms() ==> |t| == 1
  {
    var terms := TwelveTerms();
    forall i, j | 0 <= i < j < |terms| ensures terms[i] != terms[j] {
      assert terms[i][0] == i && terms[j][0] == j;
    }
    AllOnes(terms);
  }

  lemma {:induction false} AllOnes(terms: seq<bytes>)
    requires forall i :: 0 <= i < |terms| ==> |terms[i]| == 1
    ensures Lengths(terms) == |terms|
    decreases |terms|
  {
    if terms != [] {
      AllOnes(terms[..|terms| - 1]);
    }
  }

  lemma OneDocEstimate(terms: seq<bytes>)
    requires Distinct(terms)
    ensures EstimateOf([terms]) == HEADER + (NEW_TERM + ELEMENT) * |terms| + Lengths(terms)
    ensures |IndexOf([terms])| == |terms| && forall t :: t in IndexOf([terms]) <==> t in terms
  {
    hide IndexOf, Charged, Lengths;
    OneDocCharged(terms);
    OneDocIndex(terms);
    DistinctCount(terms);
    assert |IndexOf([terms])| == |IndexOf([terms]).Keys|;
  }
}
