/** Reading a term index (terms_read.go): exact lookup, the prefix scan, postings read head
    first, and the whole dictionary. */
module TermSearch {
  import opened Wrappers
  import opened Bytes
  import opened FrontCoding
  import opened Splits
  import opened TermIndex
  import TermOrder
  import Ordered

  const MAX_READ: nat := 0x4000_0000
  const MAX_PREFIX_TERMS := 2048

  /** A read of untrusted length: refused past the limit, trivial for zero bytes. */
  function BoundedRead(file: bytes, off: nat, n: nat): Option<bytes> {
    if n > MAX_READ then None else if n == 0 then Some([]) else ReadAt(file, off, n)
  }

  function ReadBlock(f: TermFile, val: nat): Result<seq<Item>> {
    match BoundedRead(f.dict, val / SIZE_LIMIT, val % SIZE_LIMIT)
    case None => Err(Truncated)
    case Some(raw) =>
      match DecodeFrom(raw, START)
      case None => Err(Truncated)
      case Some(items) => Ok(items)
  }

  // ----- a file whose blocks read back -----

  ghost predicate ItemsSorted(items: seq<Item>) {
    forall i, j :: 0 <= i < j < |items| ==> TermOrder.Less(items[i].term, items[j].term)
  }

  /** Block `b` decodes to its group, and the router names it by the group's last term. */
  ghost predicate BlockReads(f: TermFile, groups: seq<seq<Item>>, b: nat)
    requires |f.router| == |groups| && b < |groups|
  {
    && groups[b] != [] && ReadBlock(f, f.router[b].1) == Ok(groups[b])
    && f.router[b].0 == groups[b][|groups[b]| - 1].term
  }

  ghost predicate ReadsAs(f: TermFile, groups: seq<seq<Item>>) {
    && |f.router| == |groups| && ItemsSorted(Flatten(groups))
    && (forall b :: 0 <= b < |groups| ==> BlockReads(f, groups, b))
  }

  lemma {:induction false} GroupItems(groups: seq<seq<Item>>, b: nat, j: nat)
    requires b < |groups| && j < |groups[b]|
    ensures |Flatten(groups[..b])| + |groups[b]| <= |Flatten(groups)|
    ensures Flatten(groups)[|Flatten(groups[..b])| + j] == groups[b][j]
    decreases |groups|
  {
    var front := groups[..|groups| - 1];
    if b < |groups| - 1 {
      assert front[..b] == groups[..b];
      GroupItems(front, b, j);
    } else {
      assert groups[..b] == front;
    }
  }

  lemma ItemsFit(codec: Codec, m: TermMap, terms: seq<bytes>, boundary: nat)
    requires TermsFit(codec, m, terms, boundary) && forall t :: t in m ==> |t| < TWO_64
    ensures AllFit(ItemsOf(codec, m, terms, boundary))
  {
    var items := ItemsOf(codec, m, terms, boundary);
    forall i | 0 <= i < |items| ensures Fits(items[i]) {
      assert TermFits(codec, m, terms, boundary, i);
    }
  }

  lemma GroupFits(groups: seq<seq<Item>>, b: nat)
    requires AllFit(Flatten(groups)) && b < |groups|
    ensures AllFit(groups[b])
  {
    forall j | 0 <= j < |groups[b]| ensures Fits(groups[b][j]) {
      GroupItems(groups, b, j);
    }
  }

  /** A written block decodes to its group. */
  lemma WrittenBlock(cap: nat, f: TermFile, groups: seq<seq<Item>>, blocks: seq<DictBlock>, b: nat)
    requires Emitted(cap, groups, blocks, |f.dict|) && f.dict == Join(BlockBytes(groups))
             && f.router == RouterOf(blocks)
    requires b < |groups| && BlockFits(blocks[b]) && AllFit(groups[b])
    ensures BlockReads(f, groups, b)
  {
    hide Join, Full, WithinCap, AllFit, EncodedAll, DecodeFrom;
    var parts := BlockBytes(groups);
    PartSlice(parts, b);
    PackUnpacks(blocks[b].off, |blocks[b].bs|);
    BlockRoundTrip(START, groups[b]);
    NotEmpty(groups[b]);
  }

  lemma NotEmpty(g: seq<Item>)
    requires g != []
    ensures |BlockOf(g)| > 0
  {
  }

  lemma TermsSorted(codec: Codec, m: TermMap, terms: seq<bytes>, boundary: nat)
    requires TermOrder.Sorted(terms)
    ensures ItemsSorted(ItemsOf(codec, m, terms, boundary))
  {
  }

  /** A written term index reads back block by block. */
  lemma WrittenReads(codec: Codec, m: TermMap, boundary: nat, cap: nat, f: TermFile, groups: seq<seq<Item>>)
    requires IsWritten(codec, m, boundary, cap, f, groups)
    ensures ReadsAs(f, groups)
  {
    hide Flatten, Join, Full, WithinCap, AllFit, TermsFit, TermOrder.Sorted, ItemsSorted;
    var terms := TermOrder.SortedTerms(m.Keys);
    TermOrder.SortedTermsList(m.Keys);
    TermsSorted(codec, m, terms, boundary);
    ItemsFit(codec, m, terms, boundary);
    var blocks :| Emitted(cap, groups, blocks, |f.dict|) && f.router == RouterOf(blocks) && forall b :: b in blocks ==>
      BlockFits(b);
    forall b | 0 <= b < |groups| ensures |f.router| == |groups| && BlockReads(f, groups, b) {
      GroupFits(groups, b);
      assert blocks[b] in blocks;
      WrittenBlock(cap, f, groups, blocks, b);
    }
    assert |f.router| == |groups|;
  }

  // ----- exact lookup -----

  /** The router's first entry whose key is at least `token`, counting from `from`. */
  function Ge(router: seq<(bytes, nat)>, token: bytes, from: nat): (i: nat)
    requires from <= |router|
    ensures from <= i <= |router| && (forall k :: from <= k < i ==> !TermOrder.AtMost(token, router[k].0))
    ensures i < |router| ==> TermOrder.AtMost(token, router[i].0)
    decreases |router| - from
  {
    if from == |router| || TermOrder.AtMost(token, router[from].0) then from else Ge(router, token, from + 1)
  }

  /** The first entry with this term. */
  function FindIn(items: seq<Item>, token: bytes): (r: Option<Item>)
    ensures r.Some? <==> exists i :: 0 <= i < |items| && items[i].term == token
    ensures r.Some? ==> r.value in items && r.value.term == token
  {
    if items == [] then None
    else if items[0].term == token then Some(items[0])
    else
      var r := FindIn(items[1..], token);
      assert forall i :: 1 <= i < |items| ==> items[i] == items[1..][i - 1];
      r
  }

  /** Routes the token to the one block that can hold it, decodes that block, and scans it. */
  method Find(f: TermFile, token: bytes, ghost groups: Option<seq<seq<Item>>>)
    returns (r: Result<Option<Item>>, fetched: nat)
    requires groups.Some? ==> ReadsAs(f, groups.value)
    ensures fetched <= 1
    ensures groups.Some? ==> r.Ok?
    ensures groups.Some? ==> (r.value.Some? <==> exists it :: it in Flatten(groups.value) && it.term == token)
    ensures groups.Some? ==> (r.value.Some? ==> r.value.value in Flatten(groups.value) && r.value.value.term == token)
  {
    hide ItemsSorted, Flatten, TermOrder.Less, ReadBlock, ReadsAs;
    fetched := 0;
    var b := Ge(f.router, token, 0);
    if groups.Some? {
      FindRouted(f, groups.value, token);
    }
    if b == |f.router| {
      return Ok(None), fetched;
    }
    var items := ReadBlock(f, f.router[b].1);
    fetched := 1;
    if items.Err? {
      return Err(items.error), fetched;
    }
    for i := 0 to |items.value|
      invariant forall k :: 0 <= k < i ==> items.value[k].term != token
    {
      if items.value[i].term == token {
        return Ok(Some(items.value[i])), fetched;
      }
    }
    assert forall it :: it in items.value ==> it.term != token;
    r := Ok(None);
  }

  lemma {:induction false} FlattenHas(groups: seq<seq<Item>>, it: Item) returns (b: nat, j: nat)
    requires it in Flatten(groups)
    ensures b < |groups| && j < |groups[b]| && groups[b][j] == it
    decreases |groups|
  {
    var last := |groups| - 1;
    if k :| 0 <= k < |groups[last]| && groups[last][k] == it {
      b, j := last, k;
    } else {
      b, j := FlattenHas(groups[..last], it);
    }
  }

  lemma {:induction false} StartsOrdered(groups: seq<seq<Item>>, a: nat, b: nat)
    requires a < b < |groups|
    ensures |Flatten(groups[..a])| + |groups[a]| <= |Flatten(groups[..b])|
    decreases b
  {
    assert groups[..b][..b - 1] == groups[..b - 1] && groups[..b][b - 1] == groups[b - 1];
    if a < b - 1 {
      StartsOrdered(groups, a, b - 1);
    }
  }

  /** Terms grow within a group and from one group to the next. */
  lemma GroupOrder(groups: seq<seq<Item>>, a: nat, i: nat, b: nat, j: nat)
    requires ItemsSorted(Flatten(groups)) && a < |groups| && i < |groups[a]| && b < |groups| && j < |groups[b]|
    requires a < b || (a == b && i < j)
    ensures TermOrder.Less(groups[a][i].term, groups[b][j].term)
  {
    GroupItems(groups, a, i);
    GroupItems(groups, b, j);
    if a < b {
      StartsOrdered(groups, a, b);
    }
  }

  lemma BlockFacts(f: TermFile, groups: seq<seq<Item>>, b: nat)
    requires ReadsAs(f, groups) && b < |groups|
    ensures groups[b] != [] && ReadBlock(f, f.router[b].1) == Ok(groups[b])
            && f.router[b].0 == groups[b][|groups[b]| - 1].term
  {
    assert BlockReads(f, groups, b);
  }

  /** A term is in the routed block or nowhere. */
  lemma FindRouted(f: TermFile, groups: seq<seq<Item>>, token: bytes)
    requires ReadsAs(f, groups)
    ensures var b := Ge(f.router, token, 0);
            && |f.router| == |groups|
            && (b < |groups| ==> ReadBlock(f, f.router[b].1) == Ok(groups[b]))
            && (forall it :: it in Flatten(groups) && it.term == token ==> b < |groups| && it in groups[b])
            && (b < |groups| ==> forall it :: it in groups[b] ==> it in Flatten(groups))
  {
    hide ItemsSorted, Flatten, ReadBlock;
    var b := Ge(f.router, token, 0);
    if b < |groups| {
      BlockFacts(f, groups, b);
      forall it | it in groups[b] ensures it in Flatten(groups) {
        var j :| 0 <= j < |groups[b]| && groups[b][j] == it;
        GroupItems(groups, b, j);
      }
    }
    forall it | it in Flatten(groups) && it.term == token ensures b < |groups| && it in groups[b] {
      var a, i := FlattenHas(groups, it);
      RoutedBlock(f, groups, token, a, i);
    }
  }

  lemma RoutedBlock(f: TermFile, groups: seq<seq<Item>>, token: bytes, a: nat, i: nat)
    requires ReadsAs(f, groups) && a < |groups| && i < |groups[a]| && groups[a][i].term == token
    ensures Ge(f.router, token, 0) == a
  {
    hide ItemsSorted, Flatten, ReadBlock, TermOrder.Less;
    var b := Ge(f.router, token, 0);
    BlockFacts(f, groups, a);
    var last := |groups[a]| - 1;
    if i < last {
      GroupOrder(groups, a, i, a, last);
    }
    assert TermOrder.AtMost(token, f.router[a].0);
    if b < a {
      BlockFacts(f, groups, b);
      GroupOrder(groups, b, |groups[b]| - 1, a, i);
      TermOrder.LessNot(f.router[b].0, token);
      assert false;
    }
  }

  // ----- the prefix scan -----

  /** The entries whose term has the prefix, in order. */
  function Matching(items: seq<Item>, p: bytes): seq<Item> {
    if items == [] then []
    else
      var last := items[|items| - 1];
      Matching(items[..|items| - 1], p) + if TermOrder.HasPrefix(last.term, p) then [last] else []
  }

  function Take<T>(q: seq<T>, n: nat): seq<T> {
    if n <= |q| then q[..n] else q
  }

  lemma {:induction false} MatchingAppend(a: seq<Item>, b: seq<Item>, p: bytes)
    ensures Matching(a + b, p) == Matching(a, p) + Matching(b, p)
    decreases |b|
  {
    if b == [] {
      assert a + b == a;
    } else {
      assert (a + b)[..|a + b| - 1] == a + b[..|b| - 1];
      MatchingAppend(a, b[..|b| - 1], p);
    }
  }

  lemma {:induction false} NoneMatching(items: seq<Item>, p: bytes)
    requires forall i :: 0 <= i < |items| ==> !TermOrder.HasPrefix(items[i].term, p)
    ensures Matching(items, p) == []
  {
    if items != [] {
      NoneMatching(items[..|items| - 1], p);
    }
  }

  /** The entries before the `j`-th of group `b`. */
  ghost function Before(groups: seq<seq<Item>>, b: nat, j: nat): seq<Item>
    requires b < |groups| && j <= |groups[b]|
  {
    Flatten(groups[..b]) + groups[b][..j]
  }

  lemma BeforeSplits(groups: seq<seq<Item>>, b: nat, j: nat)
    requires b < |groups| && j <= |groups[b]|
    ensures |Before(groups, b, j)| <= |Flatten(groups)|
            && Flatten(groups)[..|Before(groups, b, j)|] == Before(groups, b, j)
    decreases |groups|
  {
    var front, last := groups[..|groups| - 1], groups[|groups| - 1];
    if b < |front| {
      assert front[..b] == groups[..b];
      BeforeSplits(front, b, j);
    } else {
      assert groups[..b] == front;
      assert Before(groups, b, j) == Flatten(front) + last[..j];
    }
  }

  lemma BeforeNext(groups: seq<seq<Item>>, b: nat, j: nat, p: bytes)
    requires b < |groups| && j < |groups[b]|
    ensures Matching(Before(groups, b, j + 1), p)
            == Matching(Before(groups, b, j), p) + if TermOrder.HasPrefix(groups[b][j].term, p) then [groups[b][j]]
              else []
  {
    var q := Before(groups, b, j + 1);
    assert q[..|q| - 1] == Before(groups, b, j) && q[|q| - 1] == groups[b][j];
  }

  lemma BeforeGroup(groups: seq<seq<Item>>, b: nat)
    requires b < |groups|
    ensures Before(groups, b, 0) == Flatten(groups[..b]) && Before(groups, b, |groups[b]|) == Flatten(groups[..b + 1])
  {
    assert groups[..b + 1][..b] == groups[..b];
    assert groups[b][..|groups[b]|] == groups[b];
  }

  /** Nothing in a block whose last term sorts before the prefix has the prefix. */
  lemma SkippedBlock(f: TermFile, groups: seq<seq<Item>>, b: nat, p: bytes)
    requires ReadsAs(f, groups) && b < |groups| && TermOrder.Less(f.router[b].0, p)
    ensures Matching(Flatten(groups[..b + 1]), p) == Matching(Flatten(groups[..b]), p)
  {
    hide ItemsSorted, ReadBlock, TermOrder.HasPrefix, TermOrder.Less, Matching;
    BlockFacts(f, groups, b);
    var g := groups[b];
    forall j | 0 <= j < |g| ensures !TermOrder.HasPrefix(g[j].term, p) {
      if j < |g| - 1 {
        GroupOrder(groups, b, j, b, |g| - 1);
        TermOrder.LessTransitive(g[j].term, g[|g| - 1].term, p);
      }
      TermOrder.BeforePrefix(g[j].term, p);
    }
    NoneMatching(g, p);
    assert groups[..b + 1][..b] == groups[..b];
    MatchingAppend(Flatten(groups[..b]), g, p);
  }

  /** Once an entry at or past the prefix lacks it, no later entry has it. */
  lemma PrefixRangeEnds(items: seq<Item>, k: nat, p: bytes)
    requires ItemsSorted(items) && k < |items|
    requires !TermOrder.Less(items[k].term, p) && !TermOrder.HasPrefix(items[k].term, p)
    ensures Matching(items, p) == Matching(items[..k], p)
  {
    hide TermOrder.HasPrefix, TermOrder.Less, Matching;
    TermOrder.LessTotal(items[k].term, p);
    var rest := items[k..];
    forall i | 0 <= i < |rest| ensures !TermOrder.HasPrefix(rest[i].term, p) {
      if i > 0 {
        assert rest[i] == items[k + i];
        TermOrder.PrefixEnds(items[k].term, rest[i].term, p);
      }
    }
    NoneMatching(rest, p);
    assert items == items[..k] + rest;
    MatchingAppend(items[..k], rest, p);
  }

  lemma MatchingPrefix(items: seq<Item>, k: nat, p: bytes)
    requires k <= |items|
    ensures Matching(items[..k], p) <= Matching(items, p)
  {
    assert items == items[..k] + items[k..];
    MatchingAppend(items[..k], items[k..], p);
  }

  /** The answer of a scan: the first `max` matching entries, and whether there are more. */
  ghost predicate ScanAnswers(items: seq<Item>, truncated: bool, all: seq<Item>, p: bytes, max: nat) {
    items == Take(Matching(all, p), max) && (truncated <==> |Matching(all, p)| > max)
  }

  /** The answer spelled out in bytes: entries that start with `p`, each below the next in byte
      order and below every such entry left out; none is left out unless there are `max`. */
  ghost predicate PrefixPage(items: seq<Item>, truncated: bool, all: seq<Item>, p: bytes, max: nat) {
    && |items| <= max
    && (forall i :: 0 <= i < |items| ==> items[i] in all && |p| <= |items[i].term| && items[i].term[..|p|] == p)
    && (forall i, j :: 0 <= i < j < |items| ==> TermOrder.BytesBelow(items[i].term, items[j].term))
    && (forall it, i :: it in all && |p| <= |it.term| && it.term[..|p|] == p && it !in items && 0 <= i < |items| ==>
          TermOrder.BytesBelow(items[i].term, it.term))
    && (truncated <==> exists it :: it in all && |p| <= |it.term| && it.term[..|p|] == p && it !in items)
    && (truncated ==> |items| == max)
  }

  lemma {:induction false} MatchingHas(all: seq<Item>, p: bytes, it: Item)
    ensures it in Matching(all, p) <==> it in all && |p| <= |it.term| && it.term[..|p|] == p
  {
    if all != [] {
      MatchingHas(all[..|all| - 1], p, it);
    }
  }

  lemma {:induction false} MatchingSorted(all: seq<Item>, p: bytes)
    requires ItemsSorted(all)
    ensures ItemsSorted(Matching(all, p))
  {
    if all != [] {
      var front, last := all[..|all| - 1], all[|all| - 1];
      MatchingSorted(front, p);
      forall i | 0 <= i < |Matching(front, p)| ensures TermOrder.Less(Matching(front, p)[i].term, last.term) {
        MatchingHas(front, p, Matching(front, p)[i]);
      }
    }
  }

  lemma SortedBytewise(items: seq<Item>)
    requires ItemsSorted(items)
    ensures forall i, j :: 0 <= i < j < |items| ==> TermOrder.BytesBelow(items[i].term, items[j].term)
    ensures forall i, j :: 0 <= i < j < |items| ==> items[i] != items[j]
  {
    forall i, j | 0 <= i < j < |items| ensures TermOrder.BytesBelow(items[i].term, items[j].term)
      && items[i] != items[j] {
      TermOrder.LessMeans(items[i].term, items[j].term);
      TermOrder.LessNot(items[i].term, items[j].term);
    }
  }

  /** What a scan answers is that page. */
  lemma ScanMeans(items: seq<Item>, truncated: bool, all: seq<Item>, p: bytes, max: nat)
    requires ItemsSorted(all) && ScanAnswers(items, truncated, all, p, max)
    ensures PrefixPage(items, truncated, all, p, max)
  {
    hide Matching, ItemsSorted, TermOrder.BytesBelow;
    var found := Matching(all, p);
    MatchingSorted(all, p);
    SortedBytewise(found);
    forall it ensures it in found <==> it in all && |p| <= |it.term| && it.term[..|p|] == p {
      MatchingHas(all, p, it);
    }
    assert found == items + found[|items|..];
    if truncated {
      assert found[max] !in items;
    }
  }

  datatype Scan = More | Done | Cut

  /** Scans one decoded block, from the entries found before it. */
  method ScanBlock(block: seq<Item>, found: seq<Item>, p: bytes, max: nat, ghost groups: Option<seq<seq<Item>>>,
                   ghost b: nat)
    returns (items: seq<Item>, state: Scan)
    requires |found| <= max
    requires groups.Some? ==> ItemsSorted(Flatten(groups.value)) && b < |groups.value| && block == groups.value[b]
    requires groups.Some? ==> found == Matching(Flatten(groups.value[..b]), p)
    ensures |items| <= max && found <= items
    ensures groups.Some? && state.More? ==> items == Matching(Flatten(groups.value[..b + 1]), p)
    ensures groups.Some? && !state.More? ==> ScanAnswers(items, state.Cut?, Flatten(groups.value), p, max)
    ensures state.More? && block != [] && !TermOrder.Less(block[|block| - 1].term, p) ==> |items| > |found|
  {
    hide ItemsSorted, Matching, Flatten, Before, TermOrder.HasPrefix;
    items := found;
    if groups.Some? {
      BeforeGroup(groups.value, b);
    }
    for j := 0 to |block|
      invariant |items| <= max && found <= items
      invariant groups.Some? ==> items == Matching(Before(groups.value, b, j), p)
      invariant j > 0 && !TermOrder.Less(block[j - 1].term, p) ==> |items| > |found|
    {
      var it := block[j];
      if groups.Some? {
        BeforeNext(groups.value, b, j, p);
        BeforeEntry(groups.value, b, j, p);
      }
      if TermOrder.Less(it.term, p) {
        TermOrder.BeforePrefix(it.term, p);
        continue;
      }
      if !TermOrder.HasPrefix(it.term, p) {
        return items, Done;
      }
      if |items| == max {
        return items, Cut;
      }
      items := items + [it];
    }
    state := More;
  }

  /** How one entry bears on the whole: what was matched before it is a prefix of the matches,
      a match at it is a further one, and an end at it is the end. */
  lemma BeforeEntry(groups: seq<seq<Item>>, b: nat, j: nat, p: bytes)
    requires ItemsSorted(Flatten(groups)) && b < |groups| && j < |groups[b]|
    ensures Matching(Before(groups, b, j), p) <= Matching(Flatten(groups), p)
    ensures Matching(Before(groups, b, j + 1), p) <= Matching(Flatten(groups), p)
    ensures !TermOrder.Less(groups[b][j].term, p) && !TermOrder.HasPrefix(groups[b][j].term, p) ==>
              Matching(Flatten(groups), p) == Matching(Before(groups, b, j), p)
  {
    hide ItemsSorted, Matching, TermOrder.HasPrefix, TermOrder.Less, Flatten;
    var items, k := Flatten(groups), |Before(groups, b, j)|;
    BeforeSplits(groups, b, j);
    BeforeSplits(groups, b, j + 1);
    MatchingPrefix(items, k, p);
    MatchingPrefix(items, |Before(groups, b, j + 1)|, p);
    GroupItems(groups, b, j);
    if !TermOrder.Less(groups[b][j].term, p) && !TermOrder.HasPrefix(groups[b][j].term, p) {
      PrefixRangeEnds(items, k, p);
    }
  }

  /** Walks the dictionary from the first block that can hold the prefix until the prefix range
      ends or `max` entries are found. Every block it fetches but the last holds a match. */
  method ScanPrefix(f: TermFile, p: bytes, max: nat, ghost groups: Option<seq<seq<Item>>>)
    returns (r: Result<(seq<Item>, bool)>, fetched: nat)
    requires groups.Some? ==> ReadsAs(f, groups.value)
    ensures groups.Some? && max > 0 ==>
              r.Ok? && ScanAnswers(r.value.0, r.value.1, Flatten(groups.value), p, max) && fetched <= |r.value.0| + 1
    ensures groups.Some? && max > 0 ==>
              r.Ok? && PrefixPage(r.value.0, r.value.1, Flatten(groups.value), p, max)
    ensures max == 0 ==> r == Ok(([], false)) && fetched == 0
  {
    hide ItemsSorted, Matching, Flatten, ReadBlock, TermOrder.Less, PrefixPage;
    fetched := 0;
    if max == 0 {
      return Ok(([], false)), fetched;
    }
    var items: seq<Item> := [];
    if groups.Some? {
      NothingYet(groups.value, p);
    }
    for b := 0 to |f.router|
      invariant |items| <= max && (groups.Some? ==> fetched <= |items|)
      invariant groups.Some? ==> items == Matching(Flatten(groups.value[..b]), p)
    {
      if TermOrder.Less(f.router[b].0, p) {
        if groups.Some? {
          SkippedBlock(f, groups.value, b, p);
        }
        continue;
      }
      if groups.Some? {
        BlockFacts(f, groups.value, b);
      }
      var block := ReadBlock(f, f.router[b].1);
      if block.Err? {
        return Err(block.error), fetched + 1;
      }
      var found := items;
      var state;
      items, state := ScanBlock(block.value, found, p, max, groups, b);
      if !state.More? {
        if groups.Some? {
          ScanMeans(items, state.Cut?, Flatten(groups.value), p, max);
        }
        return Ok((items, state.Cut?)), fetched + 1;
      }
      fetched := fetched + 1;
    }
    if groups.Some? {
      assert groups.value[..|f.router|] == groups.value;
      ScanMeans(items, false, Flatten(groups.value), p, max);
    }
    r := Ok((items, false));
  }

  lemma NothingYet(groups: seq<seq<Item>>, p: bytes)
    ensures Matching(Flatten(groups[..0]), p) == []
  {
  }

  // ----- postings -----

  /** What a lookup or a scan may rely on: the file is the written index of `m`. */
  datatype Source = Source(m: TermMap, boundary: nat, cap: nat, groups: seq<seq<Item>>)

  ghost predicate Of(codec: Codec, f: TermFile, src: Source) {
    IsWritten(codec, src.m, src.boundary, src.cap, f, src.groups) && Faithful(codec)
  }

  function Tail(src: Source, term: bytes): set<nat> {
    if term in src.m then TermIndex.TailOf(src.m[term], src.boundary) else {}
  }

  function Whole(src: Source, term: bytes): set<nat> {
    if term in src.m then src.m[term] else {}
  }

  datatype HeadBlock = HeadBlock(head: set<nat>, tailOff: nat, tailSize: nat)

  /** The tail size and the head, in one read. */
  function ReadHead(codec: Codec, f: TermFile, it: Item): Option<HeadBlock> {
    match BoundedRead(f.posts, it.headOff, 4 + it.headSize)
    case None => None
    case Some(buf) =>
      match codec.de(buf[4..])
      case None => None
      case Some(head) => Some(HeadBlock(head, it.headOff + 4 + it.headSize, Field(buf, 0, 4)))
  }

  /** The whole posting: the tail size, then head and tail in a second read. */
  function ReadPosting(codec: Codec, f: TermFile, it: Item): Option<set<nat>> {
    match BoundedRead(f.posts, it.headOff, 4)
    case None => None
    case Some(word) =>
      match BoundedRead(f.posts, it.headOff + 4, it.headSize + Field(word, 0, 4))
      case None => None
      case Some(buf) =>
        match codec.de(buf[..it.headSize])
        case None => None
        case Some(head) =>
          match codec.de(buf[it.headSize..]) case None => None case Some(tail) => Some(head + tail)
  }

  lemma PartRead(parts: seq<bytes>, i: nat, a: nat, n: nat)
    requires i < |parts| && a + n <= |parts[i]|
    ensures ReadAt(Join(parts), Start(parts, i) + a, n) == Some(parts[i][a..a + n])
  {
    PartSlice(parts, i);
    hide Join, Start;
    var s := Start(parts, i);
    SliceWithin(Join(parts), s, s + |parts[i]|, a, n);
  }

  lemma SliceWithin(b: bytes, lo: nat, hi: nat, a: nat, n: nat)
    requires lo <= hi <= |b| && a + n <= hi - lo
    ensures b[lo..hi][a..a + n] == b[lo + a..lo + a + n]
  {
    var whole := b[lo..hi];
    var part := whole[a..a + n];
    assert forall k :: 0 <= k < n ==> part[k] == whole[a + k] == b[lo + a + k];
  }

  lemma PostingParts(codec: Codec, s: set<nat>, boundary: nat)
    requires |codec.ser(TermIndex.TailOf(s, boundary))| < TWO_32
    ensures var head, tail, p := codec.ser(HeadOf(s, boundary)), codec.ser(TermIndex.TailOf(s, boundary)),
            PostingOf(codec, s, boundary);
            && |p| == 4 + |head| + |tail| && Field(p[0..4], 0, 4) == |tail| && p[4..4 + |head|] == head
            && p[4 + |head|..4 + |head| + |tail|] == tail && p[4..4 + (|head| + |tail|)] == head + tail
            && Field(p[0..4 + |head|], 0, 4) == |tail| && p[0..4 + |head|][4..] == head
  {
    hide LE, FromLE, HeadOf, TermIndex.TailOf;
    var head, tail := codec.ser(HeadOf(s, boundary)), codec.ser(TermIndex.TailOf(s, boundary));
    PowerLiterals();
    FieldRoundTrip(|tail|, 4);
    ThreeParts(LE(|tail|, 4), head, tail);
  }

  lemma ThreeParts(w: bytes, head: bytes, tail: bytes)
    requires |w| == 4
    ensures var p := w + (head + tail);
            && p[0..4] == w && p[4..4 + |head|] == head && p[4 + |head|..4 + |head| + |tail|] == tail
            && p[4..4 + (|head| + |tail|)] == head + tail && p[0..4 + |head|][0..4] == w
            && p[0..4 + |head|][4..] == head
            && p[0..4][0..4] == w
  {
  }

  /** Where an entry's posting lies: it is part `i` of the postings region. */
  lemma ItemPlace(codec: Codec, f: TermFile, src: Source, it: Item) returns (parts: seq<bytes>, i: nat)
    requires Of(codec, f, src) && it in Flatten(src.groups)
    ensures f.posts == Join(parts) && i < |parts| && it.headOff == Start(parts, i) && it.term in src.m
    ensures parts[i] == PostingOf(codec, src.m[it.term], src.boundary)
    ensures it.headSize == |codec.ser(HeadOf(src.m[it.term], src.boundary))| < SIZE_LIMIT
            && |codec.ser(Tail(src, it.term))| < TWO_32
  {
    hide Join, Start, HeadOf, TermIndex.TailOf, Flatten, PostingOf, Emitted;
    var terms := TermOrder.SortedTerms(src.m.Keys);
    i :| 0 <= i < |terms| && ItemsOf(codec, src.m, terms, src.boundary)[i] == it;
    assert TermFits(codec, src.m, terms, src.boundary, i);
    parts := Parts(codec, src.m, terms, src.boundary);
  }

  /** What the entries of a written index stand for. */
  lemma ItemSource(codec: Codec, f: TermFile, src: Source, it: Item)
    requires Of(codec, f, src) && it in Flatten(src.groups)
    ensures it.term in src.m
    ensures var head, tail := codec.ser(HeadOf(src.m[it.term], src.boundary)), codec.ser(Tail(src, it.term));
            && |head| < SIZE_LIMIT && |tail| < TWO_32 && it.headSize == |head|
            && ReadAt(f.posts, it.headOff, 4) == Some(PostingOf(codec, src.m[it.term], src.boundary)[0..4])
            && ReadAt(f.posts, it.headOff, 4 + |head|) == Some(PostingOf(codec, src.m[it.term],
                                                                         src.boundary)[0..4 + |head|])
            && ReadAt(f.posts, it.headOff + 4, |head| + |tail|) == Some(head + tail)
            && ReadAt(f.posts, it.headOff + 4 + |head|, |tail|) == Some(tail)
  {
    hide Join, Start, Field, HeadOf, TermIndex.TailOf, Flatten, PostingOf, ReadAt, Of;
    var parts, i := ItemPlace(codec, f, src, it);
    PostingParts(codec, src.m[it.term], src.boundary);
    var tailSize := |codec.ser(Tail(src, it.term))|;
    PartRead(parts, i, 0, 4);
    PartRead(parts, i, 0, 4 + it.headSize);
    PartRead(parts, i, 4, it.headSize + tailSize);
    PartRead(parts, i, 4 + it.headSize, tailSize);
  }

  lemma HeadReads(codec: Codec, f: TermFile, src: Source, it: Item)
    requires Of(codec, f, src) && it in Flatten(src.groups)
    ensures it.term in src.m
    ensures ReadHead(codec, f, it) == Some(HeadBlock(HeadOf(src.m[it.term], src.boundary), it.headOff + 4 + it.headSize,
                                                     |codec.ser(Tail(src, it.term))|))
    ensures ReadAt(f.posts, it.headOff + 4 + it.headSize, |codec.ser(Tail(src, it.term))|)
            == Some(codec.ser(Tail(src, it.term)))
  {
    hide IsWritten, Field, HeadOf, TermIndex.TailOf, Flatten, PostingOf, ReadAt;
    ItemSource(codec, f, src, it);
    PostingParts(codec, src.m[it.term], src.boundary);
  }

  /** A posting reads back whole exactly when head and tail together fit one read. */
  lemma PostingReads(codec: Codec, f: TermFile, src: Source, it: Item)
    requires Of(codec, f, src) && it in Flatten(src.groups)
    ensures it.term in src.m
    ensures ReadPosting(codec, f, it)
            == if it.headSize + |codec.ser(Tail(src, it.term))| <= MAX_READ then Some(src.m[it.term]) else None
  {
    hide IsWritten, Field, HeadOf, TermIndex.TailOf, Flatten, PostingOf, ReadAt;
    ItemSource(codec, f, src, it);
    var s := src.m[it.term];
    PostingParts(codec, s, src.boundary);
    TermIndex.HeadAndTail(s, src.boundary);
    var head, tail := codec.ser(HeadOf(s, src.boundary)), codec.ser(Tail(src, it.term));
    assert (head + tail)[..|head|] == head && (head + tail)[|head|..] == tail;
    EmptyRead(codec, s, src.boundary);
  }

  /** Reading zero bytes gives what an empty head and tail hold. */
  lemma EmptyRead(codec: Codec, s: set<nat>, boundary: nat)
    ensures var head, tail := codec.ser(HeadOf(s, boundary)), codec.ser(TermIndex.TailOf(s, boundary));
            |head| + |tail| == 0 ==> head + tail == []
  {
  }

  /** Looks a term up and reads its posting: found exactly when the index has it, with exactly
      its documents; it fails exactly when the posting exceeds one read. */
  method LookupTerm(codec: Codec, f: TermFile, token: bytes, ghost src: Option<Source>)
    returns (r: Result<Option<set<nat>>>)
    requires src.Some? ==> Of(codec, f, src.value)
    ensures src.Some? ==>
              if token !in src.value.m then r == Ok(None)
              else if |codec.ser(HeadOf(src.value.m[token], src.value.boundary))|
                + |codec.ser(Tail(src.value, token))| > MAX_READ then r.Err?
              else r == Ok(Some(src.value.m[token]))
  {
    hide Of, ReadsAs, Flatten, ReadPosting, HeadOf, Tail;
    if src.Some? {
      SourceReads(codec, f, src.value);
      if token in src.value.m {
        TermListed(codec, f, src.value, token);
      }
    }
    var found, _ := Find(f, token, if src.Some? then Some(src.value.groups) else None);
    if found.Err? {
      return Err(found.error);
    }
    if found.value.None? {
      return Ok(None);
    }
    var it := found.value.value;
    if src.Some? {
      PostingReads(codec, f, src.value, it);
      HeadSize(codec, f, src.value, it);
    }
    var posting := ReadPosting(codec, f, it);
    r := if posting.None? then Err(Truncated) else Ok(Some(posting.value));
  }

  lemma SourceReads(codec: Codec, f: TermFile, src: Source)
    requires Of(codec, f, src)
    ensures ReadsAs(f, src.groups)
  {
    hide IsWritten, ReadsAs;
    WrittenReads(codec, src.m, src.boundary, src.cap, f, src.groups);
  }

  lemma TermListed(codec: Codec, f: TermFile, src: Source, token: bytes)
    requires Of(codec, f, src) && token in src.m
    ensures exists it :: it in Flatten(src.groups) && it.term == token
  {
    hide Flatten, Emitted, ItemAt, Join;
    var terms := TermOrder.SortedTerms(src.m.Keys);
    TermOrder.SortedTermsList(src.m.Keys);
    assert token in terms;
    var i :| 0 <= i < |terms| && terms[i] == token;
    var it := ItemsOf(codec, src.m, terms, src.boundary)[i];
    assert it.term == token by { ItemTerm(codec, src.m, terms, src.boundary, i); }
    assert it in Flatten(src.groups);
  }

  lemma ItemTerm(codec: Codec, m: TermMap, terms: seq<bytes>, boundary: nat, i: nat)
    requires i < |terms|
    ensures ItemAt(codec, m, terms, boundary, i).term == terms[i]
  {
  }

  lemma HeadSize(codec: Codec, f: TermFile, src: Source, it: Item)
    requires Of(codec, f, src) && it in Flatten(src.groups)
    ensures it.term in src.m && it.headSize == |codec.ser(HeadOf(src.m[it.term], src.boundary))|
  {
    hide IsWritten, Flatten, HeadOf, Tail;
    ItemSource(codec, f, src, it);
  }

  // ----- the whole dictionary -----

  function Entries(items: seq<Item>): (es: seq<(bytes, nat)>)
    ensures |es| == |items| && forall i :: 0 <= i < |items| ==> es[i] == (items[i].term, items[i].headOff)
  {
    seq(|items|, i requires 0 <= i < |items| => (items[i].term, items[i].headOff))
  }

  /** The first `n` blocks read, and the next one, if there is one, does not. */
  ghost predicate ReadsUpTo(f: TermFile, n: nat) {
    && n <= |f.router| && (forall b :: 0 <= b < n ==> ReadBlock(f, f.router[b].1).Ok?)
    && (n < |f.router| ==> ReadBlock(f, f.router[n].1).Err?)
  }

  ghost function BlocksRead(f: TermFile, n: nat): (groups: seq<seq<Item>>)
    requires n <= |f.router| && forall b :: 0 <= b < n ==> ReadBlock(f, f.router[b].1).Ok?
  {
    seq(n, b requires 0 <= b < n => ReadBlock(f, f.router[b].1).value)
  }

  /** Every term with its posting offset, block by block, up to the first block that does not
      read, where the walk stops silently. Over a written index it is what the writer returned. */
  method Dict(f: TermFile, ghost groups: Option<seq<seq<Item>>>) returns (out: seq<(bytes, nat)>)
    requires groups.Some? ==> ReadsAs(f, groups.value)
    ensures exists n :: ReadsUpTo(f, n) && out == Entries(Flatten(BlocksRead(f, n)))
    ensures groups.Some? ==> out == Entries(Flatten(groups.value))
    ensures groups.Some? ==> forall i, j :: 0 <= i < j < |out| ==> TermOrder.BytesBelow(out[i].0, out[j].0)
  {
    hide ItemsSorted, ReadBlock, Flatten, TermOrder.BytesBelow;
    out := [];
    if groups.Some? {
      SortedBytewise(Flatten(groups.value));
    }
    ghost var read: seq<seq<Item>> := [];
    assert Flatten([]) == [] by { NothingFlat([]); }
    for b := 0 to |f.router|
      invariant |read| == b && forall i :: 0 <= i < b ==> ReadBlock(f, f.router[i].1) == Ok(read[i])
      invariant out == Entries(Flatten(read)) && (groups.Some? ==> read == groups.value[..b])
    {
      var items := ReadBlock(f, f.router[b].1);
      if groups.Some? {
        BlockFacts(f, groups.value, b);
      }
      if items.Err? {
        assert ReadsUpTo(f, b) && BlocksRead(f, b) == read;
        return;
      }
      FlattenAppend(read, items.value);
      out, read := out + Entries(items.value), read + [items.value];
    }
    assert ReadsUpTo(f, |f.router|) && BlocksRead(f, |f.router|) == read;
    if groups.Some? {
      assert groups.value[..|f.router|] == groups.value;
    }
  }

  lemma NothingFlat(groups: seq<seq<Item>>)
    ensures Flatten(groups[..0]) == []
  {
  }

  // ----- prefix search -----

  /** The documents of any of the entries. */
  ghost function UnionOf(src: Source, items: seq<Item>): set<nat> {
    if items == [] then {} else UnionOf(src, items[..|items| - 1]) + Whole(src, items[|items| - 1].term)
  }

  /** Some entry's tail is past one read. */
  ghost predicate BigTail(codec: Codec, src: Source, items: seq<Item>) {
    exists i :: 0 <= i < |items| && |codec.ser(Tail(src, items[i].term))| > MAX_READ
  }

  /** The empty set alone may serialise to nothing, so that a tail of size zero is an empty tail. */
  ghost predicate OnlyEmptyIsEmpty(codec: Codec) {
    forall s :: codec.ser(s) == [] ==> s == {}
  }

  /** A tail still to be read: where it lies, and the set it holds. */
  datatype TailLoc = TailLoc(off: nat, size: nat)

  ghost predicate Holds(codec: Codec, f: TermFile, tails: seq<TailLoc>, sets: seq<set<nat>>) {
    && |sets| == |tails|
    && (forall i :: 0 <= i < |tails| ==>
         tails[i].size == |codec.ser(sets[i])|
         && ReadAt(f.posts, tails[i].off, tails[i].size) == Some(codec.ser(sets[i])))
  }

  ghost function AllOf(sets: seq<set<nat>>): set<nat> {
    if sets == [] then {} else AllOf(sets[..|sets| - 1]) + sets[|sets| - 1]
  }

  ghost predicate TooBig(tails: seq<TailLoc>) {
    exists i :: 0 <= i < |tails| && tails[i].size > MAX_READ
  }

  /** What the head wave has gathered from the first `items`. */
  ghost predicate Gathered(codec: Codec, f: TermFile, src: Source, items: seq<Item>, acc: set<nat>, tails: seq<TailLoc>,
                           sets: seq<set<nat>>) {
    && acc == HeadOf(UnionOf(src, items), src.boundary)
    && Holds(codec, f, tails, sets) && AllOf(sets) == TermIndex.TailOf(UnionOf(src, items), src.boundary)
    && (TooBig(tails) <==> BigTail(codec, src, items))
  }

  lemma UnionNext(src: Source, items: seq<Item>, it: Item)
    ensures UnionOf(src, items + [it]) == UnionOf(src, items) + Whole(src, it.term)
    ensures HeadOf(UnionOf(src, items + [it]), src.boundary)
            == HeadOf(UnionOf(src, items), src.boundary) + HeadOf(Whole(src, it.term), src.boundary)
    ensures TermIndex.TailOf(UnionOf(src, items + [it]), src.boundary)
            == TermIndex.TailOf(UnionOf(src, items), src.boundary) + Tail(src, it.term)
  {
    assert (items + [it])[..|items|] == items;
  }

  lemma BigTailNext(codec: Codec, src: Source, items: seq<Item>, it: Item)
    ensures BigTail(codec, src, items + [it])
            <==> BigTail(codec, src, items) || |codec.ser(Tail(src, it.term))| > MAX_READ
  {
    hide Tail;
    var more := items + [it];
    assert more[|items|] == it;
    if i :| 0 <= i < |items| && |codec.ser(Tail(src, items[i].term))| > MAX_READ {
      assert more[i] == items[i];
    }
  }

  lemma TooBigNext(tails: seq<TailLoc>, t: TailLoc)
    ensures TooBig(tails + [t]) <==> TooBig(tails) || t.size > MAX_READ
  {
    var more := tails + [t];
    assert more[|tails|] == t;
    if i :| 0 <= i < |tails| && tails[i].size > MAX_READ {
      assert more[i] == tails[i];
    }
  }

  lemma AllNext(sets: seq<set<nat>>, s: set<nat>)
    ensures AllOf(sets + [s]) == AllOf(sets) + s
  {
    assert (sets + [s])[..|sets|] == sets;
  }

  lemma GatherStep(codec: Codec, f: TermFile, src: Source, items: seq<Item>, it: Item, acc: set<nat>,
                   tails: seq<TailLoc>, sets: seq<set<nat>>, hb: HeadBlock)
    requires Gathered(codec, f, src, items, acc, tails, sets) && OnlyEmptyIsEmpty(codec)
    requires it.term in src.m && hb.head == HeadOf(src.m[it.term], src.boundary)
             && hb.tailSize == |codec.ser(Tail(src, it.term))|
    requires ReadAt(f.posts, hb.tailOff, hb.tailSize) == Some(codec.ser(Tail(src, it.term)))
    ensures hb.tailSize > 0 ==> Gathered(codec, f, src, items + [it], acc + hb.head,
                                         tails + [TailLoc(hb.tailOff, hb.tailSize)], sets + [Tail(src, it.term)])
    ensures hb.tailSize == 0 ==> Gathered(codec, f, src, items + [it], acc + hb.head, tails, sets)
  {
    hide HeadOf, TermIndex.TailOf, Tail, UnionOf, BigTail, TooBig, AllOf, ReadAt;
    UnionNext(src, items, it);
    BigTailNext(codec, src, items, it);
    TooBigNext(tails, TailLoc(hb.tailOff, hb.tailSize));
    AllNext(sets, Tail(src, it.term));
    assert Whole(src, it.term) == src.m[it.term];
    assert hb.tailSize == 0 ==> Tail(src, it.term) == {};
  }

  lemma GatherNone(codec: Codec, f: TermFile, src: Source)
    ensures Gathered(codec, f, src, [], {}, [], [])
  {
  }

  /** The head wave: each entry's head into the union, its tail remembered. */
  method ReadHeads(codec: Codec, f: TermFile, items: seq<Item>, ghost src: Option<Source>)
    returns (r: Option<(set<nat>, seq<TailLoc>)>, ghost sets: seq<set<nat>>)
    requires src.Some? ==> Of(codec, f, src.value) && OnlyEmptyIsEmpty(codec) && forall it :: it in items ==>
               it in Flatten(src.value.groups)
    ensures src.Some? ==> r.Some? && Gathered(codec, f, src.value, items, r.value.0, r.value.1, sets)
  {
    hide Of, Gathered, ReadHead, Flatten, HeadOf, Tail, ReadAt, OnlyEmptyIsEmpty;
    var acc: set<nat>, tails: seq<TailLoc> := {}, [];
    sets := [];
    if src.Some? {
      GatherNone(codec, f, src.value);
    }
    assert items[..0] == [];
    for i := 0 to |items|
      invariant src.Some? ==> Gathered(codec, f, src.value, items[..i], acc, tails, sets)
    {
      var hb := ReadHead(codec, f, items[i]);
      if src.Some? {
        HeadReads(codec, f, src.value, items[i]);
        GatherStep(codec, f, src.value, items[..i], items[i], acc, tails, sets, hb.value);
        assert items[..i + 1] == items[..i] + [items[i]];
      }
      if hb.None? {
        return None, sets;
      }
      acc := acc + hb.value.head;
      if hb.value.tailSize > 0 {
        tails := tails + [TailLoc(hb.value.tailOff, hb.value.tailSize)];
        if src.Some? {
          sets := sets + [Tail(src.value, items[i].term)];
        }
      }
    }
    assert items[..|items|] == items;
    r := Some((acc, tails));
  }

  /** The tail wave. */
  method ReadTails(codec: Codec, f: TermFile, heads: set<nat>, tails: seq<TailLoc>, ghost sets: Option<seq<set<nat>>>)
    returns (r: Option<set<nat>>)
    requires sets.Some? ==> Holds(codec, f, tails, sets.value) && Faithful(codec)
    ensures sets.Some? ==> (r.None? <==> TooBig(tails)) && (r.Some? ==> r.value == heads + AllOf(sets.value))
  {
    hide ReadAt, AllOf;
    var acc := heads;
    if sets.Some? {
      assert AllOf(sets.value[..0]) == {} by { NoSets(sets.value); }
    }
    for i := 0 to |tails|
      invariant sets.Some? ==> acc == heads + AllOf(sets.value[..i])
      invariant forall j :: 0 <= j < i ==> tails[j].size <= MAX_READ
    {
      var buf := BoundedRead(f.posts, tails[i].off, tails[i].size);
      if buf.None? {
        return None;
      }
      var tail := codec.de(buf.value);
      if sets.Some? {
        assert sets.value[..i + 1] == sets.value[..i] + [sets.value[i]];
        AllNext(sets.value[..i], sets.value[i]);
      }
      if tail.None? {
        return None;
      }
      acc := acc + tail.value;
    }
    if sets.Some? {
      assert sets.value[..|tails|] == sets.value;
    }
    r := Some(acc);
  }

  lemma NoSets(sets: seq<set<nat>>)
    ensures AllOf(sets[..0]) == {}
  {
  }

  lemma GatheredMeans(codec: Codec, f: TermFile, src: Source, items: seq<Item>, acc: set<nat>, tails: seq<TailLoc>,
                      sets: seq<set<nat>>, limit: nat)
    requires Gathered(codec, f, src, items, acc, tails, sets)
    ensures Holds(codec, f, tails, sets) && (TooBig(tails) <==> BigTail(codec, src, items))
    ensures acc == HeadOf(UnionOf(src, items), src.boundary) && acc + AllOf(sets) == UnionOf(src, items)
    ensures |acc| >= limit ==> Ordered.FirstN(acc, limit) == Ordered.FirstN(UnionOf(src, items), limit)
  {
    var all := UnionOf(src, items);
    TermIndex.HeadAndTail(all, src.boundary);
    if |acc| >= limit {
      Ordered.FirstNBelow(all, HeadOf(all, src.boundary), TermIndex.TailOf(all, src.boundary), limit);
    }
  }

  /** The terms a prefix search unites. */
  ghost function Searched(src: Source, p: bytes): seq<Item> {
    Take(Matching(Flatten(src.groups), p), MAX_PREFIX_TERMS)
  }

  // ----- the same, from the map alone -----

  /** The terms of a map that start with `p`. */
  ghost function Prefixed(m: TermMap, p: bytes): set<bytes> {
    set t | t in m && |p| <= |t| && t[..|p|] == p
  }

  /** The first `max` of them in byte order. */
  ghost function FirstPrefixed(m: TermMap, p: bytes, max: nat): set<bytes> {
    set t | t in Prefixed(m, p) && |set u | u in Prefixed(m, p) && TermOrder.BytesBelow(u, t)| < max
  }

  /** The documents of any of the terms. */
  ghost function DocsOf(m: TermMap, terms: set<bytes>): set<nat> {
    set t, d | t in terms && t in m && d in m[t] :: d
  }

  lemma {:induction false} UnionHas(src: Source, items: seq<Item>, d: nat)
    ensures d in UnionOf(src, items) <==> exists i :: 0 <= i < |items| && d in Whole(src, items[i].term)
  {
    if items != [] {
      UnionHas(src, items[..|items| - 1], d);
    }
  }

  ghost function TermSet(items: seq<Item>): set<bytes> {
    set i | 0 <= i < |items| :: items[i].term
  }

  lemma {:induction false} TermSetSize(items: seq<Item>)
    requires ItemsSorted(items)
    ensures |TermSet(items)| == |items|
    decreases |items|
  {
    if items != [] {
      var front, last := items[..|items| - 1], items[|items| - 1];
      TermSetSize(front);
      forall i | 0 <= i < |front| ensures front[i].term != last.term {
        TermOrder.LessNot(items[i].term, last.term);
      }
      assert TermSet(items) == TermSet(front) + {last.term};
    }
  }

  /** In a sorted list, those before an entry are those below it. */
  lemma BelowEntry(items: seq<Item>, k: nat)
    requires ItemsSorted(items) && k < |items|
    ensures |set u | u in TermSet(items) && TermOrder.BytesBelow(u, items[k].term)| == k
  {
    TermSetSize(items[..k]);
    forall i | 0 <= i < |items| ensures TermOrder.BytesBelow(items[i].term, items[k].term) <==> i < k {
      TermOrder.LessMeans(items[i].term, items[k].term);
      if i == k {
        TermOrder.LessIrreflexive(items[k].term);
      } else if k < i {
        TermOrder.LessNot(items[k].term, items[i].term);
      }
    }
    hide TermOrder.BytesBelow;
    assert (set u | u in TermSet(items) && TermOrder.BytesBelow(u, items[k].term)) == TermSet(items[..k]);
  }

  /** The matching entries are the terms that start with the prefix. */
  lemma MatchedTerms(codec: Codec, f: TermFile, src: Source, p: bytes)
    requires Of(codec, f, src)
    ensures var found := Matching(Flatten(src.groups), p);
            ItemsSorted(found) && TermSet(found) == Prefixed(src.m, p) && |found| == |Prefixed(src.m, p)|
  {
    hide Of, Matching, ItemsSorted, Flatten;
    SourceReads(codec, f, src);
    var all := Flatten(src.groups);
    var found := Matching(all, p);
    MatchingSorted(all, p);
    forall it ensures it in found <==> it in all && |p| <= |it.term| && it.term[..|p|] == p {
      MatchingHas(all, p, it);
    }
    forall it | it in all ensures it.term in src.m {
      ItemSource(codec, f, src, it);
    }
    forall t | t in Prefixed(src.m, p) ensures t in TermSet(found) {
      TermListed(codec, f, src, t);
      var it :| it in all && it.term == t;
      assert it in found;
    }
    assert TermSet(found) == Prefixed(src.m, p);
    TermSetSize(found);
  }

  /** What a prefix search unites: the postings of the first 2048 such terms in byte order. */
  lemma SearchedDocs(codec: Codec, f: TermFile, src: Source, p: bytes)
    requires Of(codec, f, src)
    ensures UnionOf(src, Searched(src, p)) == DocsOf(src.m, FirstPrefixed(src.m, p, MAX_PREFIX_TERMS))
    ensures |Matching(Flatten(src.groups), p)| == |Prefixed(src.m, p)|
  {
    MatchedTerms(codec, f, src, p);
    hide Of, Matching, ItemsSorted, Flatten, TermOrder.BytesBelow;
    var found, taken := Matching(Flatten(src.groups), p), Searched(src, p);
    forall t ensures t in FirstPrefixed(src.m, p, MAX_PREFIX_TERMS) <==> t in TermSet(taken) {
      FirstTaken(src, p, t);
    }
    forall d: nat ensures d in UnionOf(src, taken) <==> d in DocsOf(src.m, FirstPrefixed(src.m, p, MAX_PREFIX_TERMS)) {
      UnionHas(src, taken, d);
    }
  }

  lemma FirstTaken(src: Source, p: bytes, t: bytes)
    requires var found := Matching(Flatten(src.groups), p); ItemsSorted(found) && TermSet(found) == Prefixed(src.m, p)
    ensures t in FirstPrefixed(src.m, p, MAX_PREFIX_TERMS) <==> t in TermSet(Searched(src, p))
  {
    hide Matching, Flatten, TermOrder.BytesBelow;
    var found := Matching(Flatten(src.groups), p);
    if t in Prefixed(src.m, p) {
      var k :| 0 <= k < |found| && found[k].term == t;
      BelowEntry(found, k);
      forall i | 0 <= i < |found| && found[i].term == t ensures i == k {
        SortedBytewise(found);
        TermOrder.LessIrreflexive(t);
      }
    }
  }

  /** The first `limit` documents, ascending, of the union of the full postings of the first 2048
      terms with the prefix, whether or not the tails had to be read; it fails exactly when the
      heads fall short of the limit and some tail exceeds one read. */
  method SearchPrefix(codec: Codec, f: TermFile, p: bytes, limit: nat, ghost src: Option<Source>)
    returns (r: Result<(seq<nat>, bool)>)
    requires src.Some? ==> Of(codec, f, src.value) && OnlyEmptyIsEmpty(codec)
    ensures limit == 0 ==> r == Ok(([], false))
    ensures src.Some? && limit > 0 ==>
              (r.Err? <==> |HeadOf(UnionOf(src.value, Searched(src.value, p)), src.value.boundary)| < limit
                           && BigTail(codec, src.value, Searched(src.value, p)))
    ensures src.Some? && limit > 0 && r.Ok? ==>
              && r.value.0 == Ordered.FirstN(UnionOf(src.value, Searched(src.value, p)), limit)
              && (r.value.1 <==> |Matching(Flatten(src.value.groups), p)| > MAX_PREFIX_TERMS)
    ensures src.Some? && limit > 0 && r.Ok? ==>
              && r.value.0 == Ordered.FirstN(DocsOf(src.value.m, FirstPrefixed(src.value.m, p, MAX_PREFIX_TERMS)),
                                             limit)
              && (r.value.1 <==> |Prefixed(src.value.m, p)| > MAX_PREFIX_TERMS)
  {
    hide Of, ReadsAs, Matching, Flatten, Gathered, UnionOf, BigTail, TooBig, HeadOf, AllOf, Holds, Ordered.FirstN,
         OnlyEmptyIsEmpty;
    if limit == 0 {
      return Ok(([], false));
    }
    if src.Some? {
      SourceReads(codec, f, src.value);
      OfFaithful(codec, f, src.value);
    }
    var scan, _ := ScanPrefix(f, p, MAX_PREFIX_TERMS, if src.Some? then Some(src.value.groups) else None);
    if scan.Err? {
      return Err(scan.error);
    }
    var items := scan.value.0;
    if src.Some? {
      MatchesListed(Flatten(src.value.groups), p, items);
      SearchedDocs(codec, f, src.value, p);
    }
    var heads, sets := ReadHeads(codec, f, items, src);
    if heads.None? {
      return Err(Truncated);
    }
    var acc := heads.value.0;
    if src.Some? {
      GatheredMeans(codec, f, src.value, items, acc, heads.value.1, sets, limit);
    }
    if |acc| < limit {
      var all := ReadTails(codec, f, acc, heads.value.1, if src.Some? then Some(sets) else None);
      if all.None? {
        return Err(Truncated);
      }
      acc := all.value;
    }
    r := Ok((Ordered.FirstN(acc, limit), scan.value.1));
  }

  lemma OfFaithful(codec: Codec, f: TermFile, src: Source)
    requires Of(codec, f, src)
    ensures Faithful(codec)
  {
  }

  lemma {:induction false} MatchingIn(all: seq<Item>, p: bytes)
    ensures forall it :: it in Matching(all, p) ==> it in all
  {
    if all != [] {
      MatchingIn(all[..|all| - 1], p);
    }
  }

  lemma MatchesListed(all: seq<Item>, p: bytes, items: seq<Item>)
    requires items == Take(Matching(all, p), MAX_PREFIX_TERMS)
    ensures forall it :: it in items ==> it in all
  {
    MatchingIn(all, p);
  }
}
