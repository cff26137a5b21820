/** The front-coded term dictionary: varints, the block writer (terms.go) and the block decoder
    (terms_read.go). Offsets are 64-bit and wrap. */
module FrontCoding {
  import opened Wrappers
  import opened Bytes

  // ----- varints -----

  function Uvarint(v: nat): (b: bytes)
    ensures |b| >= 1
  {
    if v < 128 then [v] else [v % 128 + 128] + Uvarint(v / 128)
  }

  function Pow128(i: nat): (r: nat)
    ensures r > 0
  {
    if i == 0 then 1 else 128 * Pow128(i - 1)
  }

  /** Reads a varint whose `i`-th byte comes first: the value and its length, or nothing when the
      bytes run out or the value does not fit 64 bits. */
  function ReadUvarint(b: bytes, i: nat): (r: Option<(nat, nat)>)
    ensures r.Some? ==> 1 <= r.value.1 <= |b|
  {
    if b == [] || i == 10 then None
    else if b[0] < 128 then (if i == 9 && b[0] > 1 then None else Some((b[0], 1)))
    else match ReadUvarint(b[1..], i + 1)
      case None => None
      case Some((v, n)) => Some((b[0] - 128 + 128 * v, n + 1))
  }

  lemma Shifted(v: nat, p: nat)
    ensures (v / 128) * (128 * p) <= v * p
  {
    var q := v / 128;
    assert q * (128 * p) == (128 * q) * p;
    Scaled(128 * q, v, p);
  }

  lemma Scaled(a: nat, b: nat, p: nat)
    requires a <= b
    ensures a * p <= b * p
  {
  }

  lemma {:induction false} PowLimit(i: nat)
    requires i >= 10
    ensures Pow128(i) >= TWO_64
  {
    if i == 10 {
      assert Pow128(2) == 128 * Pow128(1) == 16384;
      assert Pow128(4) == 128 * Pow128(3) == 268435456;
      assert Pow128(6) == 128 * Pow128(5) == 4398046511104;
      assert Pow128(8) == 128 * Pow128(7) == 72057594037927936;
      assert Pow128(10) == 128 * Pow128(9);
    } else {
      PowLimit(i - 1);
    }
  }

  lemma PowNine()
    ensures 2 * Pow128(9) == TWO_64
  {
    assert Pow128(2) == 128 * Pow128(1) == 16384;
    assert Pow128(4) == 128 * Pow128(3) == 268435456;
    assert Pow128(6) == 128 * Pow128(5) == 4398046511104;
    assert Pow128(8) == 128 * Pow128(7) == 72057594037927936;
  }

  /** A written varint reads back, whatever follows it. */
  lemma {:induction false} UvarintRoundTrip(v: nat, i: nat, rest: bytes)
    requires v * Pow128(i) < TWO_64 && (i > 0 ==> v > 0)
    ensures ReadUvarint(Uvarint(v) + rest, i) == Some((v, |Uvarint(v)|))
    decreases v
  {
    if i >= 10 {
      PowLimit(i);
      Scaled(1, v, Pow128(i));
      assert false;
    }
    var b := Uvarint(v) + rest;
    if v < 128 {
      if i == 9 && v > 1 {
        PowNine();
        Scaled(2, v, Pow128(9));
        assert false;
      }
    } else {
      Shifted(v, Pow128(i));
      UvarintRoundTrip(v / 128, i + 1, rest);
      assert b[1..] == Uvarint(v / 128) + rest;
    }
  }

  /** The bytes of a varint: seven bits each, the least first, every one but the last marked, and no
      more of them than the value needs. */
  lemma {:induction false} UvarintDigits(v: nat, i: nat)
    requires i < |Uvarint(v)|
    ensures Uvarint(v)[i] % 128 == v / Pow128(i) % 128
    ensures Uvarint(v)[i] >= 128 <==> i < |Uvarint(v)| - 1
    ensures |Uvarint(v)| == 1 || v >= Pow128(|Uvarint(v)| - 1)
    decreases v
  {
    if v >= 128 {
      var rest := Uvarint(v / 128);
      UvarintDigits(v / 128, if i > 0 then i - 1 else 0);
      if i > 0 {
        QuotientTwice(v, 128, Pow128(i - 1));
      } else {
        assert Pow128(0) == 1;
      }
      LongEnough(v, |rest|);
    } else {
      assert Pow128(0) == 1;
    }
  }

  lemma LongEnough(v: nat, n: nat)
    requires v >= 128 && n >= 1 && (n == 1 || v / 128 >= Pow128(n - 1))
    ensures v >= Pow128(n)
  {
    assert Pow128(0) == 1 && Pow128(n) == 128 * Pow128(n - 1);
  }

  lemma UvarintReads(v: nat, rest: bytes)
    requires v < TWO_64
    ensures ReadUvarint(Uvarint(v) + rest, 0) == Some((v, |Uvarint(v)|))
  {
    assert v * Pow128(0) == v;
    UvarintRoundTrip(v, 0, rest);
  }

  /** The encoded length, counted without encoding. */
  method UvarintLen(v: nat) returns (n: nat)
    ensures n == |Uvarint(v)|
  {
    n := 1;
    var rest := v;
    while rest >= 0x80
      invariant n + |Uvarint(rest)| == |Uvarint(v)| + 1
    {
      rest := rest / 128;
      n := n + 1;
    }
  }

  // ----- one entry -----

  datatype Item = Item(term: bytes, headOff: nat, headSize: nat)

  /** The length of the longest common prefix. */
  function Shared(a: bytes, b: bytes): (n: nat)
    ensures n <= |a| && n <= |b|
  {
    if a == [] || b == [] || a[0] != b[0] then 0 else 1 + Shared(a[1..], b[1..])
  }

  lemma {:induction false} SharedIs(a: bytes, b: bytes, n: nat)
    requires n <= |a| && n <= |b| && a[..n] == b[..n] && (n < |a| && n < |b| ==> a[n] != b[n])
    ensures Shared(a, b) == n
    decreases n
  {
    if n > 0 {
      assert a[0] == a[..n][0] == b[..n][0] == b[0];
      assert a[1..][..n - 1] == a[..n][1..] == b[1..][..n - 1];
      SharedIs(a[1..], b[1..], n - 1);
    }
  }

  lemma {:induction false} SharedAgrees(a: bytes, b: bytes)
    ensures a[..Shared(a, b)] == b[..Shared(a, b)]
  {
    var n := Shared(a, b);
    if n > 0 {
      SharedAgrees(a[1..], b[1..]);
      assert a[..n] == [a[0]] + a[1..][..n - 1] && b[..n] == [b[0]] + b[1..][..n - 1];
    }
  }

  method CommonPrefixLen(a: bytes, b: bytes) returns (i: nat)
    ensures i == Shared(a, b)
    ensures i <= |a| && i <= |b| && a[..i] == b[..i] && (i < |a| && i < |b| ==> a[i] != b[i])
  {
    var n := if |a| < |b| then |a| else |b|;
    i := 0;
    while i < n && a[i] == b[i]
      invariant i <= n && a[..i] == b[..i]
    {
      i := i + 1;
    }
    SharedIs(a, b, i);
  }

  /** The entry before the next one in its block; a block starts from the empty term and offset zero. */
  datatype Prev = Prev(term: bytes, headOff: nat)

  const START := Prev([], 0)

  function Delta(prev: Prev, it: Item): nat {
    (it.headOff - prev.headOff) % TWO_64
  }

  /** An entry in front of `prev`'s: shared length, suffix length, suffix, offset delta, size. */
  function Encoded(prev: Prev, it: Item): bytes {
    var shared := Shared(prev.term, it.term);
    Uvarint(shared) + Uvarint(|it.term| - shared) + it.term[shared..] + Uvarint(Delta(prev, it)) + Uvarint(it.headSize)
  }

  function PrevOf(it: Item): Prev {
    Prev(it.term, it.headOff)
  }

  function EncodedAll(prev: Prev, items: seq<Item>): bytes
    decreases |items|
  {
    if items == [] then [] else Encoded(prev, items[0]) + EncodedAll(PrevOf(items[0]), items[1..])
  }

  /** The bytes of a block of these entries. */
  function BlockOf(items: seq<Item>): bytes {
    EncodedAll(START, items)
  }

  function LastPrev(prev: Prev, items: seq<Item>): Prev {
    if items == [] then prev else PrevOf(items[|items| - 1])
  }

  lemma {:induction false} EncodedAppend(prev: Prev, items: seq<Item>, it: Item)
    ensures EncodedAll(prev, items + [it]) == EncodedAll(prev, items) + Encoded(LastPrev(prev, items), it)
    decreases |items|
  {
    if items == [] {
      assert items + [it] == [it];
    } else {
      hide Encoded;
      EncodedAppend(PrevOf(items[0]), items[1..], it);
      assert (items + [it])[1..] == items[1..] + [it];
      Assoc(Encoded(prev, items[0]), EncodedAll(PrevOf(items[0]), items[1..]), Encoded(LastPrev(prev, items), it));
    }
  }

  // ----- decoding -----

  datatype Two = Two(first: nat, second: nat, n: nat)

  /** Two varints, and how many bytes they took. */
  function ReadTwo(b: bytes): (r: Option<Two>)
    ensures r.Some? ==> 2 <= r.value.n <= |b|
  {
    match ReadUvarint(b, 0) case None => None case Some((x, n)) =>
    match ReadUvarint(b[n..], 0) case None => None case Some((y, m)) => Some(Two(x, y, n + m))
  }

  /** One entry and how many bytes it took. */
  function ParseItem(b: bytes, prev: Prev): (r: Option<(Item, nat)>)
    ensures r.Some? ==> 1 <= r.value.1 <= |b|
  {
    match ReadTwo(b) case None => None case Some(Two(shared, suffixLen, at)) =>
      var end := at + suffixLen;
      if shared > |prev.term| || end > |b| then None
      else
        match ReadTwo(b[end..]) case None => None case Some(Two(delta, headSize, n)) =>
          Some((Item(prev.term[..shared] + b[at..end], (prev.headOff + delta) % TWO_64, headSize), end + n))
  }

  /** The entries of a block, or nothing when it does not parse to its end. */
  function DecodeFrom(b: bytes, prev: Prev): Option<seq<Item>>
    decreases |b|
  {
    if b == [] then Some([])
    else match ParseItem(b, prev)
      case None => None
      case Some((it, n)) =>
        match DecodeFrom(b[n..], PrevOf(it))
        case None => None
        case Some(rest) => Some([it] + rest)
  }

  ghost predicate Fits(it: Item) {
    |it.term| < TWO_64 && it.headOff < TWO_64 && it.headSize < TWO_64
  }

  ghost predicate AllFit(items: seq<Item>) {
    forall i :: 0 <= i < |items| ==> Fits(items[i])
  }

  lemma DropFirst(a: bytes, b: bytes)
    ensures (a + b)[|a|..] == b && (a + b)[..|a|] == a
  {
  }

  lemma DropMore(b: bytes, i: nat, j: nat)
    requires i + j <= |b|
    ensures b[i..][j..] == b[i + j..]
  {
  }

  lemma DeltaRestores(prev: Prev, it: Item)
    requires it.headOff < TWO_64
    ensures (prev.headOff + Delta(prev, it)) % TWO_64 == it.headOff
  {
  }

  lemma TwoWritten(x: nat, y: nat, rest: bytes)
    requires x < TWO_64 && y < TWO_64
    ensures ReadTwo(Uvarint(x) + (Uvarint(y) + rest)) == Some(Two(x, y, |Uvarint(x)| + |Uvarint(y)|))
    ensures (Uvarint(x) + (Uvarint(y) + rest))[|Uvarint(x)| + |Uvarint(y)|..] == rest
  {
    hide Uvarint, ReadUvarint;
    var b := Uvarint(x) + (Uvarint(y) + rest);
    UvarintReads(x, Uvarint(y) + rest);
    UvarintReads(y, rest);
    DropFirst(Uvarint(x), Uvarint(y) + rest);
    DropFirst(Uvarint(y), rest);
    DropMore(b, |Uvarint(x)|, |Uvarint(y)|);
  }

  /** The parts of an encoded entry, nested as the decoder takes them. */
  lemma EncodedParts(prev: Prev, it: Item, rest: bytes)
    ensures var shared := Shared(prev.term, it.term);
            Encoded(prev, it) + rest
            == Uvarint(shared) + (Uvarint(|it.term| - shared)
                                  + (it.term[shared..] + (Uvarint(Delta(prev, it)) + (Uvarint(it.headSize) + rest))))
  {
    hide Uvarint, Delta, Shared;
  }

  lemma SuffixAt(b: bytes, n: nat, suffix: bytes, rest: bytes)
    requires n <= |b| && b[n..] == suffix + rest
    ensures n + |suffix| <= |b| && b[n..n + |suffix|] == suffix && b[n + |suffix|..] == rest
  {
    DropFirst(suffix, rest);
    DropMore(b, n, |suffix|);
    assert b[n..n + |suffix|] == b[n..][..|suffix|];
  }

  /** Two varints and what follows them. */
  function TwoThen(x: nat, y: nat, rest: bytes): bytes {
    Uvarint(x) + (Uvarint(y) + rest)
  }

  lemma TwoThenReads(x: nat, y: nat, rest: bytes)
    requires x < TWO_64 && y < TWO_64
    ensures var b, n := TwoThen(x, y, rest), |Uvarint(x)| + |Uvarint(y)|;
            ReadTwo(b) == Some(Two(x, y, n)) && n <= |b| && b[n..] == rest
  {
    hide Uvarint, ReadTwo;
    TwoWritten(x, y, rest);
  }

  lemma ParseParts(prev: Prev, shared: nat, suffix: bytes, mid: bytes, delta: nat, size: nat, rest: bytes)
    requires mid == suffix + TwoThen(delta, size, rest)
    requires shared <= |prev.term| && shared < TWO_64 && |suffix| < TWO_64 && delta < TWO_64 && size < TWO_64
    ensures var at, n := |Uvarint(shared)| + |Uvarint(|suffix|)|, |Uvarint(delta)| + |Uvarint(size)|;
            ParseItem(TwoThen(shared, |suffix|, mid), prev)
            == Some((Item(prev.term[..shared] + suffix, (prev.headOff + delta) % TWO_64, size), at + |suffix| + n))
  {
    hide Uvarint, ReadTwo, ParseItem, TwoThen;
    var b := TwoThen(shared, |suffix|, mid);
    var at, n := |Uvarint(shared)| + |Uvarint(|suffix|)|, |Uvarint(delta)| + |Uvarint(size)|;
    TwoThenReads(shared, |suffix|, mid);
    TwoThenReads(delta, size, rest);
    SuffixAt(b, at, suffix, TwoThen(delta, size, rest));
    ItemOf(b, prev, shared, at, suffix, delta, size, n);
  }

  lemma ItemOf(b: bytes, prev: Prev, shared: nat, at: nat, suffix: bytes, delta: nat, size: nat, n: nat)
    requires ReadTwo(b) == Some(Two(shared, |suffix|, at)) && shared <= |prev.term| && at + |suffix| <= |b|
    requires b[at..at + |suffix|] == suffix && ReadTwo(b[at + |suffix|..]) == Some(Two(delta, size, n))
    ensures ParseItem(b, prev) == Some((Item(prev.term[..shared] + suffix, (prev.headOff + delta) % TWO_64, size),
                                        at + |suffix| + n))
  {
    hide ReadTwo;
  }

  lemma ParseEncoded(prev: Prev, it: Item, rest: bytes)
    requires Fits(it) && |prev.term| < TWO_64
    ensures ParseItem(Encoded(prev, it) + rest, prev) == Some((it, |Encoded(prev, it)|))
  {
    hide Uvarint, ParseItem, Encoded;
    var shared := Shared(prev.term, it.term);
    var suffix := it.term[shared..];
    EncodedParts(prev, it, rest);
    EncodedSize(prev, it);
    var mid := suffix + TwoThen(Delta(prev, it), it.headSize, rest);
    assert Encoded(prev, it) + rest == TwoThen(shared, |suffix|, mid);
    ParseParts(prev, shared, suffix, mid, Delta(prev, it), it.headSize, rest);
    SharedAgrees(prev.term, it.term);
    DeltaRestores(prev, it);
    assert it.term[..shared] + it.term[shared..] == it.term;
  }

  /** Front coding round-trips: decoding a block gives back exactly the entries encoded in it. */
  lemma {:induction false} BlockRoundTrip(prev: Prev, items: seq<Item>)
    requires AllFit(items) && |prev.term| < TWO_64
    ensures DecodeFrom(EncodedAll(prev, items), prev) == Some(items)
    decreases |items|
  {
    if items != [] {
      hide Encoded, ParseItem, DecodeFrom;
      var it, rest := items[0], EncodedAll(PrevOf(items[0]), items[1..]);
      assert Fits(it);
      ParseEncoded(prev, it, rest);
      BlockRoundTrip(PrevOf(it), items[1..]);
      DropFirst(Encoded(prev, it), rest);
      DecodeNext(Encoded(prev, it) + rest, prev, it, |Encoded(prev, it)|, items[1..]);
      assert items == [it] + items[1..];
    } else {
      DecodeNothing(prev);
    }
  }

  lemma DecodeNothing(prev: Prev)
    ensures DecodeFrom([], prev) == Some([])
  {
  }

  lemma DecodeNext(b: bytes, prev: Prev, it: Item, n: nat, more: seq<Item>)
    requires ParseItem(b, prev) == Some((it, n)) && DecodeFrom(b[n..], PrevOf(it)) == Some(more)
    ensures DecodeFrom(b, prev) == Some([it] + more)
  {
    hide ParseItem;
  }

  /** What follows already decoded entries. */
  function Then(items: seq<Item>, rest: Option<seq<Item>>): Option<seq<Item>> {
    match rest case None => None case Some(more) => Some(items + more)
  }

  lemma ThenNext(items: seq<Item>, it: Item, rest: Option<seq<Item>>)
    ensures Then([], rest) == rest
    ensures Then(items + [it], rest) == Then(items, Then([it], rest))
  {
    if rest.Some? {
      assert [] + rest.value == rest.value;
      assert items + [it] + rest.value == items + ([it] + rest.value);
    }
  }

  /** The decoder's loop. */
  method DecodeBlock(block: bytes) returns (r: Result<seq<Item>>)
    ensures r == match DecodeFrom(block, START) case None => Err(Truncated) case Some(items) => Ok(items)
  {
    hide ParseItem;
    var items: seq<Item> := [];
    var prev, pos: nat := START, 0;
    assert block[0..] == block;
    ThenNext([], Item([], 0, 0), DecodeFrom(block, START));
    while pos < |block|
      invariant pos <= |block|
      invariant DecodeFrom(block, START) == Then(items, DecodeFrom(block[pos..], prev))
    {
      var got := ParseItem(block[pos..], prev);
      if got.None? {
        return Err(Truncated);
      }
      var (it, n) := got.value;
      DropMore(block, pos, n);
      ThenNext(items, it, DecodeFrom(block[pos + n..], PrevOf(it)));
      items := items + [it];
      prev := PrevOf(it);
      pos := pos + n;
    }
    assert items + [] == items;
    r := Ok(items);
  }

  // ----- the block writer -----

  const DEFAULT_CAP := 4096

  datatype DictBlock = DictBlock(bs: bytes, off: nat, lastTerm: bytes)

  function BlockBytes(groups: seq<seq<Item>>): (parts: seq<bytes>)
    ensures |parts| == |groups| && forall i :: 0 <= i < |groups| ==> parts[i] == BlockOf(groups[i])
  {
    seq(|groups|, i requires 0 <= i < |groups| => BlockOf(groups[i]))
  }

  function Flatten(groups: seq<seq<Item>>): seq<Item> {
    if groups == [] then [] else Flatten(groups[..|groups| - 1]) + groups[|groups| - 1]
  }

  lemma FlattenAppend(groups: seq<seq<Item>>, g: seq<Item>)
    ensures Flatten(groups + [g]) == Flatten(groups) + g
  {
    assert (groups + [g])[..|groups|] == groups;
  }

  /** A block is within the cap unless it holds a single entry. */
  ghost predicate WithinCap(cap: nat, g: seq<Item>) {
    |g| > 1 ==> |BlockOf(g)| <= cap
  }

  /** The block could not have taken `next` as well. */
  ghost predicate Full(cap: nat, g: seq<Item>, next: Item) {
    g != [] && |BlockOf(g)| + |Encoded(LastPrev(START, g), next)| > cap
  }

  /** The emitted blocks: each the encoding of its group, placed after the one before, under
      its group's last term. */
  ghost predicate Emitted(cap: nat, groups: seq<seq<Item>>, blocks: seq<DictBlock>, dictLen: nat) {
    && |blocks| == |groups| && dictLen == |Join(BlockBytes(groups))|
    && (forall i :: 0 <= i < |groups| ==> groups[i] != [] && WithinCap(cap, groups[i]))
    && (forall i :: 0 <= i < |groups| ==>
         blocks[i] == DictBlock(BlockOf(groups[i]), Start(BlockBytes(groups), i), groups[i][|groups[i]| - 1].term))
    && (forall i :: 0 <= i < |groups| - 1 ==> Full(cap, groups[i], groups[i + 1][0]))
  }

  /** The block being written. */
  ghost predicate Writing(cap: nat, open: seq<Item>, cur: bytes, lastTerm: bytes, prevTerm: bytes, prevHeadOff: nat,
                          count: nat) {
    && cur == BlockOf(open) && count == |open| && WithinCap(cap, open)
    && Prev(prevTerm, prevHeadOff) == LastPrev(START, open)
    && (open != [] ==> lastTerm == open[|open| - 1].term)
  }

  lemma EmitStep(cap: nat, groups: seq<seq<Item>>, blocks: seq<DictBlock>, dictLen: nat, open: seq<Item>,
                 lastTerm: bytes)
    requires Emitted(cap, groups, blocks, dictLen) && open != [] && WithinCap(cap, open)
             && lastTerm == open[|open| - 1].term
    requires groups != [] ==> Full(cap, groups[|groups| - 1], open[0])
    ensures Emitted(cap, groups + [open], blocks + [DictBlock(BlockOf(open), dictLen, lastTerm)],
                    dictLen + |BlockOf(open)|)
  {
    hide Full, WithinCap, BlockOf, Join;
    var parts, more := BlockBytes(groups), BlockBytes(groups + [open]);
    assert more == parts + [BlockOf(open)];
    JoinAppend(parts, BlockOf(open));
    forall i | 0 <= i <= |parts| ensures more[..i] == parts[..i] {
    }
    assert parts[..|parts|] == parts;
  }

  lemma WriteStep(cap: nat, open: seq<Item>, cur: bytes, lastTerm: bytes, prevTerm: bytes, prevHeadOff: nat, count: nat,
                  it: Item)
    requires Writing(cap, open, cur, lastTerm, prevTerm, prevHeadOff, count)
    requires open == [] || |cur| + |Encoded(Prev(prevTerm, prevHeadOff), it)| <= cap
    ensures Writing(cap, open + [it], cur + Encoded(Prev(prevTerm, prevHeadOff), it), it.term, it.term, it.headOff,
                    count + 1)
  {
    hide Encoded;
    EncodedAppend(START, open, it);
  }

  class DictBlockWriter {
    const cap: nat
    var cur: bytes
    var lastTerm: bytes
    var prevTerm: bytes
    var prevHeadOff: nat
    var count: nat
    var blocks: seq<DictBlock>
    var dictLen: nat
    ghost var groups: seq<seq<Item>>
    ghost var open: seq<Item>

    ghost predicate Valid()
      reads this
    {
      && Emitted(cap, groups, blocks, dictLen)
      && Writing(cap, open, cur, lastTerm, prevTerm, prevHeadOff, count)
      && (groups != [] && open != [] ==> Full(cap, groups[|groups| - 1], open[0]))
    }

    /** Everything pushed so far. */
    ghost function Pushed(): seq<Item>
      reads this
    {
      Flatten(groups) + open
    }

    constructor (blockCap: nat)
      ensures Valid() && groups == [] && open == [] && cap == if blockCap == 0 then DEFAULT_CAP else blockCap
    {
      cap := if blockCap == 0 then DEFAULT_CAP else blockCap;
      cur, lastTerm, prevTerm, prevHeadOff, count, blocks, dictLen := [], [], [], 0, 0, [], 0;
      groups, open := [], [];
    }

    /** How many bytes the entry would add to the open block. */
    method EntryLen(it: Item) returns (n: nat)
      ensures n == |Encoded(Prev(prevTerm, prevHeadOff), it)|
    {
      hide Uvarint;
      var shared := CommonPrefixLen(prevTerm, it.term);
      var n1 := UvarintLen(shared);
      var n2 := UvarintLen(|it.term| - shared);
      var n3 := UvarintLen((it.headOff - prevHeadOff) % TWO_64);
      var n4 := UvarintLen(it.headSize);
      EncodedSize(Prev(prevTerm, prevHeadOff), it);
      n := n1 + n2 + (|it.term| - shared) + n3 + n4;
    }

    /** The bytes of the entry: whole when it opens a block, else against the one before it. */
    method EntryBytes(it: Item) returns (b: bytes)
      requires Fits(it) && (count == 0 ==> Prev(prevTerm, prevHeadOff) == START)
      ensures b == Encoded(Prev(prevTerm, prevHeadOff), it)
    {
      hide Uvarint;
      FirstEntry(it);
      var shared := 0;
      if count > 0 {
        shared := CommonPrefixLen(prevTerm, it.term);
      }
      var headOffD := if count == 0 then it.headOff else (it.headOff - prevHeadOff) % TWO_64;
      b := Uvarint(shared) + Uvarint(|it.term| - shared) + it.term[shared..] + Uvarint(headOffD) + Uvarint(it.headSize);
    }

    /** Adds an entry, in sorted order, sealing the block first when it would pass the cap.
        Nothing is pushed once the writer is finished. */
    method Push(it: Item)
      requires Valid() && Fits(it) && (groups != [] ==> open != [])
      modifies this
      ensures Valid() && Pushed() == old(Pushed()) + [it] && open != []
    {
      hide Emitted, Writing, Full, Encoded, Flatten;
      WritingMeans(cap, open, cur, lastTerm, prevTerm, prevHeadOff, count);
      if count > 0 {
        FullMeans(cap, open, it, cur, lastTerm, prevTerm, prevHeadOff, count);
        var entryLen := EntryLen(it);
        if |cur| + entryLen > cap {
          Flush();
        }
      }
      Append(it);
    }

    method Append(it: Item)
      requires Valid() && Fits(it)
      requires groups != [] && open == [] ==> Full(cap, groups[|groups| - 1], it)
      requires open != [] ==> !Full(cap, open, it)
      modifies this
      ensures Valid() && Flatten(groups) == old(Flatten(groups)) && open == old(open) + [it]
    {
      hide Emitted, Writing, Full, Encoded, Flatten;
      WritingMeans(cap, open, cur, lastTerm, prevTerm, prevHeadOff, count);
      if count > 0 {
        FullMeans(cap, open, it, cur, lastTerm, prevTerm, prevHeadOff, count);
      }
      var b := EntryBytes(it);
      WriteStep(cap, open, cur, lastTerm, prevTerm, prevHeadOff, count, it);
      cur := cur + b;
      lastTerm, prevTerm, prevHeadOff, count := it.term, it.term, it.headOff, count + 1;
      open := open + [it];
    }

    /** Seals the open block, if it holds entries. */
    method Flush()
      requires Valid()
      modifies this
      ensures Valid() && Flatten(groups) == old(Pushed()) && open == []
      ensures groups == if old(open) == [] then old(groups) else old(groups) + [old(open)]
    {
      hide Emitted, Full, Flatten, Encoded;
      if count == 0 {
        return;
      }
      EmitStep(cap, groups, blocks, dictLen, open, lastTerm);
      FlattenAppend(groups, open);
      blocks := blocks + [DictBlock(cur, dictLen, lastTerm)];
      dictLen := dictLen + |cur|;
      cur, lastTerm, count, prevTerm, prevHeadOff := [], [], 0, [], 0;
      groups, open := groups + [open], [];
    }

    /** The blocks of everything pushed. */
    method Finish() returns (out: seq<DictBlock>)
      requires Valid()
      modifies this
      ensures Valid() && out == blocks && open == [] && Flatten(groups) == old(Pushed())
    {
      Flush();
      out := blocks;
    }
  }

  lemma EncodedSize(prev: Prev, it: Item)
    ensures |Encoded(prev, it)|
            == |Uvarint(Shared(prev.term, it.term))| + |Uvarint(|it.term| - Shared(prev.term, it.term))|
               + (|it.term| - Shared(prev.term, it.term)) + |Uvarint(Delta(prev, it))| + |Uvarint(it.headSize)|
  {
  }

  lemma FirstEntry(it: Item)
    requires it.headOff < TWO_64
    ensures Shared(START.term, it.term) == 0 && Delta(START, it) == it.headOff
  {
  }

  lemma FullMeans(cap: nat, open: seq<Item>, it: Item, cur: bytes, lastTerm: bytes, prevTerm: bytes, prevHeadOff: nat,
                  count: nat)
    requires Writing(cap, open, cur, lastTerm, prevTerm, prevHeadOff, count) && count > 0
    ensures open != [] && (Full(cap, open, it) <==> |cur| + |Encoded(Prev(prevTerm, prevHeadOff), it)| > cap)
  {
  }

  lemma WritingMeans(cap: nat, open: seq<Item>, cur: bytes, lastTerm: bytes, prevTerm: bytes, prevHeadOff: nat,
                     count: nat)
    requires Writing(cap, open, cur, lastTerm, prevTerm, prevHeadOff, count)
    ensures count == |open| && (open == [] ==> Prev(prevTerm, prevHeadOff) == START)
  {
  }
}
