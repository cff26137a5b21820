/** Reading a range-fetched index (reader.go): opening it, finding a key with one dictionary
    block, and the batched lookup that reads each block once. */
module RangeReader {
  import opened Wrappers
  import opened Bytes
  import opened RangeIndex

  /** An open index: the header and the sparse keys; the rest stays in `file`. */
  datatype Reader = Reader(file: bytes, gram: nat, fold: bool, n: nat, stride: nat, dictStart: nat, sparse: seq<nat>)

  datatype Rec = Rec(key: nat, offset: nat, size: nat)

  // ----- opening -----

  function SparseKeys(b: bytes, off: nat, count: nat): (ks: seq<nat>)
    requires off + 8 * count <= |b|
    ensures |ks| == count && forall i :: 0 <= i < count ==> ks[i] == Field(b, off + 8 * i, 8)
  {
    seq(count, i requires 0 <= i < count => Field(b, off + 8 * i, 8))
  }

  /** The version's header size and case mode, or nothing for an unknown version or a file cut short. */
  function HeaderKind(file: bytes, version: nat): Result<(nat, bool)> {
    if version == VERSION_FOLDED then Ok((16, true))
    else if version == VERSION_CASED then
      match ReadAt(file, 16, 2)
      case None => Err(Truncated)
      case Some(flags) => Ok((18, Field(flags, 0, 2) % 2 == 0))
    else Err(BadVersion)
  }

  function Open(file: bytes): Result<Reader> {
    if |file| < 16 then Err(Truncated)
    else if Field(file, 0, 4) != MAGIC then Err(BadMagic)
    else match HeaderKind(file, Field(file, 4, 2))
      case Err(e) => Err(e)
      case Ok((hdr, fold)) =>
        var n, stride := Field(file, 8, 4), Field(file, 12, 4);
        if stride == 0 then Err(Truncated)
        else
          var count := SparseCount(n, stride);
          if 8 * count > MAX_READ || hdr + 8 * count > |file| then Err(Truncated)
          else Ok(Reader(file, Field(file, 6, 2), fold, n, stride, hdr + 8 * count, SparseKeys(file, hdr, count)))
  }

  /** The loop that parses the sparse keys. */
  method ParseSparse(b: bytes, off: nat, count: nat) returns (ks: seq<nat>)
    requires off + 8 * count <= |b|
    ensures ks == SparseKeys(b, off, count)
  {
    ks := [];
    for i := 0 to count
      invariant |ks| == i && forall k :: 0 <= k < i ==> ks[k] == Field(b, off + 8 * k, 8)
    {
      ks := ks + [Field(b, off + 8 * i, 8)];
    }
  }

  // ----- one key -----

  /** The library binary search: probes the middle of [lo, hi). */
  function Search(lo: nat, hi: nat, p: nat -> bool): (i: nat)
    requires lo <= hi
    ensures lo <= i <= hi
    decreases hi - lo
  {
    if lo == hi then lo
    else
      var mid := (lo + hi) / 2;
      if p(mid) then Search(lo, mid, p) else Search(mid + 1, hi, p)
  }

  ghost predicate Monotone(p: nat -> bool, n: nat) {
    forall i: nat, j: nat :: i <= j < n && p(i) ==> p(j)
  }

  /** On a monotone predicate the search stops at the first place it holds. */
  lemma {:induction false} SearchFindsFirst(lo: nat, hi: nat, n: nat, p: nat -> bool)
    requires lo <= hi <= n && Monotone(p, n)
    ensures var i := Search(lo, hi, p);
            && (forall k: nat :: lo <= k < i ==> !p(k)) && (i < hi ==> p(i))
    decreases hi - lo
  {
    if lo < hi {
      var mid := (lo + hi) / 2;
      if p(mid) {
        SearchFindsFirst(lo, mid, n, p);
      } else {
        SearchFindsFirst(mid + 1, hi, n, p);
      }
    }
  }

  function KeyAbove(keys: seq<nat>, key: nat): nat -> bool {
    (i: nat) => i < |keys| && keys[i] > key
  }

  /** The block that could hold `key`, or -1 when `key` is below every key. */
  function DictBlockFor(r: Reader, key: nat): (b: int)
    ensures -1 <= b < |r.sparse|
  {
    Search(0, |r.sparse|, KeyAbove(r.sparse, key)) - 1
  }

  datatype Block = Block(bs: bytes, len: nat)

  function BlockLen(r: Reader, b: nat): int {
    if b * r.stride + r.stride > r.n then r.n - b * r.stride else r.stride
  }

  function ReadDictBlock(r: Reader, b: nat): (res: Result<Block>)
    ensures res.Ok? ==> |res.value.bs| == DICT_ENTRY * res.value.len
    ensures res.Err? ==> res.error == Truncated
  {
    var len := BlockLen(r, b);
    if len <= 0 || DICT_ENTRY * len > MAX_READ then Err(Truncated)
    else match ReadAt(r.file, r.dictStart + DICT_ENTRY * (b * r.stride), DICT_ENTRY * len)
      case None => Err(Truncated)
      case Some(bs) => Ok(Block(bs, len))
  }

  function BlockKey(bs: bytes, i: nat): nat {
    if DICT_ENTRY * i + DICT_ENTRY <= |bs| then Field(bs, DICT_ENTRY * i, 8) else 0
  }

  function KeyReached(bs: bytes, key: nat): nat -> bool {
    (i: nat) => BlockKey(bs, i) >= key
  }

  function FindInBlock(blk: Block, key: nat): Option<Rec>
    requires |blk.bs| == DICT_ENTRY * blk.len
  {
    var i := Search(0, blk.len, KeyReached(blk.bs, key));
    if i >= blk.len || BlockKey(blk.bs, i) != key then None
    else Some(Rec(key, Field(blk.bs, DICT_ENTRY * i + 8, 8), Field(blk.bs, DICT_ENTRY * i + 16, 4)))
  }

  function Lookup(r: Reader, key: nat): (res: Result<Option<Rec>>)
    ensures res.Err? ==> res.error == Truncated
  {
    if r.n == 0 then Ok(None)
    else
      var b := DictBlockFor(r, key);
      if b < 0 then Ok(None)
      else match ReadDictBlock(r, b)
        case Err(e) => Err(e)
        case Ok(blk) => Ok(FindInBlock(blk, key))
  }

  function ReadPosting(r: Reader, rec: Rec): Result<bytes> {
    if rec.size > MAX_READ then Err(Truncated)
    else match ReadAt(r.file, rec.offset, rec.size)
      case None => Err(Truncated)
      case Some(bs) => Ok(bs)
  }

  function Posting(r: Reader, key: nat): Result<Option<bytes>> {
    match Lookup(r, key)
    case Err(e) => Err(e)
    case Ok(None) => Ok(None)
    case Ok(Some(rec)) =>
      match ReadPosting(r, rec)
      case Err(e) => Err(e)
      case Ok(bs) => Ok(Some(bs))
  }

  // ----- a written index -----

  /** `r` is what opening the file of `es` gives. */
  ghost predicate Opens(r: Reader, gram: nat, stride: nat, es: seq<Entry>, fold: bool) {
    && stride > 0 && LaidOut(r.file, gram, stride, es, fold) && KeySorted(es)
    && r.n == |es| && r.stride == stride && r.dictStart == DictStart(|es|, stride, fold)
    && r.gram == gram && r.fold == fold
    && |r.sparse| == SparseCount(|es|, stride)
    && (forall i :: 0 <= i < |r.sparse| ==> r.sparse[i] == KeyAt(es, i * stride))
  }

  lemma OpensHeader(file: bytes, gram: nat, stride: nat, es: seq<Entry>, fold: bool)
    requires HeaderAt(file, gram, stride, |es|, fold) && stride > 0 && |file| >= DictStart(|es|, stride, fold)
    ensures var count := SparseCount(|es|, stride);
            Open(file) == if 8 * count > MAX_READ then Err(Truncated)
                          else Ok(Reader(file, gram, fold, |es|, stride, DictStart(|es|, stride, fold),
                                         SparseKeys(file, HeaderSize(fold), count)))
  {
    hide SparseCount;
    if !fold {
      assert file[16..18][0..2] == file[16..18];
    }
  }

  lemma OpensLaidOut(file: bytes, gram: nat, stride: nat, es: seq<Entry>, fold: bool)
    requires stride > 0 && KeySorted(es) && LaidOut(file, gram, stride, es, fold)
    ensures var o := Open(file);
            && (o.Ok? <==> 8 * SparseCount(|es|, stride) <= MAX_READ)
            && (o.Ok? ==> o.value.file == file && Opens(o.value, gram, stride, es, fold))
  {
    hide SparseCount, Open, HeaderAt, KeySorted, RowAt;
    OpensHeader(file, gram, stride, es, fold);
    if Open(file).Ok? {
      var keys := Open(file).value.sparse;
      forall i: nat | i < |keys| ensures keys[i] == KeyAt(es, i * stride) {
        assert SparseAt(file, stride, es, fold, i);
      }
    }
  }

  /** Opening a written file gives its reader, unless the sparse index exceeds one read. */
  lemma OpensWritten(gram: nat, stride: nat, m: Index, fold: bool)
    requires Fits(gram, stride, m, fold)
    ensures var o := Open(FileOf(gram, stride, EntriesOf(m), fold));
            && (o.Ok? <==> 8 * SparseCount(|m|, stride) <= MAX_READ)
            && (o.Ok? ==>
                 o.value.file == FileOf(gram, stride, EntriesOf(m), fold)
                 && Opens(o.value, gram, stride, EntriesOf(m), fold))
  {
    hide FileOf, EntriesOf, LaidOut, Open, KeySorted;
    WrittenLaidOut(gram, stride, m, fold);
    EntriesDescribe(m);
    OpensLaidOut(FileOf(gram, stride, EntriesOf(m), fold), gram, stride, EntriesOf(m), fold);
  }

  lemma BlockWithin(n: nat, stride: nat, b: nat, len: int)
    requires stride > 0 && b < SparseCount(n, stride)
    requires len == if b * stride + stride > n then n - b * stride else stride
    ensures 0 < len <= stride && b * stride + len <= n
  {
    SparseCountMeans(n, stride, b);
  }

  /** The `i`-th slot of a block that starts at row `base` shows row `base + i`. */
  ghost predicate Shows(bs: bytes, i: nat, stride: nat, es: seq<Entry>, fold: bool, base: nat) {
    var p := base + i;
    && p < |es| && DICT_ENTRY * i + DICT_ENTRY <= |bs|
    && Field(bs, DICT_ENTRY * i, 8) == es[p].key
    && Field(bs, DICT_ENTRY * i + 8, 8) == PostingAt(stride, es, fold, p)
    && Field(bs, DICT_ENTRY * i + 16, 4) == |es[p].posting|
  }

  /** All the slots of a block show the entries from `base` on. */
  ghost predicate BlockShows(bs: bytes, len: nat, stride: nat, es: seq<Entry>, fold: bool, base: nat) {
    forall i: nat :: i < len ==> Shows(bs, i, stride, es, fold, base)
  }

  lemma SlotShows(file: bytes, stride: nat, es: seq<Entry>, fold: bool, base: nat, len: nat, i: nat)
    requires i < len && base + len <= |es| && RowAt(file, stride, es, fold, base + i)
    requires DictStart(|es|, stride, fold) + DICT_ENTRY * (base + len) <= |file|
    ensures var at := DictStart(|es|, stride, fold) + DICT_ENTRY * base;
            at + DICT_ENTRY * len <= |file| && Shows(file[at..at + DICT_ENTRY * len], i, stride, es, fold, base)
  {
    hide DictStart, PostingAt, Field;
    var at, size := DictStart(|es|, stride, fold) + DICT_ENTRY * base, DICT_ENTRY * len;
    SliceField(file, at, size, DICT_ENTRY * i, 8);
    SliceField(file, at, size, DICT_ENTRY * i + 8, 8);
    SliceField(file, at, size, DICT_ENTRY * i + 16, 4);
  }

  lemma SlotsShow(r: Reader, gram: nat, stride: nat, es: seq<Entry>, fold: bool, base: nat, len: nat)
    requires Opens(r, gram, stride, es, fold) && base + len <= |es|
    ensures r.dictStart + DICT_ENTRY * base + DICT_ENTRY * len <= |r.file|
    ensures var at := r.dictStart + DICT_ENTRY * base;
            var bs := r.file[at..at + DICT_ENTRY * len];
            BlockShows(bs, len, stride, es, fold, base)
  {
    hide SparseCount, HeaderAt, KeySorted, SparseAt, RowAt, Shows, PostingsOf, Join, DictStart;
    var at := r.dictStart + DICT_ENTRY * base;
    var bs := r.file[at..at + DICT_ENTRY * len];
    forall i: nat | i < len ensures Shows(bs, i, stride, es, fold, base) {
      assert RowAt(r.file, stride, es, fold, base + i);
      SlotShows(r.file, stride, es, fold, base, len, i);
    }
  }

  lemma BlockBounds(r: Reader, gram: nat, stride: nat, es: seq<Entry>, fold: bool, b: nat)
    requires Opens(r, gram, stride, es, fold) && b < |r.sparse|
    ensures r.stride == stride && 0 < BlockLen(r, b) <= stride && b * stride + BlockLen(r, b) <= |es|
  {
    hide SparseCount, LaidOut, KeySorted;
    BlockWithin(|es|, stride, b, BlockLen(r, b));
  }

  /** A block is read whole, unless it exceeds one read, and its slots show the entries from
      `b * stride` on. */
  lemma BlockRead(r: Reader, gram: nat, stride: nat, es: seq<Entry>, fold: bool, b: nat)
    requires Opens(r, gram, stride, es, fold) && b < |r.sparse|
    ensures 0 < BlockLen(r, b) <= stride && b * stride + BlockLen(r, b) <= |es|
    ensures ReadDictBlock(r, b).Ok? <==> DICT_ENTRY * BlockLen(r, b) <= MAX_READ
    ensures ReadDictBlock(r, b).Ok? ==>
              var blk := ReadDictBlock(r, b).value;
              && blk.len == BlockLen(r, b)
              && BlockShows(blk.bs, blk.len, stride, es, fold, b * stride)
  {
    hide Opens, BlockShows, BlockLen;
    BlockBounds(r, gram, stride, es, fold, b);
    var len, base := BlockLen(r, b), b * stride;
    SlotsShow(r, gram, stride, es, fold, base, len);
    var at := r.dictStart + DICT_ENTRY * base;
    assert ReadDictBlock(r, b).Ok? ==> ReadDictBlock(r, b).value == Block(r.file[at..at + DICT_ENTRY * len], len);
  }

  /** The block the sparse search names is the only one whose rows can hold `key`. */
  lemma BlockNamed(r: Reader, gram: nat, stride: nat, es: seq<Entry>, fold: bool, key: nat)
    requires Opens(r, gram, stride, es, fold)
    ensures var b := DictBlockFor(r, key);
            && (b >= 0 ==> r.sparse[b] <= key) && (b + 1 < |r.sparse| ==> r.sparse[b + 1] > key)
  {
    hide LaidOut, SparseCount, KeySorted;
    var p := KeyAbove(r.sparse, key);
    assert Monotone(p, |r.sparse|) by {
      forall i: nat, j: nat | i <= j < |r.sparse| && p(i) ensures p(j) {
        SparseGrows(r, gram, stride, es, fold, i, j);
      }
    }
    SearchFindsFirst(0, |r.sparse|, |r.sparse|, p);
    var b := DictBlockFor(r, key);
    if b >= 0 {
      assert !p(b);
    }
    if b + 1 < |r.sparse| {
      assert p(b + 1);
    }
  }

  lemma SparseGrows(r: Reader, gram: nat, stride: nat, es: seq<Entry>, fold: bool, i: nat, j: nat)
    requires Opens(r, gram, stride, es, fold) && i <= j < |r.sparse|
    ensures i * stride <= j * stride < |es| && r.sparse[i] == es[i * stride].key <= r.sparse[j] == es[j * stride].key
  {
    hide LaidOut, SparseCount;
    SparseCountMeans(|es|, stride, j);
    TimesMonotone(i, j, stride);
  }

  /** A present key lies in the named block. */
  lemma KeyInBlock(r: Reader, gram: nat, stride: nat, es: seq<Entry>, fold: bool, p: nat)
    requires Opens(r, gram, stride, es, fold) && p < |es|
    ensures var b := DictBlockFor(r, es[p].key); b >= 0 && b * stride <= p < b * stride + BlockLen(r, b)
  {
    hide LaidOut, SparseCount, DictBlockFor;
    var b := DictBlockFor(r, es[p].key);
    BlockNamed(r, gram, stride, es, fold, es[p].key);
    SparseCountMeans(|es|, stride, 0);
    if b < 0 {
      SparseGrows(r, gram, stride, es, fold, 0, 0);
      assert false;
    }
    SparseGrows(r, gram, stride, es, fold, b, b);
    TimesSucc(b, stride);
    if b + 1 < |r.sparse| {
      SparseGrows(r, gram, stride, es, fold, b + 1, b + 1);
    } else {
      SparseCountMeans(|es|, stride, b + 1);
    }
  }

  /** The keys the slots of a block show are those of rows `base` on. */
  ghost predicate ShowsKeys(blk: Block, es: seq<Entry>, base: nat) {
    && base + blk.len <= |es|
    && (forall i: nat :: i < blk.len ==> BlockKey(blk.bs, i) == es[base + i].key)
  }

  lemma SlotKeys(blk: Block, stride: nat, es: seq<Entry>, fold: bool, base: nat)
    requires base + blk.len <= |es|
    requires BlockShows(blk.bs, blk.len, stride, es, fold, base)
    ensures ShowsKeys(blk, es, base)
  {
    hide PostingAt, Field;
    forall i: nat | i < blk.len ensures BlockKey(blk.bs, i) == es[base + i].key {
      assert Shows(blk.bs, i, stride, es, fold, base);
    }
  }

  lemma SearchInBlock(blk: Block, es: seq<Entry>, base: nat, key: nat)
    requires KeySorted(es) && ShowsKeys(blk, es, base)
    ensures var i := Search(0, blk.len, KeyReached(blk.bs, key));
            && (forall q :: base <= q < base + i ==> es[q].key < key) && (i < blk.len ==> es[base + i].key >= key)
  {
    hide BlockKey;
    var p := KeyReached(blk.bs, key);
    assert Monotone(p, blk.len) by {
      forall i: nat, j: nat | i <= j < blk.len && p(i) ensures p(j) {
        assert BlockKey(blk.bs, j) == es[base + j].key >= es[base + i].key;
      }
    }
    SearchFindsFirst(0, blk.len, blk.len, p);
    var i := Search(0, blk.len, p);
    forall q | base <= q < base + i ensures es[q].key < key {
      assert !p(q - base) && BlockKey(blk.bs, q - base) == es[q].key;
    }
  }

  lemma NoSuchKey(es: seq<Entry>, base: nat, len: nat, i: nat, key: nat)
    requires KeySorted(es) && base + len <= |es| && i <= len
    requires forall q :: base <= q < base + i ==> es[q].key < key
    requires i < len ==> es[base + i].key > key
    ensures forall q :: base <= q < base + len ==> es[q].key != key
  {
    forall q | base <= q < base + len ensures es[q].key != key {
      if q > base + i {
        assert es[base + i].key < es[q].key;
      }
    }
  }

  /** The search inside a block finds exactly the keys its slots show. */
  lemma FoundInBlock(blk: Block, stride: nat, es: seq<Entry>, fold: bool, base: nat, key: nat)
    requires |blk.bs| == DICT_ENTRY * blk.len && KeySorted(es) && base + blk.len <= |es|
    requires BlockShows(blk.bs, blk.len, stride, es, fold, base)
    ensures match FindInBlock(blk, key)
            case None => forall p :: base <= p < base + blk.len ==> es[p].key != key
            case Some(rec) => exists p :: base <= p < base + blk.len && IsRec(rec, stride, es, fold, key, p)
  {
    hide PostingAt, Field, BlockKey, KeySorted, Search;
    SlotKeys(blk, stride, es, fold, base);
    SearchInBlock(blk, es, base, key);
    var i := Search(0, blk.len, KeyReached(blk.bs, key));
    if FindInBlock(blk, key).None? {
      NoSuchKey(es, base, blk.len, i, key);
    } else {
      assert Shows(blk.bs, i, stride, es, fold, base);
      assert IsRec(FindInBlock(blk, key).value, stride, es, fold, key, base + i);
    }
  }

  /** `rec` is the dictionary record of row `p`, whose key is `key`. */
  ghost predicate IsRec(rec: Rec, stride: nat, es: seq<Entry>, fold: bool, key: nat, p: nat) {
    && 0 <= p < |es| && es[p].key == key == rec.key
    && rec.offset == PostingAt(stride, es, fold, p) && rec.size == |es[p].posting|
  }

  /** Whether resolving `key` needs a block that exceeds one read. */
  ghost predicate BlockTooLarge(r: Reader, key: nat) {
    DictBlockFor(r, key) >= 0 && DICT_ENTRY * BlockLen(r, DictBlockFor(r, key)) > MAX_READ
  }

  lemma LookupInEntries(r: Reader, gram: nat, stride: nat, es: seq<Entry>, fold: bool, key: nat)
    requires Opens(r, gram, stride, es, fold)
    ensures Lookup(r, key).Ok? <==> !BlockTooLarge(r, key)
    ensures Lookup(r, key).Ok? ==> match Lookup(r, key).value
            case None => forall p :: 0 <= p < |es| ==> es[p].key != key
            case Some(rec) => exists p :: IsRec(rec, stride, es, fold, key, p)
  {
    hide LaidOut, KeySorted, DictBlockFor, ReadDictBlock, FindInBlock, BlockLen, Shows, IsRec, SparseCount;
    forall p: nat | p < |es| && es[p].key == key
      ensures var b := DictBlockFor(r, key); b >= 0 && b * stride <= p < b * stride + BlockLen(r, b)
    {
      KeyInBlock(r, gram, stride, es, fold, p);
    }
    var b := DictBlockFor(r, key);
    SparseCountMeans(|es|, stride, 0);
    if b >= 0 {
      BlockRead(r, gram, stride, es, fold, b);
      if ReadDictBlock(r, b).Ok? {
        var blk := ReadDictBlock(r, b).value;
        FoundInBlock(blk, stride, es, fold, b * stride, key);
      }
    }
  }

  /** `r` is a reader of the written file of `m`. */
  ghost predicate Reads(r: Reader, gram: nat, stride: nat, m: Index, fold: bool) {
    Fits(gram, stride, m, fold) && Open(FileOf(gram, stride, EntriesOf(m), fold)) == Ok(r)
  }

  lemma ReadsOpens(r: Reader, gram: nat, stride: nat, m: Index, fold: bool)
    requires Reads(r, gram, stride, m, fold)
    ensures Opens(r, gram, stride, EntriesOf(m), fold) && Describes(EntriesOf(m), m)
  {
    hide FileOf, EntriesOf, Opens, Open, Describes;
    OpensWritten(gram, stride, m, fold);
    EntriesDescribe(m);
  }

  lemma RecReads(r: Reader, gram: nat, stride: nat, es: seq<Entry>, fold: bool, rec: Rec, key: nat, p: nat)
    requires Opens(r, gram, stride, es, fold) && IsRec(rec, stride, es, fold, key, p)
    ensures ReadAt(r.file, rec.offset, rec.size) == Some(es[p].posting)
  {
    hide HeaderAt, SparseAt, SparseCount, KeySorted;
    assert RowAt(r.file, stride, es, fold, p);
  }

  /** Over the written file of any map, whatever the stride: a lookup finds a key exactly when
      the map has it, its record names exactly the bytes of the posting, and it fails exactly
      when the key's dictionary block exceeds one read. */
  lemma LookupAgrees(r: Reader, gram: nat, stride: nat, m: Index, fold: bool, key: nat)
    requires Reads(r, gram, stride, m, fold)
    ensures Lookup(r, key).Ok? <==> !BlockTooLarge(r, key)
    ensures Lookup(r, key).Ok? ==> (Lookup(r, key).value.Some? <==> key in m)
    ensures Lookup(r, key).Ok? && key in m ==>
              var rec := Lookup(r, key).value.value;
              rec.key == key && rec.size == |m[key]| && ReadAt(r.file, rec.offset, rec.size) == Some(m[key])
  {
    hide Reads, Opens, KeySorted, EntriesOf, Lookup, BlockTooLarge, PostingAt, ReadAt;
    var es := EntriesOf(m);
    ReadsOpens(r, gram, stride, m, fold);
    LookupInEntries(r, gram, stride, es, fold, key);
    if Lookup(r, key).Ok? && Lookup(r, key).value.Some? {
      var rec := Lookup(r, key).value.value;
      var p :| IsRec(rec, stride, es, fold, key, p);
      RecReads(r, gram, stride, es, fold, rec, key, p);
    }
  }

  /** A posting is read back exactly when neither its block nor itself exceeds one read. */
  lemma PostingAgrees(r: Reader, gram: nat, stride: nat, m: Index, fold: bool, key: nat)
    requires Reads(r, gram, stride, m, fold)
    ensures Posting(r, key) ==
              if BlockTooLarge(r, key) then Err(Truncated)
              else if key !in m then Ok(None)
              else if |m[key]| > MAX_READ then Err(Truncated)
              else Ok(Some(m[key]))
  {
    hide Reads, Lookup, BlockTooLarge, ReadAt;
    LookupAgrees(r, gram, stride, m, fold, key);
  }

  lemma BlockZero(r: Reader, gram: nat, stride: nat, es: seq<Entry>, fold: bool)
    requires Opens(r, gram, stride, es, fold) && es != []
    ensures BlockTooLarge(r, es[0].key) <==> DICT_ENTRY * (if stride < |es| then stride else |es|) > MAX_READ
  {
    hide LaidOut, KeySorted, DictBlockFor, SparseCount;
    KeyInBlock(r, gram, stride, es, fold, 0);
    var b := DictBlockFor(r, es[0].key);
    if b > 0 {
      TimesMonotone(1, b, stride);
      assert false;
    }
  }

  lemma NoBlockTooLarge(r: Reader, gram: nat, stride: nat, es: seq<Entry>, fold: bool, key: nat)
    requires Opens(r, gram, stride, es, fold)
    requires es == [] || DICT_ENTRY * (if stride < |es| then stride else |es|) <= MAX_READ
    ensures !BlockTooLarge(r, key)
  {
    hide LaidOut, KeySorted, DictBlockFor;
    var b := DictBlockFor(r, key);
    if b >= 0 {
      SparseCountMeans(|es|, stride, 0);
      BlockWithin(|es|, stride, b, BlockLen(r, b));
    }
  }

  /** Every key resolves, present or absent, exactly when a full block fits one read. */
  lemma EveryKeyResolves(r: Reader, gram: nat, stride: nat, m: Index, fold: bool)
    requires Reads(r, gram, stride, m, fold)
    ensures (forall key: nat :: Lookup(r, key).Ok?)
            <==> m == map[] || DICT_ENTRY * (if stride < |m| then stride else |m|) <= MAX_READ
  {
    hide FileOf, Open, Opens, Describes, EntriesOf, Lookup, BlockTooLarge;
    var es := EntriesOf(m);
    ReadsOpens(r, gram, stride, m, fold);
    EntriesDescribe(m);
    forall key: nat ensures Lookup(r, key).Ok? <==> !BlockTooLarge(r, key) {
      LookupAgrees(r, gram, stride, m, fold, key);
    }
    if es == [] || DICT_ENTRY * (if stride < |es| then stride else |es|) <= MAX_READ {
      forall key: nat ensures !BlockTooLarge(r, key) {
        NoBlockTooLarge(r, gram, stride, es, fold, key);
      }
    } else {
      BlockZero(r, gram, stride, es, fold);
      assert !Lookup(r, es[0].key).Ok?;
    }
  }

  // ----- many keys -----

  function KeySet(keys: seq<nat>): set<nat> {
    set k | k in keys
  }

  /** The distinct blocks the keys fall in. */
  ghost function Blocks(r: Reader, keys: seq<nat>): set<nat> {
    if r.n == 0 then {} else set k | k in keys && DictBlockFor(r, k) >= 0 :: DictBlockFor(r, k)
  }

  /** Each key that falls in a block is filed under it, and nothing else is. */
  ghost predicate Filed(r: Reader, keys: seq<nat>, byBlock: map<nat, seq<nat>>) {
    && (forall k :: k in keys && DictBlockFor(r, k) >= 0 ==>
        DictBlockFor(r, k) in byBlock && k in byBlock[DictBlockFor(r, k)])
    && (forall b :: b in byBlock ==> byBlock[b] != [])
    && (forall b, k :: b in byBlock && k in byBlock[b] ==> k in keys && DictBlockFor(r, k) == b)
  }

  lemma FiledStep(r: Reader, keys: seq<nat>, more: seq<nat>, k: nat, byBlock: map<nat, seq<nat>>,
                  after: map<nat, seq<nat>>)
    requires Filed(r, keys, byBlock) && forall x :: x in more <==> x in keys || x == k
    requires var b := DictBlockFor(r, k);
             after == if k in keys || b < 0 then byBlock else byBlock[b := (if b in byBlock then byBlock[b] else [])
                                                                      + [k]]
    ensures Filed(r, more, after)
  {
    hide DictBlockFor;
  }

  lemma FiledBlocks(r: Reader, keys: seq<nat>, byBlock: map<nat, seq<nat>>)
    requires r.n > 0 && Filed(r, keys, byBlock)
    ensures byBlock.Keys == Blocks(r, keys)
  {
    hide DictBlockFor;
    forall b | b in byBlock ensures b in Blocks(r, keys) {
      var k := byBlock[b][0];
      assert k in byBlock[b];
      assert k in keys && DictBlockFor(r, k) == b;
    }
  }

  method GroupByBlock(r: Reader, keys: seq<nat>) returns (byBlock: map<nat, seq<nat>>)
    ensures Filed(r, keys, byBlock)
  {
    hide DictBlockFor, Filed;
    byBlock := map[];
    assert Filed(r, [], map[]) by { EmptyFiled(r); }
    var seen: set<nat> := {};
    for i := 0 to |keys|
      invariant forall x :: x in seen <==> x in keys[..i]
      invariant Filed(r, keys[..i], byBlock)
    {
      var k := keys[i];
      ghost var before := byBlock;
      var b := DictBlockFor(r, k);
      assert forall x :: x in keys[..i + 1] <==> x in keys[..i] || x == k;
      if k !in seen && b >= 0 {
        byBlock := byBlock[b := (if b in byBlock then byBlock[b] else []) + [k]];
      }
      FiledStep(r, keys[..i], keys[..i + 1], k, before, byBlock);
      seen := seen + {k};
    }
    assert keys[..|keys|] == keys;
  }

  lemma EmptyFiled(r: Reader)
    ensures Filed(r, [], map[])
  {
  }

  /** `out` holds the record of each of `keys` that has one. */
  ghost predicate Resolved(r: Reader, keys: set<nat>, out: map<nat, Rec>) {
    && (forall k :: k in keys ==> Lookup(r, k).Ok?)
    && (forall k :: k in out <==> k in keys && Lookup(r, k).value.Some?)
    && (forall k :: k in out ==> Lookup(r, k) == Ok(Some(out[k])))
  }

  lemma ResolvedStep(r: Reader, keys: set<nat>, out: map<nat, Rec>, k: nat, blk: Block)
    requires Resolved(r, keys, out)
    requires DictBlockFor(r, k) >= 0 && r.n > 0 && ReadDictBlock(r, DictBlockFor(r, k)) == Ok(blk)
    ensures Resolved(r, keys + {k}, match FindInBlock(blk, k) case None => out case Some(rec) => out[k := rec])
  {
    hide DictBlockFor, ReadDictBlock, FindInBlock;
  }

  /** The keys whose block is in `blocks`. */
  ghost function KeysIn(byBlock: map<nat, seq<nat>>, blocks: set<nat>): set<nat> {
    set b, k | b in blocks && b in byBlock && k in byBlock[b] :: k
  }

  /** One read of block `b` resolves every key filed under it. */
  method ResolveBlock(r: Reader, ks: seq<nat>, b: nat, blk: Block, before: map<nat, Rec>, ghost keys: set<nat>)
    returns (out: map<nat, Rec>)
    requires Resolved(r, keys, before) && r.n > 0 && ReadDictBlock(r, b) == Ok(blk)
    requires forall k :: k in ks ==> DictBlockFor(r, k) == b
    ensures Resolved(r, keys + KeySet(ks), out)
  {
    hide DictBlockFor, ReadDictBlock, FindInBlock, Resolved;
    out := before;
    ghost var done := keys;
    for i := 0 to |ks|
      invariant done == keys + KeySet(ks[..i]) && Resolved(r, done, out)
    {
      ResolvedStep(r, done, out, ks[i], blk);
      match FindInBlock(blk, ks[i]) {
        case None =>
        case Some(rec) => out := out[ks[i] := rec];
      }
      done := done + {ks[i]};
      assert forall k :: k in ks[..i + 1] <==> k in ks[..i] || k == ks[i];
    }
    assert ks[..|ks|] == ks;
  }

  lemma KeysInStep(byBlock: map<nat, seq<nat>>, done: set<nat>, b: nat)
    requires b in byBlock
    ensures KeysIn(byBlock, done + {b}) == KeysIn(byBlock, done) + KeySet(byBlock[b])
  {
  }

  lemma ResolvedAll(r: Reader, keys: seq<nat>, byBlock: map<nat, seq<nat>>, out: map<nat, Rec>)
    requires Filed(r, keys, byBlock) && Resolved(r, KeysIn(byBlock, byBlock.Keys), out)
    ensures Resolved(r, KeySet(keys), out)
  {
    hide DictBlockFor, ReadDictBlock, FindInBlock;
    forall k | k in keys && k !in KeysIn(byBlock, byBlock.Keys) ensures Lookup(r, k) == Ok(None) {
    }
  }

  lemma BlockFails(r: Reader, keys: seq<nat>, byBlock: map<nat, seq<nat>>, b: nat)
    requires r.n > 0 && Filed(r, keys, byBlock) && b in byBlock && ReadDictBlock(r, b).Err?
    ensures exists k :: k in keys && Lookup(r, k).Err?
  {
    hide DictBlockFor, ReadDictBlock;
    var k := byBlock[b][0];
    assert k in byBlock[b] && Lookup(r, k).Err?;
  }

  /** Reads block `b` and resolves the keys filed under it. */
  method TakeBlock(r: Reader, keys: seq<nat>, byBlock: map<nat, seq<nat>>, b: nat, before: map<nat, Rec>,
                   ghost done: set<nat>)
    returns (res: Result<map<nat, Rec>>)
    requires r.n > 0 && Filed(r, keys, byBlock) && b in byBlock && Resolved(r, KeysIn(byBlock, done), before)
    ensures res.Ok? ==> Resolved(r, KeysIn(byBlock, done + {b}), res.value)
    ensures res.Err? ==> exists k :: k in keys && !Lookup(r, k).Ok?
  {
    hide DictBlockFor, ReadDictBlock, Lookup, Filed, KeysIn, Resolved;
    var blk := ReadDictBlock(r, b);
    if blk.Err? {
      BlockFails(r, keys, byBlock, b);
      return Err(blk.error);
    }
    FiledUnder(r, keys, byBlock, b);
    var out := ResolveBlock(r, byBlock[b], b, blk.value, before, KeysIn(byBlock, done));
    KeysInStep(byBlock, done, b);
    res := Ok(out);
  }

  /** Resolves many keys, each as `Lookup` resolves it alone, with one read for each distinct
      block; the blocks are taken in any order. */
  method LookupMany(r: Reader, keys: seq<nat>) returns (res: Result<map<nat, Rec>>, fetches: nat)
    ensures res.Ok? <==> forall k :: k in keys ==> Lookup(r, k).Ok?
    ensures res.Ok? ==> Resolved(r, KeySet(keys), res.value) && fetches == |Blocks(r, keys)|
  {
    hide DictBlockFor, Lookup, Filed, Blocks, KeysIn, Resolved;
    if r.n == 0 || keys == [] {
      NothingToResolve(r, keys);
      return Ok(map[]), 0;
    }
    var byBlock := GroupByBlock(r, keys);
    FiledBlocks(r, keys, byBlock);
    NothingResolved(r, byBlock);
    var out, todo := map[], byBlock.Keys;
    ghost var done: set<nat> := {};
    fetches := 0;
    while todo != {}
      invariant done + todo == byBlock.Keys && done !! todo
      invariant fetches == |done|
      invariant Resolved(r, KeysIn(byBlock, done), out)
      decreases todo
    {
      var b :| b in todo;
      var taken := TakeBlock(r, keys, byBlock, b, out, done);
      fetches := fetches + 1;
      if taken.Err? {
        return taken, fetches;
      }
      out := taken.value;
      todo := todo - {b};
      done := done + {b};
    }
    assert done == byBlock.Keys;
    ResolvedAll(r, keys, byBlock, out);
    ResolvedOk(r, keys, out);
    res := Ok(out);
  }

  lemma NothingToResolve(r: Reader, keys: seq<nat>)
    requires r.n == 0 || keys == []
    ensures Resolved(r, KeySet(keys), map[]) && Blocks(r, keys) == {} && forall k :: k in keys ==> Lookup(r, k).Ok?
  {
  }

  lemma NothingResolved(r: Reader, byBlock: map<nat, seq<nat>>)
    ensures Resolved(r, KeysIn(byBlock, {}), map[])
  {
    assert KeysIn(byBlock, {}) == {};
  }

  lemma ResolvedOk(r: Reader, keys: seq<nat>, out: map<nat, Rec>)
    requires Resolved(r, KeySet(keys), out)
    ensures forall k :: k in keys ==> Lookup(r, k).Ok?
  {
  }

  lemma FiledUnder(r: Reader, keys: seq<nat>, byBlock: map<nat, seq<nat>>, b: nat)
    requires Filed(r, keys, byBlock) && b in byBlock
    ensures forall k :: k in byBlock[b] ==> DictBlockFor(r, k) == b
  {
  }

  /** Reads the posting of every present key: it succeeds exactly when each key alone would,
      with the same bytes, and costs one read for each distinct block and each present key. */
  method Postings(r: Reader, keys: seq<nat>) returns (res: Result<map<nat, bytes>>, fetches: nat)
    ensures res.Ok? <==> forall k :: k in keys ==> Posting(r, k).Ok?
    ensures res.Ok? ==> forall k :: k in res.value <==> k in keys && Posting(r, k).value.Some?
    ensures res.Ok? ==> forall k :: k in res.value ==> Posting(r, k) == Ok(Some(res.value[k]))
    ensures res.Ok? ==> fetches == |Blocks(r, keys)| + |res.value|
  {
    hide Blocks, Lookup;
    var recs;
    recs, fetches := LookupMany(r, keys);
    if recs.Err? {
      var k :| k in keys && !Lookup(r, k).Ok?;
      assert Posting(r, k).Err?;
      return Err(recs.error), fetches;
    }
    var out, todo := map[], recs.value.Keys;
    while todo != {}
      invariant todo <= recs.value.Keys
      invariant forall k :: k in out <==> k in recs.value && k !in todo
      invariant forall k :: k in out ==> Posting(r, k) == Ok(Some(out[k]))
      invariant fetches == |Blocks(r, keys)| + |out|
      decreases todo
    {
      var k :| k in todo;
      var data := ReadPosting(r, recs.value[k]);
      if data.Err? {
        assert Posting(r, k).Err?;
        return Err(data.error), fetches;
      }
      out := out[k := data.value];
      fetches := fetches + 1;
      todo := todo - {k};
    }
    res := Ok(out);
  }
}
