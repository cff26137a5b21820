/** Partials on disk and the merge that streams them (rust/src/build.rs, module `chunk`). */
module ChunkMerge {
  import opened Wrappers
  import opened Bytes
  import opened Inverted
  import opened Splits
  import opened RangeIndex
  import opened PartialMerge
  import Sorting
  import Ordered

  // ----- the bytes of a partial -----

  function Record(e: Entry): bytes {
    LE(e.key, 8) + (LE(|e.posting|, 4) + e.posting)
  }

  function Stream(q: seq<Entry>): bytes {
    if q == [] then [] else Record(q[0]) + Stream(q[1..])
  }

  /** A partial: how many entries, then each. */
  function PartialOf(q: seq<Entry>): bytes {
    LE(|q|, 4) + Stream(q)
  }

  ghost predicate FitsFields(q: seq<Entry>) {
    |q| < TWO_32 && forall i :: 0 <= i < |q| ==> q[i].key < TWO_64 && |q[i].posting| < TWO_32
  }

  lemma {:induction false} StreamAppend(q: seq<Entry>, e: Entry)
    ensures Stream(q + [e]) == Stream(q) + Record(e)
    decreases |q|
  {
    if q == [] {
      assert [e][1..] == [] && q + [e] == [e];
    } else {
      hide Record;
      StreamAppend(q[1..], e);
      assert (q + [e])[1..] == q[1..] + [e];
      Assoc(Record(q[0]), Stream(q[1..]), Record(e));
    }
  }

  /** A posting whose length passes its 32-bit field. */
  ghost predicate TooLong(es: seq<Entry>) {
    exists i :: 0 <= i < |es| && |es[i].posting| >= TWO_32
  }

  /** Writes a chunk's entries in key order; refuses exactly when a posting is too long. */
  method WritePartial(entries: seq<Entry>) returns (r: Result<bytes>, ghost written: seq<Entry>)
    ensures r.Err? <==> TooLong(entries)
    ensures r.Ok? ==> r.value == PartialOf(written) && Sorted(written)
    ensures r.Ok? && DistinctKeys(entries) ==>
              r.value == PartialOf(EntriesOf(MapOf(entries))) && written == EntriesOf(MapOf(entries))
  {
    hide Stream, LE, MapOf, EntriesOf, Sorting.IsOrder, Sorted, DistinctKeys, Record, TooLong;
    var order := Sorting.SortIndices(Keys(entries));
    OrderInRange(entries, order);
    written := seq(|order|, i requires 0 <= i < |order| => entries[order[i]]);
    SortedWritten(entries, order, written);
    assert Stream([]) == [] by { StreamNone(); }
    var out: bytes := [];
    for i := 0 to |order|
      invariant out == Stream(written[..i])
      invariant forall j :: 0 <= j < i ==> |entries[order[j]].posting| < TWO_32
    {
      if |entries[order[i]].posting| >= TWO_32 {
        TooLongHere(entries, order[i]);
        return Err(TooLarge), written;
      }
      assert written[..i + 1] == written[..i] + [written[i]];
      StreamAppend(written[..i], written[i]);
      out := out + Record(entries[order[i]]);
    }
    assert written[..|order|] == written;
    AllVisited(entries, order);
    r := Ok(LE(|order|, 4) + out);
  }

  lemma TooLongHere(es: seq<Entry>, i: nat)
    requires i < |es| && |es[i].posting| >= TWO_32
    ensures TooLong(es)
  {
  }

  lemma AllVisited(entries: seq<Entry>, order: seq<nat>)
    requires Sorting.IsOrder(order, Keys(entries)) && |order| == |entries| && forall i :: 0 <= i < |order| ==>
               order[i] < |entries|
    requires forall j :: 0 <= j < |order| ==> |entries[order[j]].posting| < TWO_32
    ensures !TooLong(entries)
  {
    forall i | 0 <= i < |entries| ensures |entries[i].posting| < TWO_32 {
      assert i in order;
      var j :| 0 <= j < |order| && order[j] == i;
    }
  }

  lemma StreamNone()
    ensures Stream([]) == []
  {
  }

  lemma OrderInRange(entries: seq<Entry>, order: seq<nat>)
    requires Sorting.IsOrder(order, Keys(entries))
    ensures |order| == |entries| && forall i :: 0 <= i < |order| ==> order[i] < |entries|
  {
  }

  lemma SortedWritten(entries: seq<Entry>, order: seq<nat>, written: seq<Entry>)
    requires Rearranged(entries, order, written)
    ensures Sorted(written) && (DistinctKeys(entries) ==> written == EntriesOf(MapOf(entries)))
  {
    if DistinctKeys(entries) {
      forall i | 0 < i < |written| ensures written[i].key != written[i - 1].key {
        assert order[i] != order[i - 1];
      }
      SortedIsEntriesOf(entries, order, written);
    }
  }

  // ----- reading a partial back -----

  /** The rest of the file from `pos` is the stream of `q`. */
  ghost predicate Ahead(file: bytes, pos: nat, q: seq<Entry>) {
    pos <= |file| && file[pos..] == Stream(q) && FitsFields(q)
  }

  lemma StartOfPartial(q: seq<Entry>)
    requires FitsFields(q)
    ensures FieldsAt(PartialOf(q), 0, |q|, 4) && Ahead(PartialOf(q), 4, q)
  {
    var file := PartialOf(q);
    PowerLiterals();
    FieldRoundTrip(|q|, 4);
    assert file[0..4] == LE(|q|, 4) && file[4..] == Stream(q);
  }

  lemma WrittenField(file: bytes, pos: nat, v: nat, n: nat)
    requires pos + n <= |file| && file[pos..pos + n] == LE(v, n) && v < Power(n)
    ensures FieldsAt(file, pos, v, n)
  {
    FieldRoundTrip(v, n);
  }

  /** The next entry of the stream, field by field, and what follows it. */
  lemma NextAhead(file: bytes, pos: nat, q: seq<Entry>)
    requires Ahead(file, pos, q) && q != []
    ensures FieldsAt(file, pos, q[0].key, 8) && FieldsAt(file, pos + 8, |q[0].posting|, 4)
    ensures ReadAt(file, pos + 12, |q[0].posting|) == Some(q[0].posting)
    ensures Ahead(file, pos + 12 + |q[0].posting|, q[1..])
  {
    hide LE, Stream, Power, FieldsAt;
    var e := q[0];
    PowerLiterals();
    StreamHead(q);
    NextParts(file, pos, LE(e.key, 8), LE(|e.posting|, 4), e.posting, Stream(q[1..]));
    WrittenField(file, pos, e.key, 8);
    WrittenField(file, pos + 8, |e.posting|, 4);
  }

  lemma StreamHead(q: seq<Entry>)
    requires q != []
    ensures Stream(q) == (LE(q[0].key, 8) + (LE(|q[0].posting|, 4) + q[0].posting)) + Stream(q[1..])
  {
  }

  lemma NextParts(file: bytes, pos: nat, k: bytes, n: bytes, b: bytes, rest: bytes)
    requires pos <= |file| && file[pos..] == (k + (n + b)) + rest && |k| == 8 && |n| == 4
    ensures pos + 12 + |b| <= |file|
    ensures file[pos..pos + 8] == k && file[pos + 8..pos + 12] == n && file[pos + 12..pos + 12 + |b|] == b
    ensures file[pos + 12 + |b|..] == rest
  {
    var t := file[pos..];
    assert |t| == 12 + |b| + |rest|;
    assert t[0..8] == k && t[8..12] == n && t[12..12 + |b|] == b && t[12 + |b|..] == rest;
  }

  class PartialCursor {
    const file: bytes
    var pos: nat
    var remaining: nat
    var front: Option<Entry>
    ghost var rest: seq<Entry>

    /** `rest` is the front entry, if any, and what is still in the file. */
    ghost predicate Valid()
      reads this
    {
      && front == (if rest == [] then None else Some(rest[0]))
      && remaining == (if rest == [] then 0 else |rest| - 1)
      && Ahead(file, pos, if rest == [] then [] else rest[1..])
    }

    constructor (file: bytes, ghost q: seq<Entry>)
      requires file == PartialOf(q) && FitsFields(q)
      ensures Valid() && rest == q
    {
      hide Stream;
      StartOfPartial(q);
      this.file := file;
      pos, remaining, front := 4, Field(file, 0, 4), None;
      rest := q;
      new;
      Advance(q);
    }

    /** Loads the next entry of the file as the front. */
    method Advance(ghost q: seq<Entry>)
      requires Ahead(file, pos, q) && remaining == |q|
      modifies this
      ensures Valid() && rest == q
    {
      hide Stream;
      rest := q;
      if remaining == 0 {
        front := None;
        return;
      }
      NextAhead(file, pos, q);
      var key, size := Field(file, pos, 8), Field(file, pos + 8, 4);
      front := Some(Entry(key, file[pos + 12..pos + 12 + size]));
      pos := pos + 12 + size;
      remaining := remaining - 1;
    }
  }

  /** Reads only the keys of a partial, skipping the postings, into the key set. */
  method ScanPartialKeys(file: bytes, keys: set<nat>, ghost q: seq<Entry>) returns (out: set<nat>)
    requires file == PartialOf(q) && FitsFields(q)
    ensures out == keys + KeysIn([q])
  {
    hide Stream;
    StartOfPartial(q);
    out := keys;
    var count, pos: nat := Field(file, 0, 4), 4;
    assert q[0..] == q;
    for i := 0 to count
      invariant Ahead(file, pos, q[i..])
      invariant out == keys + set j: nat | j < i :: q[j].key
    {
      NextAhead(file, pos, q[i..]);
      assert q[i..][1..] == q[i + 1..];
      out := out + {Field(file, pos, 8)};
      pos := pos + 12 + Field(file, pos + 8, 4);
    }
    OneList(q);
  }

  lemma OneList(q: seq<Entry>)
    ensures KeysIn([q]) == set j: nat | j < |q| :: q[j].key
  {
    forall k ensures k in KeysIn([q]) <==> HasKey(q, k) {
      KeysInHas([q], k);
      assert [q][0] == q;
    }
  }

  // ----- one round over the cursors -----

  ghost predicate Ready(cursors: seq<PartialCursor>)
    reads cursors
  {
    && (forall i :: 0 <= i < |cursors| ==> cursors[i].Valid())
    && (forall i, j :: 0 <= i < j < |cursors| ==> cursors[i] != cursors[j])
  }

  /** What each cursor still has. */
  ghost function Rests(cursors: seq<PartialCursor>): (rs: Lists)
    reads cursors
    ensures |rs| == |cursors| && forall i :: 0 <= i < |rs| ==> rs[i] == cursors[i].rest
  {
    seq(|cursors|, i requires 0 <= i < |cursors| reads cursors => cursors[i].rest)
  }

  ghost predicate BadHead(codec: Codec, r: seq<Entry>, m: nat) {
    Taken(r, m) && codec.de(r[0].posting).None?
  }

  /** Some posting does not decode. */
  ghost predicate Bad(codec: Codec, rs: Lists) {
    exists i, j :: 0 <= i < |rs| && 0 <= j < |rs[i]| && codec.de(rs[i][j].posting).None?
  }

  lemma MinFrontNext(rs: Lists, i: nat)
    requires i < |rs|
    ensures MinFront(rs[..i + 1]) ==
              var m := MinFront(rs[..i]);
              if rs[i] == [] then m else if m.None? || rs[i][0].key < m.value then Some(rs[i][0].key) else m
  {
    assert rs[..i + 1][..i] == rs[..i];
  }

  method MinKey(cursors: seq<PartialCursor>) returns (m: Option<nat>)
    requires Ready(cursors)
    ensures m == MinFront(Rests(cursors))
  {
    hide Ahead, MinFront;
    m := None;
    assert MinFront(Rests(cursors)[..0]) == None by { NoFront(); }
    for i := 0 to |cursors|
      invariant m == MinFront(Rests(cursors)[..i])
    {
      MinFrontNext(Rests(cursors), i);
      var f := cursors[i].front;
      if f.Some? && (m.None? || f.value.key < m.value) {
        m := Some(f.value.key);
      }
    }
    assert Rests(cursors)[..|cursors|] == Rests(cursors);
  }

  lemma NoFront()
    ensures MinFront([]) == None
  {
  }

  lemma MergedNext(codec: Codec, rs: Lists, m: nat, i: nat)
    requires i < |rs|
    ensures MergedAt(codec, rs[..i + 1], m) == MergedAt(codec, rs[..i], m)
            + if Taken(rs[i], m) then Decoded(codec, rs[i][0].posting) else {}
  {
    assert rs[..i + 1][..i] == rs[..i];
  }

  lemma MergedNone(codec: Codec, m: nat)
    ensures MergedAt(codec, [], m) == {}
  {
  }

  /** Takes the heads with this key and unites their postings; nothing if one does not decode. */
  method TakeRound(codec: Codec, cursors: seq<PartialCursor>, key: nat, ghost before: Lists)
    returns (merged: Option<set<nat>>)
    requires Ready(cursors) && before == Rests(cursors)
    modifies cursors
    ensures Ready(cursors)
    ensures merged.None? <==> exists i :: 0 <= i < |before| && BadHead(codec, before[i], key)
    ensures merged.Some? ==> Rests(cursors) == Step(before, key) && merged.value == MergedAt(codec, before, key)
  {
    hide Ahead, MergedAt;
    var all: set<nat> := {};
    MergedNone(codec, key);
    assert before[..0] == [];
    for c := 0 to |cursors|
      invariant Ready(cursors)
      invariant all == MergedAt(codec, before[..c], key)
      invariant forall i :: 0 <= i < c ==>
                  cursors[i].rest
                  == (if Taken(before[i], key) then before[i][1..] else before[i]) && !BadHead(codec, before[i], key)
      invariant forall i :: c <= i < |cursors| ==> cursors[i].rest == before[i]
    {
      MergedNext(codec, before, key, c);
      if cursors[c].front.Some? && cursors[c].front.value.key == key {
        var got := codec.de(cursors[c].front.value.posting);
        if got.None? {
          assert BadHead(codec, before[c], key);
          return None;
        }
        all := all + got.value;
        cursors[c].Advance(before[c][1..]);
      }
    }
    assert before[..|cursors|] == before;
    assert Rests(cursors) == Step(before, key);
    merged := Some(all);
  }

  lemma BadStep(codec: Codec, rs: Lists, m: nat)
    requires forall i :: 0 <= i < |rs| ==> !BadHead(codec, rs[i], m)
    ensures Bad(codec, Step(rs, m)) <==> Bad(codec, rs)
  {
    var next: Lists := Step(rs, m);
    if Bad(codec, rs) {
      var i, j :| 0 <= i < |rs| && 0 <= j < |rs[i]| && codec.de(rs[i][j].posting).None?;
      assert !BadHead(codec, rs[i], m);
      var at := if Taken(rs[i], m) then j - 1 else j;
      assert codec.de(next[i][at].posting).None?;
    }
    if Bad(codec, next) {
      var i, j :| 0 <= i < |next| && 0 <= j < |next[i]| && codec.de(next[i][j].posting).None?;
      var at := if Taken(rs[i], m) then j + 1 else j;
      assert codec.de(rs[i][at].posting).None?;
    }
  }

  lemma BadNow(codec: Codec, rs: Lists, m: nat)
    requires exists i :: 0 <= i < |rs| && BadHead(codec, rs[i], m)
    ensures Bad(codec, rs)
  {
    var i :| 0 <= i < |rs| && BadHead(codec, rs[i], m);
    assert codec.de(rs[i][0].posting).None?;
  }

  // ----- the second pass -----

  /** The postings written so far and the dictionary rows for them. */
  ghost predicate Recorded(es: seq<Entry>, at: nat, region: bytes, dict: seq<(nat, nat, nat)>) {
    && region == Join(PostingsOf(es)) && |dict| == |es|
    && (forall i :: 0 <= i < |es| ==> dict[i] == (es[i].key, at + Start(PostingsOf(es), i), |es[i].posting|))
  }

  lemma RecordedNext(es: seq<Entry>, at: nat, region: bytes, dict: seq<(nat, nat, nat)>, e: Entry)
    requires Recorded(es, at, region, dict)
    ensures Recorded(es + [e], at, region + e.posting, dict + [(e.key, at + |region|, |e.posting|)])
  {
    hide Join;
    var ps, more := PostingsOf(es), PostingsOf(es + [e]);
    assert more == ps + [e.posting];
    JoinAppend(ps, e.posting);
    forall i | 0 <= i <= |ps| ensures more[..i] == ps[..i] {
    }
    assert ps[..|ps|] == ps;
  }

  lemma RecordedNone(at: nat)
    ensures Recorded([], at, [], [])
  {
  }

  lemma MergeOutNext(codec: Codec, rs: Lists, m: nat)
    requires MinFront(rs) == Some(m)
    ensures MergeOut(codec, rs) == [Entry(m, codec.ser(MergedAt(codec, rs, m)))] + MergeOut(codec, Step(rs, m))
    ensures Length(Step(rs, m)) < Length(rs)
  {
    MinFrontIs(rs);
    StepShortens(rs, m);
  }

  lemma MergeOutEnds(codec: Codec, rs: Lists)
    requires MinFront(rs) == None
    ensures MergeOut(codec, rs) == [] && !Bad(codec, rs)
  {
    MinFrontIs(rs);
  }

  /** Merges until every cursor is spent. */
  method MergeAll(codec: Codec, cursors: seq<PartialCursor>, at: nat, ghost lists: Lists)
    returns (failed: Option<Error>, region: bytes, dict: seq<(nat, nat, nat)>)
    requires Ready(cursors) && Rests(cursors) == lists
    modifies cursors
    ensures failed.Some? <==> Bad(codec, lists) || TooLong(MergeOut(codec, lists))
    ensures failed.None? ==> Recorded(MergeOut(codec, lists), at, region, dict)
  {
    hide Ready, Rests, Bad, Recorded, Step, MergeOut, MergedAt, BadHead, MinFront, TooLong, Length;
    region, dict := [], [];
    ghost var out: seq<Entry> := [];
    RecordedNone(at);
    assert !TooLong([]) by { NoneTooLong(); }
    var off := at;
    var key := MinKey(cursors);
    while key.Some?
      invariant Ready(cursors) && key == MinFront(Rests(cursors))
      invariant out + MergeOut(codec, Rests(cursors)) == MergeOut(codec, lists) && !TooLong(out)
      invariant Bad(codec, Rests(cursors)) <==> Bad(codec, lists)
      invariant Recorded(out, at, region, dict) && off == at + |region|
      decreases Length(Rests(cursors))
    {
      ghost var before := Rests(cursors);
      var merged := TakeRound(codec, cursors, key.value, before);
      if merged.None? {
        BadNow(codec, before, key.value);
        return Some(Malformed), region, dict;
      }
      BadStep(codec, before, key.value);
      MergeOutNext(codec, before, key.value);
      var posting := codec.ser(merged.value);
      ghost var e := Entry(key.value, posting);
      assert out + ([e] + MergeOut(codec, Step(before, key.value)))
             == (out + [e]) + MergeOut(codec, Step(before, key.value));
      if |posting| >= TWO_32 {
        TooLongAt(out, e, MergeOut(codec, Step(before, key.value)));
        return Some(TooLarge), region, dict;
      }
      RecordedNext(out, at, region, dict, e);
      TooLongNext(out, e);
      region := region + posting;
      dict := dict + [(key.value, off, |posting|)];
      off := off + |posting|;
      out := out + [e];
      key := MinKey(cursors);
    }
    MergeOutEnds(codec, Rests(cursors));
    assert out + [] == out;
    failed := None;
  }

  lemma NoneTooLong()
    ensures !TooLong([])
  {
  }

  lemma TooLongNext(a: seq<Entry>, e: Entry)
    requires |e.posting| < TWO_32
    ensures TooLong(a + [e]) <==> TooLong(a)
  {
    if i :| 0 <= i < |a| && |a[i].posting| >= TWO_32 {
      assert (a + [e])[i] == a[i];
    }
  }

  lemma TooLongAt(a: seq<Entry>, e: Entry, b: seq<Entry>)
    requires |e.posting| >= TWO_32
    ensures TooLong((a + [e]) + b)
  {
    assert ((a + [e]) + b)[|a|] == e;
  }

  // ----- the whole merge -----

  /** The header, sparse keys and rows the merge writes when it counted `n` keys. */
  function MetaOf(gram: nat, stride: nat, es: seq<Entry>, n: nat): seq<Fld> {
    HeaderFields(gram, n, stride, true) + SparseFields(es, stride, SparseCount(n, stride)) +
    DictFields(es, PostingsStart(n, stride, true), |es|)
  }

  /** The metadata written over the start of a file whose postings begin at `at`. */
  function Overlay(meta: bytes, at: nat, region: bytes): bytes {
    meta + if |meta| <= at then region else if |meta| - at <= |region| then region[|meta| - at..] else []
  }

  /** With the right count, the overlay is exactly the index file. */
  lemma OverlayIsFile(gram: nat, stride: nat, es: seq<Entry>)
    ensures Overlay(Layout(MetaOf(gram, stride, es, |es|)), PostingsStart(|es|, stride, true), Join(PostingsOf(es)))
            == FileOf(gram, stride, es, true)
  {
    MetaSize(gram, stride, es, true);
    hide Layout, HeaderFields, SparseFields, DictFields, SparseCount, PostingsStart, Join;
  }

  ghost predicate ArePartials(files: seq<bytes>, lists: Lists) {
    |files| == |lists| && AllSorted(lists) && forall i :: 0 <= i < |files| ==>
      files[i] == PartialOf(lists[i]) && FitsFields(lists[i])
  }

  lemma KeysInNext(lists: Lists, i: nat)
    requires i < |lists|
    ensures KeysIn(lists[..i + 1]) == KeysIn(lists[..i]) + KeysIn([lists[i]])
  {
    hide HasKey;
    var more, front := lists[..i + 1], lists[..i];
    forall k ensures k in KeysIn(more) <==> k in KeysIn(front) || k in KeysIn([lists[i]]) {
      KeysInHas(more, k);
      KeysInHas(front, k);
      KeysInHas([lists[i]], k);
      assert [lists[i]][0] == lists[i] == more[i];
      if j :| 0 <= j < |front| && HasKey(front[j], k) {
        assert HasKey(more[j], k);
      }
      if j :| 0 <= j < |more| && HasKey(more[j], k) {
        assert j < i ==> HasKey(front[j], k);
      }
    }
  }

  /** The first pass: how many keys there are. */
  method CountKeys(files: seq<bytes>, ghost lists: Lists) returns (n: nat)
    requires ArePartials(files, lists)
    ensures n == |KeysIn(lists)|
  {
    hide Sorted, KeysIn;
    var keys: set<nat> := {};
    assert KeysIn(lists[..0]) == {} by { NoKeysIn(); }
    for i := 0 to |files|
      invariant keys == KeysIn(lists[..i])
    {
      keys := ScanPartialKeys(files[i], keys, lists[i]);
      KeysInNext(lists, i);
    }
    assert lists[..|files|] == lists;
    n := |keys|;
  }

  lemma NoKeysIn()
    ensures KeysIn([]) == {}
  {
  }

  method OpenCursors(files: seq<bytes>, ghost lists: Lists) returns (cursors: seq<PartialCursor>)
    requires ArePartials(files, lists)
    ensures Ready(cursors) && Rests(cursors) == lists && forall i :: 0 <= i < |cursors| ==> fresh(cursors[i])
  {
    hide AllSorted, Ahead, FitsFields, PartialOf, Rests;
    cursors := [];
    for i := 0 to |files|
      invariant |cursors| == i && Ready(cursors) && forall j :: 0 <= j < i ==> fresh(cursors[j])
      invariant forall j :: 0 <= j < i ==> cursors[j].rest == lists[j]
    {
      var c := new PartialCursor(files[i], lists[i]);
      cursors := cursors + [c];
    }
  }

  lemma RowOf(es: seq<Entry>, at: nat, region: bytes, dict: seq<(nat, nat, nat)>, i: nat)
    requires Recorded(es, at, region, dict) && i < |dict|
    ensures |dict| == |es| && dict[i] == (es[i].key, at + Start(PostingsOf(es), i), |es[i].posting|)
  {
  }

  /** Header, sparse index and dictionary, from the rows recorded while merging. */
  method WriteMeta(gram: nat, stride: nat, n: nat, dict: seq<(nat, nat, nat)>, region: bytes, ghost es: seq<Entry>)
    returns (meta: bytes)
    requires stride > 0 && n <= |es| == |dict| && Recorded(es, PostingsStart(n, stride, true), region, dict)
    ensures meta == Layout(MetaOf(gram, stride, es, n))
  {
    hide Layout, LE, Join, DictFields, SparseFields, HeaderFields, Start, PostingsOf, Recorded, PostingsStart;
    ghost var at := PostingsStart(n, stride, true);
    LayoutEmpty(es, stride, at);
    meta := Layout(HeaderFields(gram, n, stride, true));
    var sparse := [];
    for i := 0 to SparseCount(n, stride)
      invariant sparse == Layout(SparseFields(es, stride, i))
    {
      SparseCountMeans(n, stride, i);
      SparseStep(es, stride, i);
      RowOf(es, at, region, dict, i * stride);
      sparse := sparse + LE(dict[i * stride].0, 8);
    }
    var rows := [];
    for i := 0 to |dict|
      invariant rows == Layout(DictFields(es, at, i))
    {
      DictStep(es, at, i);
      RowOf(es, at, region, dict, i);
      rows := rows + (LE(dict[i].0, 8) + LE(dict[i].1, 8) + LE(dict[i].2, 4));
    }
    LayoutAppend(HeaderFields(gram, n, stride, true) + SparseFields(es, stride, SparseCount(n, stride)),
                 DictFields(es, at, |es|));
    LayoutAppend(HeaderFields(gram, n, stride, true), SparseFields(es, stride, SparseCount(n, stride)));
    meta := meta + sparse + rows;
  }

  /** Merges partials into one index. It fails exactly when a posting does not decode or a
      merged one is too long for the format. When no partial repeats a key, the key count of
      the first pass is the length of the dictionary and the file is the merged entries' index. */
  method MergePartials(codec: Codec, files: seq<bytes>, gram: nat, stride: nat, ghost lists: Lists)
    returns (r: Result<bytes>)
    requires ArePartials(files, lists)
    ensures r.Err? <==> Bad(codec, lists) || TooLong(MergeOut(codec, lists))
    ensures r.Ok? && AllDistinct(lists) ==>
              r.value == FileOf(gram, if stride == 0 then DEFAULT_STRIDE else stride, MergeOut(codec, lists), true)
  {
    hide Ready, Rests, Bad, TooLong, MergeOut, KeysIn, AllDistinct, Layout, MetaOf, FileOf, Overlay, Join,
         PostingsStart, FitsFields;
    var step := if stride == 0 then DEFAULT_STRIDE else stride;
    var n := CountKeys(files, lists);
    var cursors := OpenCursors(files, lists);
    var at := PostingsStart(n, step, true);
    var failed, region, dict := MergeAll(codec, cursors, at, lists);
    if failed.Some? {
      return Err(failed.value);
    }
    CountsAgree(codec, lists);
    var meta := WriteMeta(gram, step, n, dict, region, MergeOut(codec, lists));
    if AllDistinct(lists) {
      OverlayIsFile(gram, step, MergeOut(codec, lists));
    }
    r := Ok(Overlay(meta, at, region));
  }

  // ----- chunks of one corpus -----

  ghost function HoldingIn(docs: seq<seq<nat>>, k: nat, lo: nat, hi: nat): set<nat> {
    set d | d in Holding(docs, k) && lo <= d < hi
  }

  /** The documents of [lo, hi) in the index, under their global IDs. */
  ghost function ChunkOf(docs: seq<seq<nat>>, lo: nat, hi: nat): Postings<nat> {
    map k | k in IndexOf(docs) && HoldingIn(docs, k, lo, hi) != {} :: HoldingIn(docs, k, lo, hi)
  }

  ghost predicate ChunksOf(docs: seq<seq<nat>>, cuts: seq<nat>, ps: seq<Postings<nat>>) {
    && |cuts| == |ps| + 1 && cuts[0] == 0
    && (forall i :: 0 <= i < |ps| ==> cuts[i] <= cuts[i + 1] && ps[i] == ChunkOf(docs, cuts[i], cuts[i + 1]))
  }

  lemma ChunkAt(docs: seq<seq<nat>>, lo: nat, hi: nat, k: nat)
    ensures At(ChunkOf(docs, lo, hi), k) == HoldingIn(docs, k, lo, hi)
    ensures k in ChunkOf(docs, lo, hi) <==> At(ChunkOf(docs, lo, hi), k) != {}
  {
    IndexAt(docs, k);
  }

  lemma HoldingJoins(docs: seq<seq<nat>>, k: nat, mid: nat, hi: nat)
    requires mid <= hi
    ensures HoldingIn(docs, k, 0, hi) == HoldingIn(docs, k, 0, mid) + HoldingIn(docs, k, mid, hi)
  {
    hide Holding;
  }

  lemma {:induction false} ChunksUnion(docs: seq<seq<nat>>, cuts: seq<nat>, ps: seq<Postings<nat>>, k: nat)
    requires ChunksOf(docs, cuts, ps)
    ensures At(Union(ps), k) == HoldingIn(docs, k, 0, cuts[|ps|])
    ensures k in Union(ps) <==> At(Union(ps), k) != {}
    decreases |ps|
  {
    if ps != [] {
      var n := |ps| - 1;
      ChunksUnion(docs, cuts[..n + 1], ps[..n], k);
      ChunkAt(docs, cuts[n], cuts[n + 1], k);
      HoldingJoins(docs, k, cuts[n], cuts[n + 1]);
    } else {
      assert HoldingIn(docs, k, 0, 0) == {};
    }
  }

  /** However a corpus is cut into chunks, merging the chunks' entries gives the entries of the
      index of the whole corpus. */
  lemma ChunkedBuildIsWhole(codec: Codec, docs: seq<seq<nat>>, cuts: seq<nat>, ps: seq<Postings<nat>>, lists: Lists)
    requires Faithful(codec) && ChunksOf(docs, cuts, ps) && cuts[|ps|] == |docs| && ListsOf(codec, ps, lists)
    ensures MergeOut(codec, lists) == EntriesOf(Serialized(codec, IndexOf(docs)))
    ensures AllDistinct(lists) && !Bad(codec, lists)
  {
    MergeIsUnion(codec, ps, lists);
    forall k: nat ensures (k in Union(ps) <==> k in IndexOf(docs)) && At(Union(ps), k) == At(IndexOf(docs), k) {
      ChunksUnion(docs, cuts, ps, k);
      IndexAt(docs, k);
      assert HoldingIn(docs, k, 0, |docs|) == Holding(docs, k);
    }
    assert Union(ps) == IndexOf(docs);
    ListsAreGood(codec, ps, lists);
  }

  lemma ListsAreGood(codec: Codec, ps: seq<Postings<nat>>, lists: Lists)
    requires Faithful(codec) && ListsOf(codec, ps, lists)
    ensures AllDistinct(lists) && !Bad(codec, lists)
  {
    hide EntriesOf;
    forall i | 0 <= i < |lists|
      ensures KeySorted(lists[i]) && forall j :: 0 <= j < |lists[i]| ==> codec.de(lists[i][j].posting).Some?
    {
      EntriesDescribe(Serialized(codec, ps[i]));
    }
  }
}
