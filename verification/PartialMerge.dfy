/** The chunked build (rust/src/build.rs): a key-sorted partial for each chunk of the documents,
    and the streaming merge of partials into one index. */
module PartialMerge {
  import opened Wrappers
  import opened Bytes
  import opened Inverted
  import opened Splits
  import opened RangeIndex
  import Sorting
  import Ordered

  type Lists = seq<seq<Entry>>

  // ----- what a merge of key-sorted lists gives -----

  /** The smallest key at the head of a list. */
  function MinFront(rs: Lists): Option<nat> {
    if rs == [] then None
    else
      var m, last := MinFront(rs[..|rs| - 1]), rs[|rs| - 1];
      if last == [] then m
      else if m.None? || last[0].key < m.value then Some(last[0].key) else m
  }

  function Taken(r: seq<Entry>, m: nat): bool {
    r != [] && r[0].key == m
  }

  /** The lists after every head with key `m` is taken. */
  function Step(rs: Lists, m: nat): (out: Lists)
    ensures |out| == |rs|
  {
    seq(|rs|, i requires 0 <= i < |rs| => if Taken(rs[i], m) then rs[i][1..] else rs[i])
  }

  function Decoded(codec: Codec, b: bytes): set<nat> {
    match codec.de(b) case None => {} case Some(s) => s
  }

  /** The union of the postings at the heads with key `m`. */
  function MergedAt(codec: Codec, rs: Lists, m: nat): set<nat> {
    if rs == [] then {}
    else
      var last := rs[|rs| - 1];
      MergedAt(codec, rs[..|rs| - 1], m) + if Taken(last, m) then Decoded(codec, last[0].posting) else {}
  }

  function Length(rs: Lists): nat {
    if rs == [] then 0 else Length(rs[..|rs| - 1]) + |rs[|rs| - 1]|
  }

  lemma {:induction false} MinFrontIs(rs: Lists)
    ensures match MinFront(rs)
            case None => forall i :: 0 <= i < |rs| ==> rs[i] == []
            case Some(m) =>
              (exists i :: 0 <= i < |rs| && Taken(rs[i], m))
              && (forall i :: 0 <= i < |rs| && rs[i] != [] ==> m <= rs[i][0].key)
    decreases |rs|
  {
    if rs != [] {
      var front, last := rs[..|rs| - 1], rs[|rs| - 1];
      MinFrontIs(front);
      if MinFront(front).Some? {
        var i :| 0 <= i < |front| && Taken(front[i], MinFront(front).value);
        assert Taken(rs[i], MinFront(front).value);
      }
      assert last != [] ==> Taken(rs[|rs| - 1], last[0].key);
    }
  }

  lemma StepPrefix(rs: Lists, m: nat)
    requires rs != []
    ensures Step(rs, m)[..|rs| - 1] == Step(rs[..|rs| - 1], m)
  {
  }

  lemma {:induction false} StepShortens(rs: Lists, m: nat)
    ensures Length(Step(rs, m)) <= Length(rs)
    ensures (exists i :: 0 <= i < |rs| && Taken(rs[i], m)) ==> Length(Step(rs, m)) < Length(rs)
    decreases |rs|
  {
    if rs != [] {
      StepPrefix(rs, m);
      StepShortens(rs[..|rs| - 1], m);
      if i :| 0 <= i < |rs| && Taken(rs[i], m) {
        assert i < |rs| - 1 ==> Taken(rs[..|rs| - 1][i], m);
      }
    }
  }

  /** The merged entries, one for each round of the merge. */
  function MergeOut(codec: Codec, rs: Lists): seq<Entry>
    decreases Length(rs)
  {
    match MinFront(rs)
    case None => []
    case Some(m) =>
      MinFrontIs(rs);
      StepShortens(rs, m);
      [Entry(m, codec.ser(MergedAt(codec, rs, m)))] + MergeOut(codec, Step(rs, m))
  }

  // ----- chunks with distinct keys: the merge is the union -----

  /** The union of several indexes. */
  ghost function Union(ps: seq<Postings<nat>>): Postings<nat> {
    if ps == [] then map[]
    else
      var rest, last := Union(ps[..|ps| - 1]), ps[|ps| - 1];
      map k | k in rest.Keys + last.Keys :: At(rest, k) + At(last, k)
  }

  ghost function Less(ps: seq<Postings<nat>>, m: nat): seq<Postings<nat>> {
    seq(|ps|, i requires 0 <= i < |ps| => ps[i] - {m})
  }

  /** `rs` are the entry lists of the chunks. */
  ghost predicate ListsOf(codec: Codec, ps: seq<Postings<nat>>, rs: Lists) {
    |rs| == |ps| && forall i :: 0 <= i < |ps| ==> rs[i] == EntriesOf(Serialized(codec, ps[i]))
  }

  /** The first entry of an index is its least key's, the rest those of the others. */
  lemma EntriesHead(codec: Codec, p: Postings<nat>)
    requires p != map[]
    ensures p.Keys != {}
    ensures var m := Ordered.Least(p.Keys);
            EntriesOf(Serialized(codec, p)) == [Entry(m, codec.ser(p[m]))] + EntriesOf(Serialized(codec, p - {m}))
  {
    hide Ordered.IsLeast, Describes, EntriesOf;
    var m := Ordered.Least(p.Keys);
    var all, rest := Serialized(codec, p), Serialized(codec, p - {m});
    assert forall k :: k in p ==> m <= k;
    assert m in p;
    EntriesDescribe(rest);
    HeadDescribes(EntriesOf(rest), rest, all, m);
    EntriesUnique([Entry(m, all[m])] + EntriesOf(rest), all);
  }

  lemma LeastIs(s: set<nat>, m: nat)
    requires m in s && forall x :: x in s ==> m <= x
    ensures s != {} && Ordered.Least(s) == m
  {
  }

  lemma HeadSorted(es: seq<Entry>, e: Entry)
    requires KeySorted(es) && forall i :: 0 <= i < |es| ==> e.key < es[i].key
    ensures KeySorted([e] + es)
  {
  }

  lemma HeadDescribes(es: seq<Entry>, less: Index, all: Index, m: nat)
    requires Describes(es, less) && m in all && less == all - {m} && forall k :: k in all ==> m <= k
    ensures Describes([Entry(m, all[m])] + es, all)
  {
    hide KeySorted;
    var more := [Entry(m, all[m])] + es;
    forall i | 0 <= i < |es| ensures m < es[i].key && es[i].key in all && all[es[i].key] == es[i].posting {
      assert es[i].key in less;
    }
    HeadSorted(es, more[0]);
    forall k | k in all ensures exists i :: 0 <= i < |more| && more[i].key == k {
      if k == m {
        assert more[0].key == k;
      } else {
        assert k in less;
        var i :| 0 <= i < |es| && es[i].key == k;
        assert more[i + 1].key == k;
      }
    }
  }

  /** Taking key `m` from a list when no key is smaller leaves the entries of the other keys. */
  lemma TakeKey(codec: Codec, p: Postings<nat>, m: nat)
    requires forall k :: k in p ==> m <= k
    ensures Taken(EntriesOf(Serialized(codec, p)), m) <==> m in p
    ensures m in p ==> EntriesOf(Serialized(codec, p))[0].posting == codec.ser(p[m])
    ensures (if m in p then EntriesOf(Serialized(codec, p))[1..] else EntriesOf(Serialized(codec, p)))
            == EntriesOf(Serialized(codec, p - {m}))
  {
    if p == map[] {
      assert p - {m} == p;
      assert EntriesOf(Serialized(codec, p)) == [] by { NoEntries(codec); }
    } else {
      EntriesHead(codec, p);
      assert m in p ==> Ordered.Least(p.Keys) == m;
      assert m !in p ==> p - {m} == p;
      assert m !in p ==> Ordered.Least(p.Keys) in p && Ordered.Least(p.Keys) != m;
    }
  }

  lemma NoEntries(codec: Codec)
    ensures EntriesOf(Serialized<nat>(codec, map[])) == []
  {
    assert Serialized<nat>(codec, map[]) == map[];
    EntriesDescribe(map[]);
  }

  lemma {:induction false} UnionHas(ps: seq<Postings<nat>>, k: nat)
    ensures k in Union(ps) <==> exists i :: 0 <= i < |ps| && k in ps[i]
    decreases |ps|
  {
    if ps != [] {
      var front := ps[..|ps| - 1];
      UnionHas(front, k);
      if k in Union(front) {
        var i :| 0 <= i < |front| && k in front[i];
        assert k in ps[i];
      }
      if i :| 0 <= i < |ps| && k in ps[i] {
        assert i < |front| ==> k in front[i];
      }
    }
  }

  lemma {:induction false} UnionLess(ps: seq<Postings<nat>>, m: nat)
    ensures Union(Less(ps, m)) == Union(ps) - {m}
    decreases |ps|
  {
    if ps != [] {
      assert Less(ps, m)[..|ps| - 1] == Less(ps[..|ps| - 1], m);
      UnionLess(ps[..|ps| - 1], m);
    }
  }

  lemma {:induction false} MergedIsUnion(codec: Codec, ps: seq<Postings<nat>>, rs: Lists, m: nat)
    requires Faithful(codec) && ListsOf(codec, ps, rs)
    requires forall i, k :: 0 <= i < |ps| && k in ps[i] ==> m <= k
    ensures MergedAt(codec, rs, m) == At(Union(ps), m)
    decreases |ps|
  {
    if ps != [] {
      hide EntriesOf, Serialized;
      MergedIsUnion(codec, ps[..|ps| - 1], rs[..|rs| - 1], m);
      TakeKey(codec, ps[|ps| - 1], m);
    }
  }

  lemma StepIsLess(codec: Codec, ps: seq<Postings<nat>>, rs: Lists, m: nat)
    requires ListsOf(codec, ps, rs) && forall i, k :: 0 <= i < |ps| && k in ps[i] ==> m <= k
    ensures ListsOf(codec, Less(ps, m), Step(rs, m))
  {
    hide EntriesOf, Serialized;
    forall i | 0 <= i < |ps| ensures Step(rs, m)[i] == EntriesOf(Serialized(codec, Less(ps, m)[i])) {
      TakeKey(codec, ps[i], m);
    }
  }

  /** The round's key is the least key any chunk still has. */
  lemma RoundKey(codec: Codec, ps: seq<Postings<nat>>, rs: Lists)
    requires ListsOf(codec, ps, rs)
    ensures MinFront(rs).None? <==> Union(ps) == map[]
    ensures MinFront(rs).Some? ==> Union(ps).Keys != {} && MinFront(rs).value == Ordered.Least(Union(ps).Keys)
    ensures MinFront(rs).Some? ==> forall i, k :: 0 <= i < |ps| && k in ps[i] ==> MinFront(rs).value <= k
  {
    hide EntriesOf, Serialized, Union, Ordered.IsLeast;
    MinFrontIs(rs);
    forall i | 0 <= i < |ps|
      ensures rs[i] == [] <==> ps[i] == map[]
      ensures rs[i] != [] ==> rs[i][0].key in ps[i] && forall k :: k in ps[i] ==> rs[i][0].key <= k
    {
      if ps[i] == map[] {
        NoEntries(codec);
      } else {
        EntriesHead(codec, ps[i]);
      }
    }
    forall k: nat ensures k in Union(ps) <==> exists i :: 0 <= i < |ps| && k in ps[i] {
      UnionHas(ps, k);
    }
    if MinFront(rs).Some? {
      LeastIs(Union(ps).Keys, MinFront(rs).value);
    }
  }

  /** Merging the chunks' lists gives the entries of the union of the chunks. */
  lemma {:induction false} MergeIsUnion(codec: Codec, ps: seq<Postings<nat>>, rs: Lists)
    requires Faithful(codec) && ListsOf(codec, ps, rs)
    ensures MergeOut(codec, rs) == EntriesOf(Serialized(codec, Union(ps)))
    decreases Length(rs)
  {
    hide EntriesOf, Serialized, Union, Step, MergedAt, ListsOf;
    RoundKey(codec, ps, rs);
    match MinFront(rs) {
      case None => NoEntries(codec);
      case Some(m) =>
        MinFrontIs(rs);
        StepShortens(rs, m);
        StepIsLess(codec, ps, rs, m);
        MergeIsUnion(codec, Less(ps, m), Step(rs, m));
        UnionLess(ps, m);
        MergedIsUnion(codec, ps, rs, m);
        EntriesHead(codec, Union(ps));
    }
  }

  // ----- the key count of the first pass -----

  ghost function KeysIn(rs: Lists): set<nat> {
    set i: nat, j: nat | i < |rs| && j < |rs[i]| :: rs[i][j].key
  }

  ghost predicate Sorted(es: seq<Entry>) {
    forall i, j :: 0 <= i < j < |es| ==> es[i].key <= es[j].key
  }

  ghost predicate AllSorted(rs: Lists) {
    forall i :: 0 <= i < |rs| ==> Sorted(rs[i])
  }

  ghost predicate AllDistinct(rs: Lists) {
    forall i :: 0 <= i < |rs| ==> KeySorted(rs[i])
  }

  lemma KeysInHas(rs: Lists, k: nat)
    ensures k in KeysIn(rs) <==> exists i: nat :: i < |rs| && HasKey(rs[i], k)
  {
    if k in KeysIn(rs) {
      var i: nat, j: nat :| i < |rs| && j < |rs[i]| && rs[i][j].key == k;
      assert HasKey(rs[i], k);
    }
  }

  ghost predicate HasKey(es: seq<Entry>, k: nat) {
    exists j :: 0 <= j < |es| && es[j].key == k
  }

  /** Whether a list still has `m` after its head with `m` was taken. */
  ghost predicate Repeats(es: seq<Entry>, m: nat) {
    |es| >= 2 && es[0].key == m && es[1].key == m
  }

  function TailOf(es: seq<Entry>, m: nat): seq<Entry> {
    if Taken(es, m) then es[1..] else es
  }

  /** What taking `m` from the head does to one list. */
  ghost predicate TailFacts(es: seq<Entry>, t: seq<Entry>, m: nat) {
    && Sorted(t)
    && (HasKey(t, m) <==> Repeats(es, m))
    && (KeySorted(es) <==> KeySorted(t) && !Repeats(es, m))
    && (forall k :: k != m ==> (HasKey(t, k) <==> HasKey(es, k)))
  }

  lemma TailKeys(es: seq<Entry>, m: nat)
    ensures forall k :: k != m ==> (HasKey(TailOf(es, m), k) <==> HasKey(es, k))
  {
    var t := TailOf(es, m);
    if Taken(es, m) {
      forall k | k != m && HasKey(es, k) ensures HasKey(t, k) {
        var j :| 0 <= j < |es| && es[j].key == k;
        assert t[j - 1].key == k;
      }
      forall k | HasKey(t, k) ensures HasKey(es, k) {
        var j :| 0 <= j < |t| && t[j].key == k;
        assert es[j + 1].key == k;
      }
    }
  }

  lemma TailOrder(es: seq<Entry>, m: nat)
    requires Sorted(es) && (es != [] ==> m <= es[0].key)
    ensures var t := TailOf(es, m);
            Sorted(t) && (HasKey(t, m) <==> Repeats(es, m)) && (KeySorted(es) <==> KeySorted(t) && !Repeats(es, m))
  {
    var t := TailOf(es, m);
    if Taken(es, m) {
      assert forall i :: 0 <= i < |t| ==> t[i] == es[i + 1];
      if Repeats(es, m) {
        assert t[0].key == m;
      } else {
        assert forall i :: 0 <= i < |t| ==> t[0].key <= t[i].key;
      }
    }
  }

  lemma RoundTails(rs: Lists, m: nat)
    requires AllSorted(rs) && MinFront(rs) == Some(m)
    ensures forall i :: 0 <= i < |rs| ==> TailFacts(rs[i], Step(rs, m)[i], m)
    ensures m in KeysIn(rs)
  {
    hide Sorted, HasKey, KeySorted, Repeats, KeysIn;
    MinFrontIs(rs);
    forall i | 0 <= i < |rs| ensures TailFacts(rs[i], Step(rs, m)[i], m) {
      assert Sorted(rs[i]);
      TailKeys(rs[i], m);
      TailOrder(rs[i], m);
    }
    var least :| 0 <= least < |rs| && Taken(rs[least], m);
    TakenHas(rs[least], m);
    KeysInHas(rs, m);
  }

  /** One round of the merge, seen from the key set: the least key goes unless some list repeats it. */
  lemma RoundKeys(rs: Lists, m: nat)
    requires AllSorted(rs) && MinFront(rs) == Some(m)
    ensures AllSorted(Step(rs, m)) && m in KeysIn(rs)
    ensures KeysIn(Step(rs, m)) == if exists i :: 0 <= i < |rs| && Repeats(rs[i], m) then KeysIn(rs)
            else KeysIn(rs) - {m}
    ensures AllDistinct(rs) <==> AllDistinct(Step(rs, m)) && !exists i :: 0 <= i < |rs| && Repeats(rs[i], m)
  {
    hide Sorted, HasKey, KeySorted, Repeats, Step, MinFront, KeysIn;
    RoundTails(rs, m);
    var next := Step(rs, m);
    hide AllSorted;
    assert AllSorted(next);
    forall k: nat
      ensures k in KeysIn(rs) <==> exists i: nat :: i < |rs| && HasKey(rs[i], k)
      ensures k in KeysIn(next) <==> exists i: nat :: i < |rs| && HasKey(next[i], k)
    {
      KeysInHas(rs, k);
      KeysInHas(next, k);
    }
  }

  lemma TakenHas(es: seq<Entry>, m: nat)
    requires Taken(es, m)
    ensures HasKey(es, m)
  {
  }

  /** The first pass counts the distinct keys; the second writes one entry a round. The two
      agree, so that the postings start where the dictionary ends, exactly when no partial
      holds a key twice. */
  lemma {:induction false} CountsAgree(codec: Codec, rs: Lists)
    requires AllSorted(rs)
    ensures |KeysIn(rs)| <= |MergeOut(codec, rs)|
    ensures |KeysIn(rs)| == |MergeOut(codec, rs)| <==> AllDistinct(rs)
    decreases Length(rs)
  {
    hide KeysIn, Sorted, KeySorted, Repeats, Step, MergedAt;
    MinFrontIs(rs);
    match MinFront(rs) {
      case None => NoLists(rs);
      case Some(m) =>
        StepShortens(rs, m);
        RoundKeys(rs, m);
        CountsAgree(codec, Step(rs, m));
    }
  }

  lemma NoLists(rs: Lists)
    requires forall i :: 0 <= i < |rs| ==> rs[i] == []
    ensures KeysIn(rs) == {} && AllDistinct(rs)
  {
  }

  /** One partial that holds key 7 twice: the first pass counts one key, the second writes two rows. */
  lemma RepeatedKeyCounted(codec: Codec, posting: bytes)
    ensures var lists := [[Entry(7, posting), Entry(7, posting)]];
            AllSorted(lists) && |KeysIn(lists)| == 1 && |MergeOut(codec, lists)| == 2
  {
    var e := Entry(7, posting);
    var lists := [[e, e]];
    assert KeysIn(lists) == {7} by {
      assert lists[0][0].key == 7;
    }
    RoundOfOne(codec, [e, e]);
    RoundOfOne(codec, [e]);
    assert MinFront([[]]) == None by { MinFrontIs([[]]); }
  }

  lemma RoundOfOne(codec: Codec, es: seq<Entry>)
    requires es != []
    ensures |MergeOut(codec, [es])| == 1 + |MergeOut(codec, [es[1..]])|
  {
    hide MergedAt;
    MinFrontIs([es]);
    assert Taken([es][0], es[0].key);
    assert Step([es], es[0].key) == [es[1..]];
  }
}
