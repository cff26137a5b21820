/** The meaning the builders share: a corpus is a sequence of documents, each a list of keys,
    and its index maps each key to the set of documents that hold it. */
module Inverted {
  import Ordered

  type Postings<K> = map<K, set<nat>>

  /** The documents that hold `key`. */
  ghost function Holding<K>(docs: seq<seq<K>>, key: K): set<nat> {
    set d: nat | d < |docs| && key in docs[d]
  }

  ghost function KeysOf<K>(docs: seq<seq<K>>): set<K> {
    set d: nat, k | d < |docs| && k in docs[d] :: k
  }

  /** The index of a corpus. */
  ghost function IndexOf<K>(docs: seq<seq<K>>): Postings<K> {
    map k | k in KeysOf(docs) :: Holding(docs, k)
  }

  // ----- adding a document -----

  function KeySet<K(==)>(keys: seq<K>): set<K> {
    set k | k in keys
  }

  function At<K(==)>(p: Postings<K>, k: K): set<nat> {
    if k in p then p[k] else {}
  }

  /** The index after document `d` with `keys`. */
  ghost function Insert<K>(p: Postings<K>, d: nat, keys: seq<K>): Postings<K> {
    map k | k in p.Keys + KeySet(keys) :: if k in keys then At(p, k) + {d} else p[k]
  }

  lemma InsertNothing<K>(p: Postings<K>, d: nat)
    ensures Insert(p, d, []) == p
  {
  }

  lemma InsertNext<K>(p: Postings<K>, d: nat, keys: seq<K>, k: K)
    ensures var before := Insert(p, d, keys);
            Insert(p, d, keys + [k]) == before[k := At(before, k) + {d}]
  {
  }

  lemma KeysMeans<K>(docs: seq<seq<K>>, k: K)
    ensures k in KeysOf(docs) <==> exists d: nat :: d < |docs| && k in docs[d]
    ensures k in KeysOf(docs) <==> Holding(docs, k) != {}
  {
    if k in KeysOf(docs) {
      var d: nat :| d < |docs| && k in docs[d];
      assert d in Holding(docs, k);
    }
    if Holding(docs, k) != {} {
      var d :| d in Holding(docs, k);
    }
  }

  lemma IndexEmpty<K>()
    ensures IndexOf<K>([]) == map[]
  {
  }

  lemma IndexAt<K>(docs: seq<seq<K>>, k: K)
    ensures At(IndexOf(docs), k) == Holding(docs, k) && (k in IndexOf(docs) <==> Holding(docs, k) != {})
  {
    KeysMeans(docs, k);
  }

  lemma HoldingStep<K>(docs: seq<seq<K>>, keys: seq<K>, k: K)
    ensures Holding(docs + [keys], k) == Holding(docs, k) + if k in keys then {|docs|} else {}
  {
  }

  /** Adding a document to the corpus inserts it under its keys. */
  lemma IndexStep<K>(docs: seq<seq<K>>, keys: seq<K>)
    ensures IndexOf(docs + [keys]) == Insert(IndexOf(docs), |docs|, keys)
  {
    var a, b := IndexOf(docs + [keys]), Insert(IndexOf(docs), |docs|, keys);
    forall k ensures (k in a.Keys <==> k in b.Keys) && At(a, k) == At(b, k) {
      InsertedAt(docs, keys, k);
    }
    assert a.Keys == b.Keys;
    assert forall k :: k in a ==> At(a, k) == At(b, k);
  }

  lemma InsertedAt<K>(docs: seq<seq<K>>, keys: seq<K>, k: K)
    ensures var a, b := IndexOf(docs + [keys]), Insert(IndexOf(docs), |docs|, keys);
            (k in a <==> k in b) && At(a, k) == At(b, k)
  {
    hide IndexOf, Holding;
    IndexAt(docs, k);
    IndexAt(docs + [keys], k);
    HoldingStep(docs, keys, k);
    assert k in keys ==> |docs| in Holding(docs + [keys], k);
  }

  // ----- slicing by document range -----

  /** The members of `s` in [lo, hi), renumbered from zero. */
  function Window(s: set<nat>, lo: nat, hi: nat): set<nat> {
    set d | d in s && lo <= d < hi :: d - lo
  }

  lemma WindowHas(s: set<nat>, lo: nat, hi: nat, x: nat)
    ensures x in Window(s, lo, hi) <==> x + lo in s && x + lo < hi
  {
    if x + lo in s && x + lo < hi {
      assert x == (x + lo) - lo;
    }
  }

  /** The index restricted to the documents in [lo, hi), renumbered from zero. */
  ghost function SliceOf<K>(p: Postings<K>, lo: nat, hi: nat): Postings<K> {
    map k | k in p && Window(p[k], lo, hi) != {} :: Window(p[k], lo, hi)
  }

  lemma HoldingWindow<K>(docs: seq<seq<K>>, lo: nat, hi: nat, k: K)
    requires lo <= hi <= |docs|
    ensures Window(Holding(docs, k), lo, hi) == Holding(docs[lo..hi], k)
  {
    forall x: nat ensures x in Window(Holding(docs, k), lo, hi) <==> x in Holding(docs[lo..hi], k) {
      WindowHas(Holding(docs, k), lo, hi, x);
    }
  }

  /** Slicing the index of a corpus gives the index of the slice of the corpus. */
  lemma SliceIsIndex<K>(docs: seq<seq<K>>, lo: nat, hi: nat)
    requires lo <= hi <= |docs|
    ensures SliceOf(IndexOf(docs), lo, hi) == IndexOf(docs[lo..hi])
  {
    var a, b := SliceOf(IndexOf(docs), lo, hi), IndexOf(docs[lo..hi]);
    hide Holding, Window, KeysOf;
    forall k ensures (k in a <==> k in b) && (k in b ==> a[k] == b[k]) {
      IndexAt(docs, k);
      IndexAt(docs[lo..hi], k);
      HoldingWindow(docs, lo, hi, k);
    }
  }

  // ----- strict AND -----

  /** The documents that hold every one of `keys`; nothing for no keys. */
  ghost function Matching<K>(docs: seq<seq<K>>, keys: seq<K>): set<nat> {
    if keys == [] then {} else set d: nat | d < |docs| && forall k :: k in keys ==> k in docs[d]
  }

  /** The intersection of the keys' postings, taken one key at a time. */
  function And<K(==)>(p: Postings<K>, keys: seq<K>): set<nat> {
    if keys == [] then {}
    else if |keys| == 1 then At(p, keys[0])
    else And(p, keys[..|keys| - 1]) * At(p, keys[|keys| - 1])
  }

  /** Intersecting postings finds exactly the documents that hold every key. */
  lemma {:induction false} AndMatches<K>(docs: seq<seq<K>>, keys: seq<K>)
    ensures And(IndexOf(docs), keys) == Matching(docs, keys)
  {
    if keys != [] {
      var last := keys[|keys| - 1];
      IndexAt(docs, last);
      assert forall k :: k in keys <==> k in keys[..|keys| - 1] || k == last;
      if |keys| > 1 {
        AndMatches(docs, keys[..|keys| - 1]);
      }
    }
  }

  lemma MatchingWindow<K>(docs: seq<seq<K>>, lo: nat, hi: nat, keys: seq<K>)
    requires lo <= hi <= |docs|
    ensures Window(Matching(docs, keys), lo, hi) == Matching(docs[lo..hi], keys)
  {
    forall x: nat ensures x in Window(Matching(docs, keys), lo, hi) <==> x in Matching(docs[lo..hi], keys) {
      WindowHas(Matching(docs, keys), lo, hi, x);
    }
  }

  // ----- sums over maps -----

  ghost function Total<K>(m: map<K, nat>): nat {
    if m == map[] then 0 else var k :| k in m; m[k] + Total(m - {k})
  }

  lemma {:induction false} TotalTake<K>(m: map<K, nat>, k: K)
    requires k in m
    ensures Total(m) == m[k] + Total(m - {k})
    decreases |m|
  {
    var j :| j in m && Total(m) == m[j] + Total(m - {j});
    if j != k {
      TotalTake(m - {j}, k);
      TotalTake(m - {k}, j);
      assert m - {j} - {k} == m - {k} - {j};
    }
  }

  lemma TotalPut<K>(m: map<K, nat>, k: K, v: nat)
    ensures Total(m[k := v]) == Total(m) - (if k in m then m[k] else 0) + v
  {
    var n := m[k := v];
    TotalTake(n, k);
    assert n - {k} == m - {k};
    if k in m {
      TotalTake(m, k);
    } else {
      assert m - {k} == m;
    }
  }

  lemma {:induction false} TotalAtMost<K>(m: map<K, nat>, n: map<K, nat>)
    requires m.Keys == n.Keys && forall k :: k in m ==> m[k] <= n[k]
    ensures Total(m) <= Total(n)
    decreases |m|
  {
    if m != map[] {
      var k :| k in m;
      TotalTake(m, k);
      TotalTake(n, k);
      TotalAtMost(m - {k}, n - {k});
    }
  }

  function Sizes<K(==)>(p: Postings<K>): map<K, nat> {
    map k | k in p :: |p[k]|
  }

  /** How many (key, document) pairs an index holds. */
  ghost function Elements<K>(p: Postings<K>): nat {
    Total(Sizes(p))
  }

  lemma ElementsNone<K>()
    ensures Elements<K>(map[]) == 0
  {
    assert Sizes<K>(map[]) == map[];
  }

  lemma ElementsPut<K>(p: Postings<K>, k: K, d: nat)
    requires d !in At(p, k)
    ensures Elements(p[k := At(p, k) + {d}]) == Elements(p) + 1
  {
    TotalPut(Sizes(p), k, |At(p, k)| + 1);
    assert Sizes(p[k := At(p, k) + {d}]) == Sizes(p)[k := |At(p, k)| + 1];
  }

}
