/** What the split builders and the slicer share: posting serialisation, the byte cap of each
    tier, manifest rows, and the proof that splits which tile the documents lose none. */
module Splits {
  import opened Bytes
  import opened Wrappers
  import opened Inverted
  import Ordered

  // ----- serialised postings -----

  /** The bitmap library: a posting's bytes and what they decode to. */
  datatype Codec = Codec(ser: set<nat> -> bytes, de: bytes -> Option<set<nat>>)

  ghost predicate Faithful(c: Codec) {
    forall s :: c.de(c.ser(s)) == Some(s)
  }

  function Serialized<K>(c: Codec, p: Postings<K>): map<K, bytes> {
    map k | k in p :: c.ser(p[k])
  }

  // ----- the cap of a tier -----

  function Pow2(n: nat): (r: nat)
    ensures r > 0
  {
    if n == 0 then 1 else 2 * Pow2(n - 1)
  }

  function Min(a: nat, b: nat): (m: nat)
    ensures m <= a && m <= b && (m == a || m == b)
  {
    if a < b then a else b
  }

  function Max(a: nat, b: nat): (m: nat)
    ensures m >= a && m >= b && (m == a || m == b)
  {
    if a < b then b else a
  }

  /** The byte cap of the split sealed at index `tier`, in 64-bit arithmetic: a shift that
      overflows reads as the largest value. */
  function CapFor(byteCap: nat, capMax: nat, tier: nat): nat {
    if capMax == 0 then byteCap
    else
      var shift := Min(tier, 63);
      var shifted := byteCap * Pow2(shift) % TWO_64;
      var kept := if shift != 0 && shifted / Pow2(shift) != byteCap then TWO_64 - 1 else shifted;
      Min(kept, Max(capMax, byteCap))
  }

  lemma ShiftOverflow(b: nat, p: nat)
    requires p > 0
    ensures (b * p % TWO_64) / p == b <==> b * p < TWO_64
  {
    QuotientIs(b * p % TWO_64, b, p);
  }

  /** The overflow test is exact: the cap doubles per tier (63 times at most) up to the
      larger of the two configured caps. */
  lemma CapDoubles(byteCap: nat, capMax: nat, tier: nat)
    requires byteCap < TWO_64 && 0 < capMax < TWO_64
    ensures CapFor(byteCap, capMax, tier) == Min(byteCap * Pow2(Min(tier, 63)), Max(capMax, byteCap))
  {
    var p := Pow2(Min(tier, 63));
    assert Pow2(0) == 1;
    hide Pow2;
    ShiftOverflow(byteCap, p);
  }

  lemma {:induction false} PowGrows(a: nat, b: nat)
    requires a <= b
    ensures Pow2(a) <= Pow2(b)
    decreases b
  {
    if a < b {
      PowGrows(a, b - 1);
    }
  }

  lemma ScaledGrows(b: nat, p: nat, q: nat)
    requires 1 <= p <= q
    ensures b <= b * p <= b * q
  {
    Times(1, p, b);
    Times(p, q, b);
  }

  lemma CapAtMost(byteCap: nat, capMax: nat, tier: nat)
    ensures CapFor(byteCap, capMax, tier) <= if byteCap < capMax then capMax else byteCap
  {
  }

  /** Later tiers never have a smaller cap; no tier has a smaller one than `byteCap`, nor a larger one
      than the larger of the two configured. Without `capMax` that leaves `byteCap` for every tier. */
  lemma CapGrows(byteCap: nat, capMax: nat, i: nat, j: nat)
    requires byteCap < TWO_64 && capMax < TWO_64 && i <= j
    ensures byteCap <= CapFor(byteCap, capMax, i) <= CapFor(byteCap, capMax, j)
    ensures CapFor(byteCap, capMax, j) <= if byteCap < capMax then capMax else byteCap
    ensures capMax == 0 ==> CapFor(byteCap, capMax, i) == byteCap
  {
    if capMax > 0 {
      CapDoubles(byteCap, capMax, i);
      CapDoubles(byteCap, capMax, j);
      PowGrows(Min(i, 63), Min(j, 63));
      ScaledGrows(byteCap, Pow2(Min(i, 63)), Pow2(Min(j, 63)));
      hide Pow2, CapFor;
    }
  }

  /** The first cap is `byteCap`, and each is twice the one before until it reaches the larger of the two
      configured, or the 63 shifts are used up. */
  lemma CapNext(byteCap: nat, capMax: nat, tier: nat)
    requires byteCap < TWO_64 && 0 < capMax < TWO_64
    ensures var most := if byteCap < capMax then capMax else byteCap;
            && CapFor(byteCap, capMax, 0) == byteCap
            && CapFor(byteCap, capMax, tier + 1)
               == if tier >= 63 then CapFor(byteCap, capMax, tier)
                  else if 2 * CapFor(byteCap, capMax, tier) < most then 2 * CapFor(byteCap, capMax, tier) else most
  {
    assert Pow2(0) == 1;
    CapDoubles(byteCap, capMax, 0);
    CapDoubles(byteCap, capMax, tier);
    CapDoubles(byteCap, capMax, tier + 1);
    if tier < 63 {
      assert Pow2(tier + 1) == 2 * Pow2(tier);
      DoubledProduct(byteCap, Pow2(tier));
    }
    hide CapFor, Pow2;
  }

  lemma DoubledProduct(b: nat, p: nat)
    ensures b * (2 * p) == 2 * (b * p)
  {
  }

  // ----- manifest rows -----

  datatype Spec = Spec(tier: nat, docCount: nat, docIdLo: nat, docIdHi: nat, byteSize: nat)

  /** The row of split `i`: its tier is its index, saturated at 16 bits, under the tiered policy. */
  function RowOf(tiered: bool, i: nat, lo: nat, count: nat, byteSize: nat): Spec
    requires count > 0
  {
    Spec(if tiered then Min(i, 0xFFFF) else 0, count, lo, lo + count - 1, byteSize)
  }

  /** The splits take up [0, end) contiguously and in order, none of them empty. */
  ghost predicate Tiles(specs: seq<Spec>, end: nat) {
    && (forall i :: 0 <= i < |specs| ==>
         specs[i].docCount > 0 && specs[i].docIdHi + 1 == specs[i].docIdLo + specs[i].docCount)
    && (specs != [] ==> specs[0].docIdLo == 0)
    && (forall i :: 0 < i < |specs| ==> specs[i].docIdLo == specs[i - 1].docIdHi + 1)
    && end == if specs == [] then 0 else specs[|specs| - 1].docIdHi + 1
  }

  lemma TilesAppend(specs: seq<Spec>, end: nat, s: Spec)
    requires Tiles(specs, end) && s.docCount > 0 && s.docIdLo == end && s.docIdHi == end + s.docCount - 1
    ensures Tiles(specs + [s], end + s.docCount)
  {
  }

  lemma TilesPrefix(specs: seq<Spec>, end: nat)
    requires Tiles(specs, end) && specs != []
    ensures Tiles(specs[..|specs| - 1], specs[|specs| - 1].docIdLo)
    ensures specs[|specs| - 1].docIdLo < specs[|specs| - 1].docIdHi + 1 == end
  {
  }

  lemma {:induction false} TilesWithin(specs: seq<Spec>, end: nat, i: nat)
    requires Tiles(specs, end) && i < |specs|
    ensures specs[i].docIdLo <= specs[i].docIdHi < end
    decreases |specs|
  {
    TilesPrefix(specs, end);
    if i < |specs| - 1 {
      TilesWithin(specs[..|specs| - 1], specs[|specs| - 1].docIdLo, i);
    }
  }

  // ----- nothing is lost -----

  /** The documents a row covers. */
  ghost function Covered<K>(docs: seq<seq<K>>, s: Spec): seq<seq<K>> {
    if s.docIdLo <= s.docIdHi < |docs| then docs[s.docIdLo..s.docIdHi + 1] else []
  }

  /** Document `d` is in the posting of `k` in split `s`, once that is rebased. */
  ghost predicate InSplit<K>(docs: seq<seq<K>>, s: Spec, k: K, d: nat) {
    s.docIdLo <= d && d - s.docIdLo in At(IndexOf(Covered(docs, s)), k)
  }

  lemma {:induction false} InSplitMeans<K>(docs: seq<seq<K>>, s: Spec, k: K, d: nat)
    requires s.docIdLo <= s.docIdHi < |docs|
    ensures InSplit(docs, s, k, d) <==> s.docIdLo <= d <= s.docIdHi && d in Holding(docs, k)
  {
    var part := Covered(docs, s);
    IndexAt(part, k);
    assert s.docIdLo <= d <= s.docIdHi ==> part[d - s.docIdLo] == docs[d];
  }

  lemma {:induction false} SomeSplit(specs: seq<Spec>, end: nat, d: nat) returns (i: nat)
    requires Tiles(specs, end) && d < end
    ensures i < |specs| && specs[i].docIdLo <= d <= specs[i].docIdHi
    decreases |specs|
  {
    TilesPrefix(specs, end);
    var last := |specs| - 1;
    if d >= specs[last].docIdLo {
      i := last;
    } else {
      i := SomeSplit(specs[..last], specs[last].docIdLo, d);
    }
  }

  lemma OpenPart<K>(docs: seq<seq<K>>, base: nat, k: K, d: nat)
    requires base <= |docs|
    ensures d >= base && d - base in At(IndexOf(docs[base..]), k) <==> d >= base && d in Holding(docs, k)
  {
    IndexAt(docs[base..], k);
    if d >= base && d < |docs| {
      assert docs[base..][d - base] == docs[d];
    }
  }

  /** Conservation: the sealed splits' postings, rebased, together with the open ones are
      exactly the documents that hold the key. */
  lemma Conserved<K>(docs: seq<seq<K>>, specs: seq<Spec>, base: nat, k: K, d: nat)
    requires Tiles(specs, base) && base <= |docs|
    ensures d in Holding(docs, k)
            <==> (exists i :: 0 <= i < |specs| && InSplit(docs, specs[i], k, d))
                 || (d >= base && d - base in At(IndexOf(docs[base..]), k))
  {
    hide Tiles, InSplit, Covered, Holding;
    OpenPart(docs, base, k, d);
    forall i | 0 <= i < |specs|
      ensures InSplit(docs, specs[i], k, d) <==> specs[i].docIdLo <= d <= specs[i].docIdHi && d in Holding(docs, k)
    {
      TilesWithin(specs, base, i);
      InSplitMeans(docs, specs[i], k, d);
    }
    if d in Holding(docs, k) && d < base {
      var i := SomeSplit(specs, base, d);
      assert InSplit(docs, specs[i], k, d);
    }
  }

  /** No document is in two splits. */
  lemma {:induction false} SplitsDisjoint(specs: seq<Spec>, end: nat, i: nat, j: nat)
    requires Tiles(specs, end) && i < j < |specs|
    ensures specs[i].docIdHi < specs[j].docIdLo
    decreases j
  {
    if i < j - 1 {
      SplitsDisjoint(specs, end, i, j - 1);
    }
  }

  // ----- strict AND, split by split -----

  function Rebased(q: seq<nat>, lo: nat): seq<nat> {
    seq(|q|, i requires 0 <= i < |q| => q[i] + lo)
  }

  /** The strict AND of `keys` taken in each split, rebased, one split after the other. */
  ghost function AndBySplit<K>(docs: seq<seq<K>>, specs: seq<Spec>, keys: seq<K>): seq<nat> {
    if specs == [] then []
    else
      var s := specs[|specs| - 1];
      AndBySplit(docs, specs[..|specs| - 1], keys) +
      Rebased(Ordered.Ascending(And(IndexOf(Covered(docs, s)), keys)), s.docIdLo)
  }

  lemma RebasedHas(q: seq<nat>, lo: nat, x: nat)
    ensures x in Rebased(q, lo) <==> x >= lo && x - lo in q
  {
    var r := Rebased(q, lo);
    if x >= lo && x - lo in q {
      var i :| 0 <= i < |q| && q[i] == x - lo;
      assert r[i] == x;
    }
  }

  lemma RebasedAscends(q: seq<nat>, lo: nat)
    requires Ordered.StrictlyAscending(q)
    ensures Ordered.StrictlyAscending(Rebased(q, lo))
  {
  }

  lemma RebasedLists(a: set<nat>, b: set<nat>, lo: nat)
    requires forall x: nat :: x in b <==> x >= lo && x - lo in a
    ensures Ordered.Ascending(b) == Rebased(Ordered.Ascending(a), lo)
  {
    hide Ordered.Ascending, Ordered.StrictlyAscending, Rebased;
    var q := Ordered.Ascending(a);
    var r := Rebased(q, lo);
    Ordered.AscendingLists(a);
    RebasedAscends(q, lo);
    forall x: nat ensures x in b <==> x in r {
      RebasedHas(q, lo, x);
    }
    Ordered.AscendingUnique(b, r);
  }

  ghost function MatchingIn<K>(docs: seq<seq<K>>, keys: seq<K>, lo: nat, hi: nat): set<nat> {
    set d | d in Matching(docs, keys) && lo <= d < hi
  }

  lemma MatchingPart<K>(docs: seq<seq<K>>, keys: seq<K>, lo: nat, hi: nat, d: nat)
    requires lo <= hi <= |docs|
    ensures d in MatchingIn(docs, keys, lo, hi) <==> d >= lo && d - lo in Matching(docs[lo..hi], keys)
  {
    MatchingWindow(docs, lo, hi, keys);
    if d >= lo {
      WindowHas(Matching(docs, keys), lo, hi, d - lo);
    }
  }

  /** The strict AND of one split, rebased, is the AND over its documents. */
  lemma AndOfSplit<K>(docs: seq<seq<K>>, s: Spec, keys: seq<K>)
    requires s.docIdLo <= s.docIdHi < |docs|
    ensures Rebased(Ordered.Ascending(And(IndexOf(Covered(docs, s)), keys)), s.docIdLo)
            == Ordered.Ascending(MatchingIn(docs, keys, s.docIdLo, s.docIdHi + 1))
  {
    hide Matching, MatchingIn, And, Ordered.Ascending, IndexOf, Rebased;
    var lo, hi := s.docIdLo, s.docIdHi + 1;
    AndMatches(Covered(docs, s), keys);
    forall d: nat ensures d in MatchingIn(docs, keys, lo, hi) <==> d >= lo && d - lo in Matching(docs[lo..hi], keys) {
      MatchingPart(docs, keys, lo, hi, d);
    }
    RebasedLists(Matching(docs[lo..hi], keys), MatchingIn(docs, keys, lo, hi), lo);
  }

  /** A strict AND taken split by split, in order, is the AND over the documents the splits
      cover, in ascending order. */
  lemma {:induction false} AndBySplitIsAnd<K>(docs: seq<seq<K>>, specs: seq<Spec>, end: nat, keys: seq<K>)
    requires Tiles(specs, end) && end <= |docs|
    ensures AndBySplit(docs, specs, keys) == Ordered.Ascending(MatchingIn(docs, keys, 0, end))
    decreases |specs|
  {
    hide Matching, And, Ordered.Ascending, IndexOf, Rebased, Covered, Tiles;
    if specs == [] {
      NoneMatching(docs, keys, specs, end);
    } else {
      hide MatchingIn;
      var s := specs[|specs| - 1];
      TilesPrefix(specs, end);
      AndBySplitIsAnd(docs, specs[..|specs| - 1], s.docIdLo, keys);
      AndOfSplit(docs, s, keys);
      MatchingJoins(docs, keys, s.docIdLo, end);
    }
  }

  lemma NoSplits<K>(docs: seq<seq<K>>, keys: seq<K>)
    ensures AndBySplit(docs, [], keys) == []
  {
  }

  lemma AndBySplitNext<K>(docs: seq<seq<K>>, specs: seq<Spec>, keys: seq<K>, i: nat)
    requires i < |specs|
    ensures AndBySplit(docs, specs[..i + 1], keys)
            == AndBySplit(docs, specs[..i], keys) + Rebased(Ordered.Ascending(And(IndexOf(Covered(docs, specs[i])),
              keys)), specs[i].docIdLo)
  {
    hide IndexOf, Covered, Ordered.Ascending, And, Rebased;
    assert specs[..i + 1][..i] == specs[..i];
  }

  lemma NoneMatching<K>(docs: seq<seq<K>>, keys: seq<K>, specs: seq<Spec>, end: nat)
    requires Tiles(specs, end) && specs == []
    ensures Ordered.Ascending(MatchingIn(docs, keys, 0, end)) == []
  {
    assert MatchingIn(docs, keys, 0, end) == {};
  }

  lemma MatchingJoins<K>(docs: seq<seq<K>>, keys: seq<K>, mid: nat, end: nat)
    requires mid <= end
    ensures Ordered.Ascending(MatchingIn(docs, keys, 0, end))
            == Ordered.Ascending(MatchingIn(docs, keys, 0, mid)) + Ordered.Ascending(MatchingIn(docs, keys, mid, end))
  {
    hide Ordered.Ascending, Matching;
    Ordered.AscendingUnion(MatchingIn(docs, keys, 0, end), MatchingIn(docs, keys, 0, mid),
                           MatchingIn(docs, keys, mid, end));
  }
}
