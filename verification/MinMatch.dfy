/** The k-way merge behind min-should-match search (rust/src/bm25.rs). */
module MinMatch {
  import opened Wrappers
  import Ordered

  // ----- what is asked for -----

  /** How many of the sets hold `d`. */
  function Count(sets: seq<set<nat>>, d: nat): (n: nat)
    ensures n <= |sets|
  {
    if sets == [] then 0 else Count(sets[..|sets| - 1], d) + if d in sets[|sets| - 1] then 1 else 0
  }

  function UnionAll(sets: seq<set<nat>>): set<nat> {
    if sets == [] then {} else UnionAll(sets[..|sets| - 1]) + sets[|sets| - 1]
  }

  /** The documents in at least `need` of the sets. */
  function AtLeast(sets: seq<set<nat>>, need: nat): set<nat> {
    set d | d in UnionAll(sets) && Count(sets, d) >= need
  }

  lemma {:induction false} CountPositive(sets: seq<set<nat>>, d: nat)
    ensures Count(sets, d) > 0 <==> d in UnionAll(sets)
    decreases |sets|
  {
    if sets != [] {
      CountPositive(sets[..|sets| - 1], d);
    }
  }

  lemma {:induction false} AtLeastHas(sets: seq<set<nat>>, need: nat, d: nat)
    requires need > 0
    ensures d in AtLeast(sets, need) <==> Count(sets, d) >= need
  {
    CountPositive(sets, d);
  }

  /** Being in all the sets is being in as many as there are. */
  lemma {:induction false} CountAll(sets: seq<set<nat>>, d: nat)
    ensures Count(sets, d) == |sets| <==> forall i :: 0 <= i < |sets| ==> d in sets[i]
    decreases |sets|
  {
    if sets != [] {
      CountAll(sets[..|sets| - 1], d);
    }
  }

  lemma {:induction false} CountAgrees(a: seq<set<nat>>, b: seq<set<nat>>, d: nat)
    requires |a| == |b| && forall i :: 0 <= i < |a| ==> (d in a[i] <==> d in b[i])
    ensures Count(a, d) == Count(b, d)
    decreases |a|
  {
    if a != [] {
      CountAgrees(a[..|a| - 1], b[..|b| - 1], d);
    }
  }

  // ----- the merge -----

  /** The qualifying documents below `bound`. */
  function Below(sets: seq<set<nat>>, need: nat, bound: nat): set<nat> {
    set d | d in AtLeast(sets, need) && d < bound
  }

  function FromBound(sets: seq<set<nat>>, need: nat, bound: nat): set<nat> {
    set d | d in AtLeast(sets, need) && d >= bound
  }

  /** An iterator over `s` that stands before its first member that is at least `bound`. */
  ghost predicate StandsAt(s: set<nat>, pos: nat, bound: nat) {
    var q := Ordered.Ascending(s);
    pos <= |q| && forall j: nat :: j < |q| ==> (j < pos <==> q[j] < bound)
  }

  ghost predicate AllStandAt(sets: seq<set<nat>>, pos: seq<nat>, bound: nat) {
    |pos| == |sets| && forall i :: 0 <= i < |sets| ==> StandsAt(sets[i], pos[i], bound)
  }

  function Head(s: set<nat>, pos: nat): Option<nat> {
    var q := Ordered.Ascending(s);
    if pos < |q| then Some(q[pos]) else None
  }

  /** The member an iterator shows is the least one from the bound on. */
  lemma HeadIsNext(s: set<nat>, pos: nat, bound: nat)
    requires StandsAt(s, pos, bound)
    ensures match Head(s, pos)
            case None => forall d :: d in s ==> d < bound
            case Some(h) => h in s && h >= bound && forall d :: d in s && d >= bound ==> h <= d
  {
    var q := Ordered.Ascending(s);
    Ordered.AscendingLists(s);
    forall d | d in s && d >= bound ensures pos < |q| && q[pos] <= d {
      assert d in q;
      var j: nat :| j < |q| && q[j] == d;
      assert j >= pos;
    }
    if pos < |q| {
      assert q[pos] in q;
    }
  }

  /** Passing `m`, the least head, moves exactly the iterators that show it. */
  lemma PassesHead(s: set<nat>, pos: nat, bound: nat, m: nat)
    requires StandsAt(s, pos, bound) && m >= bound
    requires Head(s, pos).Some? ==> m <= Head(s, pos).value
    ensures StandsAt(s, if Head(s, pos) == Some(m) then pos + 1 else pos, m + 1)
    ensures Head(s, pos) == Some(m) <==> m in s
  {
    var q := Ordered.Ascending(s);
    Ordered.AscendingLists(s);
    HeadIsNext(s, pos, bound);
    forall j: nat | j < |q| ensures j < (if Head(s, pos) == Some(m) then pos + 1 else pos) <==> q[j] < m + 1 {
      if j > pos {
        assert q[pos] < q[j];
      }
    }
  }

  /** The least document any iterator shows. */
  method LeastHead(sets: seq<set<nat>>, pos: seq<nat>) returns (m: Option<nat>)
    requires |pos| == |sets|
    ensures m.None? <==> forall i :: 0 <= i < |sets| ==> Head(sets[i], pos[i]).None?
    ensures m.Some? ==> exists i :: 0 <= i < |sets| && Head(sets[i], pos[i]) == m
    ensures m.Some? ==> forall i :: 0 <= i < |sets| && Head(sets[i], pos[i]).Some? ==>
              m.value <= Head(sets[i], pos[i]).value
  {
    hide Head;
    m := None;
    for i := 0 to |sets|
      invariant m.None? <==> forall j :: 0 <= j < i ==> Head(sets[j], pos[j]).None?
      invariant m.Some? ==> exists j :: 0 <= j < i && Head(sets[j], pos[j]) == m
      invariant m.Some? ==> forall j :: 0 <= j < i && Head(sets[j], pos[j]).Some? ==>
                  m.value <= Head(sets[j], pos[j]).value
    {
      var h := Head(sets[i], pos[i]);
      if h.Some? && (m.None? || h.value < m.value) {
        m := h;
      }
    }
  }

  lemma CountNext(sets: seq<set<nat>>, i: nat, d: nat)
    requires i < |sets|
    ensures Count(sets[..i + 1], d) == Count(sets[..i], d) + if d in sets[i] then 1 else 0
  {
    assert sets[..i + 1][..i] == sets[..i];
  }

  /** Advances every iterator that shows `m` and counts them. */
  method PassAll(sets: seq<set<nat>>, pos: seq<nat>, m: nat, ghost bound: nat) returns (next: seq<nat>, run: nat)
    requires AllStandAt(sets, pos, bound) && m >= bound
    requires forall i :: 0 <= i < |sets| && Head(sets[i], pos[i]).Some? ==> m <= Head(sets[i], pos[i]).value
    ensures AllStandAt(sets, next, m + 1) && run == Count(sets, m)
  {
    hide StandsAt, Head, Count;
    next, run := [], 0;
    assert Count(sets[..0], m) == 0;
    for i := 0 to |sets|
      invariant |next| == i && run == Count(sets[..i], m)
      invariant forall j :: 0 <= j < i ==> StandsAt(sets[j], next[j], m + 1)
    {
      PassesHead(sets[i], pos[i], bound, m);
      CountNext(sets, i, m);
      if Head(sets[i], pos[i]) == Some(m) {
        run := run + 1;
        next := next + [pos[i] + 1];
      } else {
        next := next + [pos[i]];
      }
    }
    assert sets[..|sets|] == sets;
  }

  /** Nothing qualifies between the bound and the least head. */
  lemma Skips(sets: seq<set<nat>>, pos: seq<nat>, need: nat, bound: nat, m: nat)
    requires AllStandAt(sets, pos, bound) && need > 0 && m >= bound
    requires forall i :: 0 <= i < |sets| && Head(sets[i], pos[i]).Some? ==> m <= Head(sets[i], pos[i]).value
    ensures Below(sets, need, m + 1) == Below(sets, need, bound) + if Count(sets, m) >= need then {m} else {}
  {
    hide AtLeast, Count, StandsAt, Head;
    AtLeastHas(sets, need, m);
    forall d | bound <= d < m ensures d !in AtLeast(sets, need) {
      AtLeastHas(sets, need, d);
      forall i | 0 <= i < |sets| ensures d !in sets[i] {
        HeadIsNext(sets[i], pos[i], bound);
      }
      CountNoneOf(sets, d);
    }
  }

  lemma {:induction false} CountNoneOf(sets: seq<set<nat>>, d: nat)
    requires forall i :: 0 <= i < |sets| ==> d !in sets[i]
    ensures Count(sets, d) == 0
    decreases |sets|
  {
    if sets != [] {
      CountNoneOf(sets[..|sets| - 1], d);
    }
  }

  lemma AppendsLargest(low: set<nat>, m: nat)
    requires forall d :: d in low ==> d < m
    ensures Ordered.Ascending(low + {m}) == Ordered.Ascending(low) + [m]
  {
    Ordered.AscendingUnion(low + {m}, low, {m});
    Ordered.AscendingUnique({m}, [m]);
  }

  /** What the merge has found is the start of the answer; with enough found it is the answer. */
  lemma FoundSoFar(sets: seq<set<nat>>, need: nat, bound: nat, limit: nat)
    requires |Below(sets, need, bound)| >= limit || FromBound(sets, need, bound) == {}
    ensures Ordered.FirstN(AtLeast(sets, need), limit) == Ordered.FirstN(Below(sets, need, bound), limit)
  {
    hide AtLeast;
    Ordered.FirstNBelow(AtLeast(sets, need), Below(sets, need, bound), FromBound(sets, need, bound), limit);
  }

  lemma NothingLeft(sets: seq<set<nat>>, pos: seq<nat>, need: nat, bound: nat)
    requires AllStandAt(sets, pos, bound) && need > 0 && forall i :: 0 <= i < |sets| ==> Head(sets[i], pos[i]).None?
    ensures FromBound(sets, need, bound) == {}
  {
    hide AtLeast, Count, StandsAt, Head;
    forall d | d >= bound ensures d !in AtLeast(sets, need) {
      AtLeastHas(sets, need, d);
      forall i | 0 <= i < |sets| ensures d !in sets[i] {
        HeadIsNext(sets[i], pos[i], bound);
      }
      CountNoneOf(sets, d);
    }
  }

  /** A bound past every member. */
  ghost function Top(s: set<nat>): (t: nat)
    ensures forall d :: d in s ==> d < t
  {
    var q := Ordered.Ascending(s);
    Ordered.AscendingLists(s);
    if q == [] then 0 else
      assert forall d :: d in s ==> d in q;
      q[|q| - 1] + 1
  }

  lemma StartStand(sets: seq<set<nat>>)
    ensures AllStandAt(sets, seq(|sets|, i => 0), 0)
  {
    forall i | 0 <= i < |sets| ensures StandsAt(sets[i], 0, 0) {
    }
  }

  lemma LeastQualifies(sets: seq<set<nat>>, pos: seq<nat>, bound: nat, m: nat)
    requires AllStandAt(sets, pos, bound) && exists i :: 0 <= i < |sets| && Head(sets[i], pos[i]) == Some(m)
    ensures m >= bound && m in UnionAll(sets)
  {
    hide StandsAt, Head;
    var i :| 0 <= i < |sets| && Head(sets[i], pos[i]) == Some(m);
    HeadIsNext(sets[i], pos[i], bound);
    InUnion(sets, i, m);
  }

  lemma {:induction false} InUnion(sets: seq<set<nat>>, i: nat, m: nat)
    requires i < |sets| && m in sets[i]
    ensures m in UnionAll(sets)
    decreases |sets|
  {
    if i < |sets| - 1 {
      InUnion(sets[..|sets| - 1], i, m);
    }
  }

  /** The documents in at least `need` of the sets, ascending, the first `limit` of them. */
  method MinMatchCandidates(sets: seq<set<nat>>, need: nat, limit: nat) returns (out: seq<nat>)
    ensures out == if limit == 0 || need == 0 then [] else Ordered.FirstN(AtLeast(sets, need), limit)
  {
    hide AllStandAt, AtLeast, Count, Head, UnionAll, Ordered.Ascending, Ordered.FirstN;
    out := [];
    if limit == 0 || need == 0 {
      return;
    }
    var pos: seq<nat> := seq(|sets|, i => 0);
    ghost var bound: nat := 0;
    StartStand(sets);
    while true
      invariant AllStandAt(sets, pos, bound) && |pos| == |sets|
      invariant out == Ordered.Ascending(Below(sets, need, bound)) && |out| < limit
      decreases Top(UnionAll(sets)) - bound
    {
      StandLengths(sets, pos, bound);
      var m := LeastHead(sets, pos);
      if m.None? {
        NothingLeft(sets, pos, need, bound);
        FoundSoFar(sets, need, bound, limit);
        AllOfFew(Below(sets, need, bound), limit);
        break;
      }
      LeastQualifies(sets, pos, bound, m.value);
      Skips(sets, pos, need, bound, m.value);
      var run;
      pos, run := PassAll(sets, pos, m.value, bound);
      StandLengths(sets, pos, m.value + 1);
      if run >= need {
        AppendsLargest(Below(sets, need, bound), m.value);
        out := out + [m.value];
        if |out| >= limit {
          FoundSoFar(sets, need, m.value + 1, limit);
          AllOfFew(Below(sets, need, m.value + 1), limit);
          break;
        }
      }
      bound := m.value + 1;
    }
  }

  lemma StandLengths(sets: seq<set<nat>>, pos: seq<nat>, bound: nat)
    requires AllStandAt(sets, pos, bound)
    ensures |pos| == |sets|
  {
  }

  lemma AllOfFew(s: set<nat>, limit: nat)
    requires |s| <= limit
    ensures Ordered.FirstN(s, limit) == Ordered.Ascending(s)
  {
    hide Ordered.Ascending;
    var a := Ordered.Ascending(s);
    assert a[..|a|] == a;
  }
}
