/** Finite sets of document IDs or keys in ascending order: the view a posting's iterator,
    its `rank`, and a sorted key list give of the set. */
module Ordered {

  ghost predicate IsLeast(m: nat, s: set<nat>) {
    m in s && forall x :: x in s ==> m <= x
  }

  lemma LeastExists(s: set<nat>, a: nat)
    requires a in s
    ensures exists m :: IsLeast(m, s)
    decreases a
  {
    if x :| x in s && x < a {
      LeastExists(s, x);
    } else {
      assert IsLeast(a, s);
    }
  }

  function Least(s: set<nat>): (m: nat)
    requires s != {}
    ensures IsLeast(m, s)
  {
    assert exists m :: IsLeast(m, s) by {
      var a :| a in s;
      LeastExists(s, a);
    }
    var m :| m in s && forall x :: x in s ==> m <= x;
    m
  }

  ghost predicate StrictlyAscending(q: seq<nat>) {
    forall i, j :: 0 <= i < j < |q| ==> q[i] < q[j]
  }

  /** `q` lists exactly the members of `s`, in ascending order. */
  ghost predicate Lists(q: seq<nat>, s: set<nat>) {
    && StrictlyAscending(q)
    && (forall x :: x in s <==> x in q)
  }

  /** The elements of `s` in ascending order. */
  function Ascending(s: set<nat>): (q: seq<nat>)
    ensures |q| == |s|
    decreases |s|
  {
    if s == {} then [] else var m := Least(s); [m] + Ascending(s - {m})
  }

  lemma ConsLists(m: nat, q: seq<nat>, s: set<nat>)
    requires Lists(q, s) && forall x :: x in s ==> m < x
    ensures Lists([m] + q, {m} + s)
  {
    assert forall i :: 0 <= i < |q| ==> q[i] in q;
  }

  lemma {:induction false} AscendingLists(s: set<nat>)
    ensures Lists(Ascending(s), s)
    decreases |s|
  {
    if s != {} {
      var m, rest := Least(s), s - {Least(s)};
      assert s == {m} + rest && forall x :: x in rest ==> m < x;
      assert Ascending(s) == [m] + Ascending(rest);
      hide *;
      AscendingLists(rest);
      ConsLists(m, Ascending(rest), rest);
    }
  }

  lemma HeadAndTail(s: set<nat>, q: seq<nat>)
    requires Lists(q, s) && q != []
    ensures s != {} && q[0] == Least(s) && Lists(q[1..], s - {q[0]})
  {
    assert q[0] in q && q == [q[0]] + q[1..];
    assert forall i :: 0 <= i < |q[1..]| ==> q[0] < q[1..][i];
  }

  /** A set has only one ascending listing. */
  lemma {:induction false} AscendingUnique(s: set<nat>, q: seq<nat>)
    requires Lists(q, s)
    ensures q == Ascending(s)
    decreases |q|
  {
    if q == [] {
      assert s == {};
    } else {
      hide *;
      HeadAndTail(s, q);
      AscendingUnique(s - {q[0]}, q[1..]);
    }
  }

  /** Every member of `a` is below every member of `b`. */
  ghost predicate Below(a: set<nat>, b: set<nat>) {
    forall x, y :: x in a && y in b ==> x < y
  }

  lemma AppendAscending(a: set<nat>, p: seq<nat>, b: set<nat>, q: seq<nat>)
    requires Lists(p, a) && Lists(q, b) && Below(a, b)
    ensures StrictlyAscending(p + q)
  {
    assert forall i :: 0 <= i < |p| ==> p[i] in p;
    assert forall i :: 0 <= i < |q| ==> q[i] in q;
  }

  /** When all of `a` lies below all of `b`, their union lists `a` and then `b`. */
  lemma AscendingUnion(s: set<nat>, a: set<nat>, b: set<nat>)
    requires s == a + b && Below(a, b)
    ensures Ascending(s) == Ascending(a) + Ascending(b)
  {
    AscendingLists(a);
    AscendingLists(b);
    assert Lists(Ascending(a) + Ascending(b), s) by {
      AppendAscending(a, Ascending(a), b, Ascending(b));
    }
    hide Lists;
    AscendingUnique(s, Ascending(a) + Ascending(b));
  }

  function UpTo(s: set<nat>, d: nat): set<nat> {
    set x | x in s && x <= d
  }

  ghost function Beyond(s: set<nat>, d: nat): set<nat> {
    set x | x in s && x > d
  }

  lemma CutAt(s: set<nat>, d: nat)
    ensures UpTo(s, d) + Beyond(s, d) == s && Below(UpTo(s, d), Beyond(s, d))
  {
  }

  /** How many members are at most `d`: the one-based position of a member. */
  function Rank(s: set<nat>, d: nat): nat {
    |UpTo(s, d)|
  }

  ghost predicate IsLargest(d: nat, s: set<nat>) {
    d in s && forall x :: x in s ==> x <= d
  }

  /** The listing of a set with largest member `d` ends in `d`. */
  lemma LargestIsLast(s: set<nat>, d: nat)
    requires IsLargest(d, s)
    ensures |s| > 0 && Ascending(s)[|s| - 1] == d
  {
    var q := Ascending(s);
    AscendingLists(s);
    assert d in q && q[|q| - 1] in q;
  }

  lemma LastOfLow(s: set<nat>, low: set<nat>, high: set<nat>, d: nat)
    requires s == low + high && Below(low, high) && IsLargest(d, low)
    ensures 1 <= |low| <= |s| && Ascending(s)[|low| - 1] == d
  {
    LargestIsLast(low, d);
    AscendingUnion(s, low, high);
  }

  /** A member stands at index `Rank - 1` of the ascending listing. */
  lemma RankIsPosition(s: set<nat>, d: nat)
    requires d in s
    ensures 1 <= Rank(s, d) <= |s| && Ascending(s)[Rank(s, d) - 1] == d
  {
    hide Below, Beyond, Ascending;
    CutAt(s, d);
    LastOfLow(s, UpTo(s, d), Beyond(s, d), d);
  }

  /** The first `n` members in ascending order. */
  function FirstN(s: set<nat>, n: nat): seq<nat> {
    var a := Ascending(s);
    if n <= |a| then a[..n] else a
  }

  ghost function Under(s: set<nat>, x: nat): set<nat> {
    set y | y in s && y < x
  }

  /** The members with fewer than `n` others below them. */
  ghost function FirstOf(s: set<nat>, n: nat): set<nat> {
    set x | x in s && |Under(s, x)| < n
  }

  /** The first `n` are those members, each once, ascending. */
  lemma FirstNMeans(s: set<nat>, n: nat)
    ensures Lists(FirstN(s, n), FirstOf(s, n)) && |FirstN(s, n)| == if n <= |s| then n else |s|
  {
    hide Ascending;
    AscendingLists(s);
    var a := Ascending(s);
    forall x ensures x in FirstOf(s, n) <==> x in FirstN(s, n) {
      if x in s {
        BelowCount(s, x);
        RankIsPosition(s, x);
        TakenBefore(a, Rank(s, x) - 1, n);
      } else {
        assert x !in a;
      }
    }
  }

  lemma BelowCount(s: set<nat>, x: nat)
    requires x in s
    ensures |Under(s, x)| == Rank(s, x) - 1
  {
    assert UpTo(s, x) == Under(s, x) + {x};
  }

  lemma TakenBefore(a: seq<nat>, k: nat, n: nat)
    requires StrictlyAscending(a) && k < |a|
    ensures a[k] in (if n <= |a| then a[..n] else a) <==> k < n
  {
    if k < n <= |a| {
      assert a[..n][k] == a[k];
    }
  }

  /** When the low members already fill the first `n`, the high ones cannot change them. */
  lemma FirstNBelow(s: set<nat>, low: set<nat>, high: set<nat>, n: nat)
    requires s == low + high && Below(low, high)
    requires |low| >= n || high == {}
    ensures FirstN(s, n) == FirstN(low, n)
  {
    AscendingUnion(s, low, high);
  }
}
