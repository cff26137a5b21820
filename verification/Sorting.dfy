/** The library sorts the repository calls. Callers learn only that the result is a sorted
    order, so what they prove holds however ties are broken. */
module Sorting {

  /** `order` lists the indices below `n` once each, by ascending key. */
  ghost predicate Orders(order: seq<nat>, keys: seq<nat>, n: nat) {
    n <= |keys| && |order| == n && Ranks(order, keys) && (forall x :: 0 <= x < n ==> x in order)
  }

  ghost predicate Ranks(order: seq<nat>, keys: seq<nat>) {
    && (forall i :: 0 <= i < |order| ==> order[i] < |order| <= |keys|)
    && (forall i, j :: 0 <= i < j < |order| ==> order[i] != order[j] && keys[order[i]] <= keys[order[j]])
  }

  ghost predicate IsOrder(order: seq<nat>, keys: seq<nat>) {
    Orders(order, keys, |keys|)
  }

  /** The order with index `n` placed before position `at`. */
  function Placed(order: seq<nat>, n: nat, at: nat): (out: seq<nat>)
    requires at <= |order|
    ensures |out| == |order| + 1
  {
    order[..at] + [n] + order[at..]
  }

  method SortIndices(keys: seq<nat>) returns (order: seq<nat>)
    ensures IsOrder(order, keys)
  {
    order := [];
    for n := 0 to |keys|
      invariant Orders(order, keys, n)
    {
      var at := n;
      while at > 0 && keys[order[at - 1]] > keys[n]
        invariant 0 <= at <= n
        invariant forall i :: at <= i < n ==> keys[order[i]] > keys[n]
      {
        at := at - 1;
      }
      Inserted(order, keys, n, at);
      order := Placed(order, n, at);
    }
  }

  lemma Inserted(order: seq<nat>, keys: seq<nat>, n: nat, at: nat)
    requires n < |keys| && at <= n && Orders(order, keys, n)
    requires at > 0 ==> keys[order[at - 1]] <= keys[n]
    requires forall i :: at <= i < n ==> keys[order[i]] > keys[n]
    ensures Orders(Placed(order, n, at), keys, n + 1)
  {
    InsertedCovers(order, n, at);
    InsertedRanks(order, keys, n, at);
  }

  lemma PlacedAt(order: seq<nat>, n: nat, at: nat, i: nat)
    requires at <= |order| && i <= |order|
    ensures Placed(order, n, at)[i] == if i < at then order[i] else if i == at then n else order[i - 1]
  {
  }

  lemma InsertedRanks(order: seq<nat>, keys: seq<nat>, n: nat, at: nat)
    requires n < |keys| && at <= n == |order| && Ranks(order, keys)
    requires at > 0 ==> keys[order[at - 1]] <= keys[n]
    requires forall i :: at <= i < n ==> keys[order[i]] > keys[n]
    ensures Ranks(Placed(order, n, at), keys)
  {
    hide Placed;
    var out := Placed(order, n, at);
    forall i | 0 <= i < n + 1 ensures out[i] <= n {
      PlacedAt(order, n, at, i);
    }
    forall i, j | 0 <= i < j < n + 1 ensures out[i] != out[j] && keys[out[i]] <= keys[out[j]] {
      PlacedAt(order, n, at, i);
      PlacedAt(order, n, at, j);
    }
  }

  lemma InsertedCovers(order: seq<nat>, n: nat, at: nat)
    requires at <= |order| == n && forall x :: 0 <= x < n ==> x in order
    ensures forall x :: 0 <= x < n + 1 ==> x in Placed(order, n, at)
  {
    hide Placed;
    var out := Placed(order, n, at);
    forall x | 0 <= x < n + 1 ensures x in out {
      if x < n {
        assert x in order;
        var i :| 0 <= i < n && order[i] == x;
        PlacedAt(order, n, at, if i < at then i else i + 1);
        assert out[if i < at then i else i + 1] == x;
      } else {
        PlacedAt(order, n, at, at);
        assert out[at] == x;
      }
    }
  }
}
