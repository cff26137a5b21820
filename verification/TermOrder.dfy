/** Byte strings in lexicographic order: the order of the term dictionary. */
module TermOrder {
  import opened Bytes

  predicate Less(a: bytes, b: bytes) {
    b != [] && (a == [] || a[0] < b[0] || (a[0] == b[0] && Less(a[1..], b[1..])))
  }

  predicate AtMost(a: bytes, b: bytes) {
    a == b || Less(a, b)
  }

  /** The order spelled out: a proper prefix, or the smaller byte where the two first differ. */
  ghost predicate BytesBelow(a: bytes, b: bytes) {
    || (|a| < |b| && b[..|a|] == a)
    || exists i :: 0 <= i < |a| && i < |b| && a[..i] == b[..i] && a[i] < b[i]
  }

  /** One string sorts before another exactly when it is a proper prefix of it, or is smaller, as a
      number, at the first byte that differs. */
  lemma {:induction false} LessMeans(a: bytes, b: bytes)
    ensures Less(a, b)
            <==> (|a| < |b| && b[..|a|] == a)
                 || exists i :: 0 <= i < |a| && i < |b| && a[..i] == b[..i] && a[i] < b[i]
  {
    if a != [] && b != [] {
      BelowTail(a, b);
      if a[0] == b[0] {
        LessMeans(a[1..], b[1..]);
      }
    }
  }

  lemma BelowTail(a: bytes, b: bytes)
    requires a != [] && b != []
    ensures BytesBelow(a, b) <==> a[0] < b[0] || (a[0] == b[0] && BytesBelow(a[1..], b[1..]))
  {
    forall i | 0 < i <= |a| && i <= |b|
      ensures a[..i] == b[..i] <==> a[0] == b[0] && a[1..][..i - 1] == b[1..][..i - 1]
    {
      assert a[..i] == [a[0]] + a[1..][..i - 1] && b[..i] == [b[0]] + b[1..][..i - 1];
    }
    assert b[1..][..|b| - 1] == b[1..];
    if a[0] < b[0] {
      assert a[..0] == b[..0];
    } else if a[0] == b[0] {
      BelowOfTail(a, b);
    }
  }

  lemma BelowOfTail(a: bytes, b: bytes)
    requires a != [] && b != [] && a[0] == b[0]
    ensures BytesBelow(a[1..], b[1..]) ==> BytesBelow(a, b)
  {
    var c, d := a[1..], b[1..];
    assert a == [a[0]] + c && b == [b[0]] + d;
    if |c| < |d| && d[..|c|] == c {
      assert b[..|a|] == [b[0]] + d[..|c|] == a;
    } else if BytesBelow(c, d) {
      var i :| 0 <= i < |c| && i < |d| && c[..i] == d[..i] && c[i] < d[i];
      assert a[..i + 1] == [a[0]] + c[..i] && b[..i + 1] == [b[0]] + d[..i];
      assert a[i + 1] < b[i + 1];
    }
  }

  predicate HasPrefix(t: bytes, p: bytes) {
    |p| <= |t| && t[..|p|] == p
  }

  lemma {:induction false} LessIrreflexive(a: bytes)
    ensures !Less(a, a)
  {
    if a != [] {
      LessIrreflexive(a[1..]);
    }
  }

  lemma {:induction false} LessTransitive(a: bytes, b: bytes, c: bytes)
    requires Less(a, b) && Less(b, c)
    ensures Less(a, c)
    decreases |a|
  {
    if a != [] && a[0] == b[0] && b[0] == c[0] {
      LessTransitive(a[1..], b[1..], c[1..]);
    }
  }

  lemma {:induction false} LessTotal(a: bytes, b: bytes)
    ensures Less(a, b) || a == b || Less(b, a)
  {
    if a != [] && b != [] && a[0] == b[0] {
      LessTotal(a[1..], b[1..]);
      if a[1..] == b[1..] {
        assert a == [a[0]] + a[1..] && b == [b[0]] + b[1..];
      }
    }
  }

  lemma {:induction false} LessNot(a: bytes, b: bytes)
    requires Less(a, b)
    ensures a != b && !Less(b, a)
  {
    LessIrreflexive(a);
    if Less(b, a) {
      LessTransitive(a, b, a);
    }
  }

  /** A string is not below a prefix of it. */
  lemma {:induction false} PrefixBelow(t: bytes, p: bytes)
    requires HasPrefix(t, p)
    ensures AtMost(p, t) && !Less(t, p)
    decreases p
  {
    if p == [] {
      assert t == [] ==> t == p;
    } else {
      PrefixTail(t, p);
      PrefixBelow(t[1..], p[1..]);
      assert t[1..] == p[1..] ==> t == [t[0]] + p[1..] == p;
    }
  }

  lemma PrefixTail(t: bytes, p: bytes)
    requires p != [] && t != []
    ensures HasPrefix(t, p) <==> t[0] == p[0] && HasPrefix(t[1..], p[1..])
  {
    if |p| <= |t| {
      assert t[..|p|] == [t[0]] + t[1..][..|p| - 1];
      assert p == [p[0]] + p[1..];
    }
  }

  /** Once a string at or past `p` lacks the prefix, every later one lacks it. */
  lemma {:induction false} PrefixEnds(t: bytes, u: bytes, p: bytes)
    requires AtMost(p, t) && !HasPrefix(t, p) && Less(t, u)
    ensures !HasPrefix(u, p)
    decreases p
  {
    if p != [] && HasPrefix(u, p) {
      PrefixTail(t, p);
      PrefixTail(u, p);
      assert p[0] <= t[0] <= u[0] == p[0];
      assert AtMost(p[1..], t[1..]) by { assert p == t ==> HasPrefix(t, p); }
      PrefixEnds(t[1..], u[1..], p[1..]);
    }
  }

  lemma {:induction false} BeforePrefix(t: bytes, p: bytes)
    requires Less(t, p)
    ensures !HasPrefix(t, p)
  {
    if HasPrefix(t, p) {
      PrefixBelow(t, p);
    }
  }

  // ----- the terms of a set in order -----

  ghost predicate Sorted(q: seq<bytes>) {
    forall i, j :: 0 <= i < j < |q| ==> Less(q[i], q[j])
  }

  predicate IsLeast(m: bytes, s: set<bytes>) {
    m in s && forall x :: x in s ==> AtMost(m, x)
  }

  lemma {:induction false} LeastExists(s: set<bytes>)
    requires s != {}
    ensures exists m :: IsLeast(m, s)
    decreases |s|
  {
    var a :| a in s;
    var rest := s - {a};
    if rest == {} {
      assert s == rest + {a} == {a};
      assert IsLeast(a, s);
    } else {
      LeastExists(rest);
      var m :| IsLeast(m, rest);
      LessTotal(a, m);
      if Less(a, m) {
        forall x | x in s ensures AtMost(a, x) {
          if x != a && x != m {
            assert x in rest;
            LessTransitive(a, m, x);
          }
        }
        assert IsLeast(a, s);
      } else {
        assert IsLeast(m, s);
      }
    }
  }

  function Least(s: set<bytes>): (m: bytes)
    requires s != {}
    ensures IsLeast(m, s)
  {
    LeastExists(s);
    assert forall a, b :: IsLeast(a, s) && IsLeast(b, s) ==> a == b by {
      forall a, b | IsLeast(a, s) && IsLeast(b, s) ensures a == b {
        if a != b {
          LessNot(a, b);
        }
      }
    }
    var m :| m in s && IsLeast(m, s);
    m
  }

  lemma SortedMeans(q: seq<bytes>)
    requires Sorted(q)
    ensures forall i, j :: 0 <= i < j < |q| ==> BytesBelow(q[i], q[j])
  {
    hide BytesBelow;
    forall i, j | 0 <= i < j < |q| ensures BytesBelow(q[i], q[j]) {
      LessIsBelow(q[i], q[j]);
    }
  }

  lemma LessIsBelow(a: bytes, b: bytes)
    ensures Less(a, b) <==> BytesBelow(a, b)
  {
    LessMeans(a, b);
  }

  /** The members of `s` in order: the library sort. */
  function SortedTerms(s: set<bytes>): (q: seq<bytes>)
    decreases |s|
  {
    if s == {} then [] else var m := Least(s); [m] + SortedTerms(s - {m})
  }

  lemma {:induction false} SortedTermsList(s: set<bytes>)
    ensures Sorted(SortedTerms(s)) && (forall x :: x in SortedTerms(s) <==> x in s) && |SortedTerms(s)| == |s|
    decreases |s|
  {
    if s != {} {
      var m := Least(s);
      var q := SortedTerms(s - {m});
      SortedTermsList(s - {m});
      forall i | 0 <= i < |q| ensures Less(m, q[i]) {
        assert q[i] in q;
      }
    }
  }
}
