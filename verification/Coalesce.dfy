/** Merging sorted byte ranges into spans: the rule that the Rust and the Go coalescer share
    (rust/src/fetch.rs, records.go), and what it guarantees whatever the order of ties. */
module Coalesce {
  import Ordered
  import Sorting

  datatype Range = Range(off: nat, len: nat) {
    function End(): nat { off + len }
  }

  /** A merged read `[lo, hi)`. */
  datatype Span = Span(lo: nat, hi: nat)

  ghost predicate SortedByOffset(rs: seq<Range>) {
    forall i, j :: 0 <= i < j < |rs| ==> rs[i].off <= rs[j].off
  }

  ghost predicate Indexes(order: seq<nat>, ranges: seq<Range>) {
    forall i :: 0 <= i < |order| ==> order[i] < |ranges|
  }

  /** What sorting the offsets yields, read off the ranges. */
  ghost predicate Sorts(order: seq<nat>, ranges: seq<Range>) {
    && Indexes(order, ranges)
    && (forall i, j :: 0 <= i < j < |order| ==> ranges[order[i]].off <= ranges[order[j]].off)
    && (forall i, j :: 0 <= i < j < |order| ==> order[i] != order[j])
    && (forall x :: 0 <= x < |ranges| ==> x in order)
  }

  method SortByOffset(ranges: seq<Range>) returns (order: seq<nat>)
    ensures Sorts(order, ranges) && Indexes(order, ranges)
  {
    var offs := seq(|ranges|, i requires 0 <= i < |ranges| => ranges[i].off);
    order := Sorting.SortIndices(offs);
  }

  lemma PositionOf(order: seq<nat>, ranges: seq<Range>, x: nat) returns (j: nat)
    requires Sorts(order, ranges) && x < |ranges|
    ensures j < |order| && order[j] == x
  {
    assert x in order;
    j :| 0 <= j < |order| && order[j] == x;
  }

  function Max(a: nat, b: nat): nat { if a > b then a else b }

  /** Joins `r` to the last span when at most `gap` bytes separate them. */
  function Extend(spans: seq<Span>, r: Range, gap: nat): seq<Span> {
    var n := |spans|;
    if n > 0 && r.off <= spans[n - 1].hi + gap then
      spans[n - 1 := Span(spans[n - 1].lo, Max(spans[n - 1].hi, r.End()))]
    else spans + [Span(r.off, r.End())]
  }

  /** The spans of ranges taken in the given order. */
  function SpansOf(rs: seq<Range>, gap: nat): (spans: seq<Span>)
    ensures rs != [] ==> spans != []
  {
    if rs == [] then [] else Extend(SpansOf(rs[..|rs| - 1], gap), rs[|rs| - 1], gap)
  }

  /** The bytes the spans fetch. */
  function Total(spans: seq<Span>): int {
    if spans == [] then 0 else Total(spans[..|spans| - 1]) + spans[|spans| - 1].hi - spans[|spans| - 1].lo
  }

  function MaxEnd(rs: seq<Range>): nat {
    if rs == [] then 0 else Max(MaxEnd(rs[..|rs| - 1]), rs[|rs| - 1].End())
  }

  lemma {:induction false} MaxEndBounds(rs: seq<Range>, k: nat)
    requires k < |rs|
    ensures rs[k].End() <= MaxEnd(rs)
  {
    if k < |rs| - 1 {
      MaxEndBounds(rs[..|rs| - 1], k);
    }
  }

  lemma {:induction false} MaxEndAttained(rs: seq<Range>) returns (k: nat)
    requires rs != []
    ensures k < |rs| && rs[k].End() == MaxEnd(rs)
  {
    k := |rs| - 1;
    if |rs| > 1 && MaxEnd(rs) != rs[k].End() {
      k := MaxEndAttained(rs[..|rs| - 1]);
    }
  }

  /** The last span ends where the furthest range ends. */
  lemma {:induction false} LastEnd(rs: seq<Range>, gap: nat)
    requires rs != []
    ensures SpansOf(rs, gap)[|SpansOf(rs, gap)| - 1].hi == MaxEnd(rs)
  {
    if |rs| > 1 {
      LastEnd(rs[..|rs| - 1], gap);
    }
  }

  /** The spans are apart by more than `gap`. */
  ghost predicate Apart(spans: seq<Span>, gap: nat) {
    && (forall t :: 0 <= t < |spans| ==> spans[t].lo <= spans[t].hi)
    && (forall s, t :: 0 <= s < t < |spans| ==> spans[s].hi + gap < spans[t].lo)
  }

  lemma {:induction false} SpansApart(rs: seq<Range>, gap: nat)
    ensures Apart(SpansOf(rs, gap), gap)
    decreases |rs|
  {
    if rs != [] {
      SpansApart(rs[..|rs| - 1], gap);
    }
  }

  ghost predicate Within(spans: seq<Span>, start: nat, end: nat) {
    forall t :: 0 <= t < |spans| ==> spans[t].lo <= start && spans[t].hi <= end
  }

  /** No span starts after the last range starts, or ends past every range's end. */
  lemma {:induction false} SpansWithin(rs: seq<Range>, gap: nat, start: nat, end: nat)
    requires forall k :: 0 <= k < |rs| ==> rs[k].off <= start && rs[k].End() <= end
    ensures Within(SpansOf(rs, gap), start, end)
    decreases |rs|
  {
    if rs != [] {
      SpansWithin(rs[..|rs| - 1], gap, start, end);
    }
  }

  ghost predicate Inside(r: Range, s: Span) {
    s.lo <= r.off && r.End() <= s.hi
  }

  /** The span the `k`-th range joins or opens. */
  function SpanIndex(rs: seq<Range>, gap: nat, k: nat): (t: nat)
    requires k < |rs|
  {
    |SpansOf(rs[..k + 1], gap)| - 1
  }

  lemma SpansLast(rs: seq<Range>, gap: nat)
    requires rs != []
    ensures SpansOf(rs, gap) == Extend(SpansOf(rs[..|rs| - 1], gap), rs[|rs| - 1], gap)
  {
  }

  /** Every range lies inside the span it was given. */
  lemma {:induction false} RangeInside(rs: seq<Range>, gap: nat, k: nat)
    requires SortedByOffset(rs) && k < |rs|
    ensures SpanIndex(rs, gap, k) < |SpansOf(rs, gap)|
    ensures Inside(rs[k], SpansOf(rs, gap)[SpanIndex(rs, gap, k)])
    decreases |rs|
  {
    hide SpansOf, MaxEnd;
    var front := rs[..|rs| - 1];
    SpansLast(rs, gap);
    if k < |front| {
      RangeInside(front, gap, k);
      assert front[..k + 1] == rs[..k + 1];
    } else {
      assert rs[..k + 1] == rs;
      SpansWithin(front, gap, rs[k].off, MaxEnd(rs)) by {
        forall i | 0 <= i < |front| ensures front[i].off <= rs[k].off && front[i].End() <= MaxEnd(rs) {
          MaxEndBounds(rs, i);
        }
      }
    }
  }

  // ----- the number of spans does not depend on the order of ties -----

  ghost function Elements(rs: seq<Range>): set<Range> {
    set r | r in rs
  }

  ghost predicate IsStart(rs: set<Range>, gap: nat, o: nat) {
    forall q :: q in rs && q.off < o ==> q.End() + gap < o
  }

  /** The offsets at which a span must start: more than `gap` past every range that starts
      earlier. It depends on the ranges alone, not on their order. */
  ghost function Starts(rs: set<Range>, gap: nat): set<nat> {
    set r | r in rs && IsStart(rs, gap, r.off) :: r.off
  }

  /** A range that starts at `o` or later has no say in whether `o` starts a span. */
  lemma StartsAppend(rs: set<Range>, r: Range, gap: nat)
    requires forall q :: q in rs ==> q.off <= r.off
    ensures Starts(rs + {r}, gap) == Starts(rs, gap) + if IsStart(rs, gap, r.off) then {r.off} else {}
  {
    forall q | q in rs + {r} ensures IsStart(rs + {r}, gap, q.off) <==> IsStart(rs, gap, q.off) {
    }
  }

  lemma ElementsAppend(rs: seq<Range>)
    requires rs != []
    ensures Elements(rs) == Elements(rs[..|rs| - 1]) + {rs[|rs| - 1]}
  {
    assert rs == rs[..|rs| - 1] + [rs[|rs| - 1]];
  }

  ghost predicate Joins(front: seq<Range>, r: Range, gap: nat) {
    front != [] && r.off <= MaxEnd(front) + gap
  }

  /** A new range opens a span exactly when it adds a forced start. */
  lemma OpensOrJoins(front: seq<Range>, r: Range, gap: nat)
    requires forall k :: 0 <= k < |front| ==> front[k].off <= r.off
    ensures var s, opens := Starts(Elements(front), gap), IsStart(Elements(front), gap, r.off);
            if Joins(front, r, gap) then opens ==> r.off in s
            else opens && r.off !in s
  {
    forall k | 0 <= k < |front| ensures front[k].End() <= MaxEnd(front) && front[k] in Elements(front) {
      MaxEndBounds(front, k);
    }
    if Joins(front, r, gap) {
      var top := MaxEndAttained(front);
      assert front[top].off < r.off || front[top].off == r.off;
    }
  }

  lemma StartsStep(rs: seq<Range>, gap: nat)
    requires rs != [] && SortedByOffset(rs)
    ensures var front, r := rs[..|rs| - 1], rs[|rs| - 1];
            |Starts(Elements(rs), gap)| == |Starts(Elements(front), gap)| + if Joins(front, r, gap) then 0 else 1
  {
    var front, r := rs[..|rs| - 1], rs[|rs| - 1];
    ElementsAppend(rs);
    StartsAppend(Elements(front), r, gap);
    OpensOrJoins(front, r, gap);
    if Joins(front, r, gap) {
      assert Starts(Elements(rs), gap) == Starts(Elements(front), gap);
    }
  }

  /** The number of spans is the number of forced starts. */
  lemma {:induction false} SpanCount(rs: seq<Range>, gap: nat)
    requires SortedByOffset(rs)
    ensures |SpansOf(rs, gap)| == |Starts(Elements(rs), gap)|
    decreases |rs|
  {
    if rs == [] {
      assert Starts(Elements(rs), gap) == {};
    } else {
      var front := rs[..|rs| - 1];
      SpanCount(front, gap);
      StartsStep(rs, gap);
      if front != [] {
        LastEnd(front, gap);
      }
    }
  }

  // ----- how much is read beyond the ranges -----

  ghost function Interval(a: nat, b: nat): set<nat>
    decreases b
  {
    if b <= a then {} else Interval(a, b - 1) + {b - 1}
  }

  lemma {:induction false} IntervalFacts(a: nat, b: nat)
    requires a <= b
    ensures |Interval(a, b)| == b - a
    ensures forall x :: x in Interval(a, b) <==> a <= x < b
    decreases b
  {
    if a < b {
      IntervalFacts(a, b - 1);
    }
  }

  /** The bytes some range asks for. */
  ghost function Covered(rs: set<Range>): set<nat> {
    set r, b | r in rs && b in Interval(r.off, r.End()) :: b
  }

  lemma CoveredAppend(rs: set<Range>, r: Range)
    ensures Covered(rs + {r}) == Covered(rs) + Interval(r.off, r.End())
  {
    var both := Covered(rs) + Interval(r.off, r.End());
    forall b | b in both ensures b in Covered(rs + {r}) {
      if b in Covered(rs) {
        var q :| q in rs && b in Interval(q.off, q.End());
        assert q in rs + {r};
      } else {
        assert r in rs + {r};
      }
    }
  }

  lemma CoveredBelow(rs: seq<Range>)
    ensures forall b :: b in Covered(Elements(rs)) ==> b < MaxEnd(rs)
  {
    forall b | b in Covered(Elements(rs)) ensures b < MaxEnd(rs) {
      var q :| q in Elements(rs) && b in Interval(q.off, q.End());
      IntervalFacts(q.off, q.End());
      var k :| 0 <= k < |rs| && rs[k] == q;
      MaxEndBounds(rs, k);
    }
  }

  /** A range adds at least the bytes it has past everything covered so far. */
  lemma NewBytes(front: seq<Range>, r: Range, start: nat)
    requires r.off <= start <= r.End() && MaxEnd(front) <= start
    ensures |Covered(Elements(front) + {r})| >= |Covered(Elements(front))| + r.End() - start
  {
    var before, added := Covered(Elements(front)), Interval(start, r.End());
    CoveredAppend(Elements(front), r);
    CoveredBelow(front);
    IntervalFacts(start, r.End());
    IntervalFacts(r.off, r.End());
    SubsetSize(before + added, Covered(Elements(front) + {r}));
  }

  lemma {:induction false} SubsetSize(a: set<nat>, b: set<nat>)
    requires a <= b
    ensures |a| <= |b|
    decreases a
  {
    if x :| x in a {
      SubsetSize(a - {x}, b - {x});
    }
  }

  /** A range that joins the last span: the bytes newly fetched are new to the union, up to `gap`. */
  lemma JoinCost(rs: seq<Range>, gap: nat)
    requires rs != [] && Joins(rs[..|rs| - 1], rs[|rs| - 1], gap)
    ensures var front := rs[..|rs| - 1];
            |Covered(Elements(rs))| + gap >= |Covered(Elements(front))| + MaxEnd(rs) - MaxEnd(front)
  {
    var front, r := rs[..|rs| - 1], rs[|rs| - 1];
    ElementsAppend(rs);
    if r.End() > MaxEnd(front) {
      NewBytes(front, r, Max(r.off, MaxEnd(front)));
    } else {
      CoveredAppend(Elements(front), r);
      SubsetSize(Covered(Elements(front)), Covered(Elements(rs)));
    }
  }

  lemma OpenCost(rs: seq<Range>, gap: nat)
    requires rs != [] && !Joins(rs[..|rs| - 1], rs[|rs| - 1], gap)
    ensures |Covered(Elements(rs))| >= |Covered(Elements(rs[..|rs| - 1]))| + rs[|rs| - 1].len
  {
    ElementsAppend(rs);
    NewBytes(rs[..|rs| - 1], rs[|rs| - 1], rs[|rs| - 1].off);
  }

  /** What the last range does to the number of spans and to the bytes fetched. */
  lemma TotalStep(rs: seq<Range>, gap: nat)
    requires rs != []
    ensures var front, r := rs[..|rs| - 1], rs[|rs| - 1];
            if Joins(front, r, gap)
            then |SpansOf(rs, gap)| == |SpansOf(front, gap)| &&
                 Total(SpansOf(rs, gap)) == Total(SpansOf(front, gap)) + MaxEnd(rs) - MaxEnd(front)
            else |SpansOf(rs, gap)| == |SpansOf(front, gap)| + 1 &&
                 Total(SpansOf(rs, gap)) == Total(SpansOf(front, gap)) + r.len
  {
    var front, r := rs[..|rs| - 1], rs[|rs| - 1];
    var spans := SpansOf(front, gap);
    if front != [] {
      LastEnd(front, gap);
    }
    assert MaxEnd(rs) == Max(MaxEnd(front), r.End());
    hide Total, MaxEnd;
    if Joins(front, r, gap) {
      TotalReplaced(spans, Span(spans[|spans| - 1].lo, Max(spans[|spans| - 1].hi, r.End())));
    } else {
      TotalAppended(spans, Span(r.off, r.End()));
    }
  }

  lemma TotalReplaced(spans: seq<Span>, s: Span)
    requires spans != []
    ensures var last := spans[|spans| - 1];
            Total(spans[|spans| - 1 := s]) == Total(spans) - (last.hi - last.lo) + (s.hi - s.lo)
  {
    var all := spans[|spans| - 1 := s];
    assert all[..|all| - 1] == spans[..|spans| - 1];
  }

  lemma TotalAppended(spans: seq<Span>, s: Span)
    ensures Total(spans + [s]) == Total(spans) + (s.hi - s.lo)
  {
    assert (spans + [s])[..|spans|] == spans;
  }

  /** Over-read: the spans fetch at most `gap` extra bytes for every range they save a read on. */
  lemma {:induction false} OverRead(rs: seq<Range>, gap: nat)
    ensures |SpansOf(rs, gap)| <= |rs|
    ensures Total(SpansOf(rs, gap)) <= |Covered(Elements(rs))| + gap * (|rs| - |SpansOf(rs, gap)|)
    decreases |rs|
  {
    if rs != [] {
      hide *;
      var front := rs[..|rs| - 1];
      OverRead(front, gap);
      TotalStep(rs, gap);
      var total, total' := Total(SpansOf(front, gap)), Total(SpansOf(rs, gap));
      var covered, covered' := |Covered(Elements(front))|, |Covered(Elements(rs))|;
      var saved, saved' := |front| - |SpansOf(front, gap)|, |rs| - |SpansOf(rs, gap)|;
      if Joins(front, rs[|rs| - 1], gap) {
        JoinCost(rs, gap);
        SavedOneMore(gap, total, covered, saved, total', covered', saved');
      } else {
        OpenCost(rs, gap);
        assert saved' == saved;
      }
    }
  }

  lemma SavedOneMore(gap: nat, total: int, covered: nat, saved: int, total': int, covered': nat, saved': int)
    requires total <= covered + gap * saved && saved' == saved + 1
    requires total' - total <= covered' - covered + gap
    ensures total' <= covered' + gap * saved'
  {
    assert gap * (saved + 1) == gap * saved + gap;
  }

  // ----- the spans themselves do not depend on the order of ties -----

  function LoSeq(spans: seq<Span>): (q: seq<nat>)
    ensures |q| == |spans| && forall t :: 0 <= t < |q| ==> q[t] == spans[t].lo
  {
    seq(|spans|, t requires 0 <= t < |spans| => spans[t].lo)
  }

  ghost function Los(spans: seq<Span>): set<nat> {
    set t: nat | t < |spans| :: spans[t].lo
  }

  lemma LosExtend(spans: seq<Span>, r: Range, gap: nat)
    ensures Los(Extend(spans, r, gap)) ==
            Los(spans) + if spans != [] && r.off <= spans[|spans| - 1].hi + gap then {} else {r.off}
  {
    var out, n := Extend(spans, r, gap), |spans|;
    assert forall t :: 0 <= t < n ==> out[t].lo == spans[t].lo;
    forall o | o in Los(spans) ensures o in Los(out) {
      var t: nat :| t < n && spans[t].lo == o;
      assert out[t].lo == o;
    }
    if |out| > n {
      assert out[n].lo == r.off;
    }
  }

  /** The spans start exactly at the forced starts. */
  lemma {:induction false} LosAreStarts(rs: seq<Range>, gap: nat)
    requires SortedByOffset(rs)
    ensures Los(SpansOf(rs, gap)) == Starts(Elements(rs), gap)
    decreases |rs|
  {
    if rs == [] {
      assert Starts(Elements(rs), gap) == {};
    } else {
      var front, r := rs[..|rs| - 1], rs[|rs| - 1];
      LosAreStarts(front, gap);
      LosExtend(SpansOf(front, gap), r, gap);
      ElementsAppend(rs);
      StartsAppend(Elements(front), r, gap);
      OpensOrJoins(front, r, gap);
      if front != [] {
        LastEnd(front, gap);
      }
      hide Starts, Elements, Los;
    }
  }

  lemma SameStarts(spans: seq<Span>, spans': seq<Span>, gap: nat)
    requires Apart(spans, gap) && Apart(spans', gap) && Los(spans) == Los(spans')
    ensures LoSeq(spans) == LoSeq(spans')
  {
    LoSeqLists(spans, gap);
    LoSeqLists(spans', gap);
    Ordered.AscendingUnique(Los(spans), LoSeq(spans));
    Ordered.AscendingUnique(Los(spans), LoSeq(spans'));
  }

  lemma LoSeqLists(spans: seq<Span>, gap: nat)
    requires Apart(spans, gap)
    ensures Ordered.Lists(LoSeq(spans), Los(spans))
  {
    forall x: nat ensures x in Los(spans) <==> x in LoSeq(spans) {
      if x in Los(spans) {
        var t: nat :| t < |spans| && spans[t].lo == x;
        assert LoSeq(spans)[t] == x;
      }
    }
  }

  /** A span ends where one of the ranges inside it ends. */
  lemma {:induction false} EndAttained(rs: seq<Range>, gap: nat, t: nat) returns (k: nat)
    requires SortedByOffset(rs) && t < |SpansOf(rs, gap)|
    ensures k < |rs| && Inside(rs[k], SpansOf(rs, gap)[t]) && rs[k].End() == SpansOf(rs, gap)[t].hi
    decreases |rs|
  {
    var front := rs[..|rs| - 1];
    if t < |SpansOf(front, gap)| && SpansOf(front, gap)[t].hi == SpansOf(rs, gap)[t].hi {
      k := EndAttained(front, gap, t);
    } else {
      k := |rs| - 1;
      assert rs[..k + 1] == rs;
      RangeInside(rs, gap, k);
    }
  }

  lemma EndsAtMost(rs: seq<Range>, rs': seq<Range>, gap: nat, t: nat)
    requires SortedByOffset(rs) && SortedByOffset(rs') && Elements(rs) == Elements(rs')
    requires LoSeq(SpansOf(rs, gap)) == LoSeq(SpansOf(rs', gap)) && t < |SpansOf(rs, gap)|
    ensures |SpansOf(rs, gap)| == |SpansOf(rs', gap)| && SpansOf(rs, gap)[t].hi <= SpansOf(rs', gap)[t].hi
  {
    var spans, spans' := SpansOf(rs, gap), SpansOf(rs', gap);
    assert |LoSeq(spans)| == |LoSeq(spans')|;
    assert forall u :: 0 <= u < |spans| ==> LoSeq(spans)[u] == LoSeq(spans')[u];
    var k := EndAttained(rs, gap, t);
    assert rs[k] in Elements(rs) && rs[k] in Elements(rs');
    var k' :| 0 <= k' < |rs'| && rs'[k'] == rs[k];
    RangeInside(rs', gap, k');
    SpansApart(rs, gap);
    SpansApart(rs', gap);
    hide SpansOf, SortedByOffset, LoSeq, Elements;
    var u := SpanIndex(rs', gap, k');
    assert !(u < t) && !(t < u);
  }

  /** Two sorted orders of the same ranges merge into the same spans. */
  lemma SpansUnique(rs: seq<Range>, rs': seq<Range>, gap: nat)
    requires SortedByOffset(rs) && SortedByOffset(rs') && Elements(rs) == Elements(rs')
    ensures SpansOf(rs, gap) == SpansOf(rs', gap)
  {
    hide SortedByOffset, Elements, SpansOf, Los, Apart;
    LosAreStarts(rs, gap);
    LosAreStarts(rs', gap);
    SpansApart(rs, gap);
    SpansApart(rs', gap);
    SameStarts(SpansOf(rs, gap), SpansOf(rs', gap), gap);
    assert |LoSeq(SpansOf(rs, gap))| == |LoSeq(SpansOf(rs', gap))|;
    forall t | 0 <= t < |SpansOf(rs, gap)| ensures SpansOf(rs, gap)[t] == SpansOf(rs', gap)[t] {
      EndsAtMost(rs, rs', gap, t);
      EndsAtMost(rs', rs, gap, t);
      assert LoSeq(SpansOf(rs, gap))[t] == LoSeq(SpansOf(rs', gap))[t];
    }
  }
}
