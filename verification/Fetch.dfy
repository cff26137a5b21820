/** Coalesced ranged reads of the Rust reader (rust/src/fetch.rs). Offsets and lengths are
    64-bit; `usize` is taken to be as wide. */
module Fetch {
  import opened Wrappers
  import opened Bytes
  import opened Coalesce

  predicate Fits64(ranges: seq<Range>) {
    forall i :: 0 <= i < |ranges| ==> ranges[i].off < TWO_64 && ranges[i].len < TWO_64
  }

  /** One read of a file held in memory. */
  function Read(file: bytes, off: nat, len: nat): Result<bytes> {
    if off + len <= |file| then Ok(file[off..off + len]) else Err(OutOfRange)
  }

  function SaturatingAdd(a: nat, b: nat): nat {
    if a + b < TWO_64 then a + b else TWO_64 - 1
  }

  ghost predicate Overflows(ranges: seq<Range>) {
    exists i :: 0 <= i < |ranges| && ranges[i].len != 0 && ranges[i].End() >= TWO_64
  }

  ghost predicate AllFit(ranges: seq<Range>, file: bytes) {
    forall i :: 0 <= i < |ranges| && ranges[i].len != 0 ==> ranges[i].End() <= |file|
  }

  /** The ranges that need a read at all. */
  ghost function NonEmpty(ranges: seq<Range>): set<Range> {
    set r | r in ranges && r.len != 0
  }

  ghost function NonEmptyAt(ranges: seq<Range>): set<nat> {
    set i: nat | i < |ranges| && ranges[i].len != 0
  }

  /** The non-empty ranges among the first `k` of the order: what the merging loops visit. */
  ghost function Picked(ranges: seq<Range>, order: seq<nat>, k: nat): seq<Range> {
    if k == 0 then []
    else Picked(ranges, order, k - 1) + if Visits(ranges, order, k - 1) then [ranges[order[k - 1]]] else []
  }

  /** The `k`-th index of the order is that of a non-empty range. */
  ghost predicate Visits(ranges: seq<Range>, order: seq<nat>, k: nat) {
    k < |order| && order[k] < |ranges| && ranges[order[k]].len != 0
  }

  lemma {:induction false} PickedSorted(ranges: seq<Range>, order: seq<nat>, k: nat)
    requires k <= |order| && Indexes(order, ranges)
    requires forall i, j :: 0 <= i < j < |order| ==> ranges[order[i]].off <= ranges[order[j]].off
    ensures SortedByOffset(Picked(ranges, order, k))
    ensures forall i, j :: 0 <= i < |Picked(ranges, order, k)| && k <= j < |order| ==>
              Picked(ranges, order, k)[i].off <= ranges[order[j]].off
  {
    if k > 0 {
      PickedSorted(ranges, order, k - 1);
    }
  }

  lemma {:induction false} PickedMembers(ranges: seq<Range>, order: seq<nat>, k: nat, r: Range)
    ensures r in Picked(ranges, order, k)
            <==> exists i :: 0 <= i < k && Visits(ranges, order, i) && ranges[order[i]] == r
  {
    if k > 0 {
      PickedMembers(ranges, order, k - 1, r);
    }
  }

  /** The indices of the non-empty ranges among the first `k` of the order. */
  ghost function NonEmptyAmong(ranges: seq<Range>, order: seq<nat>, k: nat): set<nat> {
    if k == 0 then {}
    else NonEmptyAmong(ranges, order, k - 1) + if Visits(ranges, order, k - 1) then {order[k - 1]} else {}
  }

  lemma {:induction false} AmongMembers(ranges: seq<Range>, order: seq<nat>, k: nat, x: nat)
    ensures x in NonEmptyAmong(ranges, order, k)
            <==> exists i :: 0 <= i < k && Visits(ranges, order, i) && order[i] == x
  {
    if k > 0 {
      AmongMembers(ranges, order, k - 1, x);
    }
  }

  lemma {:induction false} PickedSize(ranges: seq<Range>, order: seq<nat>, k: nat)
    requires forall i, j :: 0 <= i < j < |order| ==> order[i] != order[j]
    ensures |Picked(ranges, order, k)| == |NonEmptyAmong(ranges, order, k)|
  {
    if k > 0 {
      PickedSize(ranges, order, k - 1);
      if Visits(ranges, order, k - 1) {
        NotAmong(ranges, order, k - 1);
      }
    }
  }

  lemma NotAmong(ranges: seq<Range>, order: seq<nat>, k: nat)
    requires k < |order| && forall i, j :: 0 <= i < j < |order| ==> order[i] != order[j]
    ensures order[k] !in NonEmptyAmong(ranges, order, k)
  {
    hide NonEmptyAmong;
    AmongMembers(ranges, order, k, order[k]);
  }

  lemma {:induction false} PickedPrefix(ranges: seq<Range>, order: seq<nat>, j: nat, k: nat)
    requires j <= k
    ensures Picked(ranges, order, j) <= Picked(ranges, order, k)
  {
    if j < k {
      PickedPrefix(ranges, order, j, k - 1);
    }
  }

  /** What the merged reads come to, for ranges that do not overflow: as many reads as forced
      starts, more than `gap` apart, and at most `gap` extra bytes per read saved. */
  ghost predicate Economical(wave: seq<Span>, ranges: seq<Range>, gap: nat) {
    && |wave| == |Starts(NonEmpty(ranges), gap)|
    && |wave| <= |NonEmptyAt(ranges)|
    && Apart(wave, gap)
    && Total(wave) <= |Covered(NonEmpty(ranges))| + gap * (|NonEmptyAt(ranges)| - |wave|)
  }

  lemma PickedElements(ranges: seq<Range>, order: seq<nat>)
    requires Sorts(order, ranges)
    ensures Elements(Picked(ranges, order, |order|)) == NonEmpty(ranges)
  {
    hide Picked;
    forall r ensures r in Picked(ranges, order, |order|) <==> r in NonEmpty(ranges) {
      PickedMembers(ranges, order, |order|, r);
      if r in NonEmpty(ranges) {
        var x :| 0 <= x < |ranges| && ranges[x] == r;
        var i := PositionOf(order, ranges, x);
        assert Visits(ranges, order, i);
      }
    }
  }

  lemma PickedCount(ranges: seq<Range>, order: seq<nat>)
    requires Sorts(order, ranges)
    ensures |Picked(ranges, order, |order|)| == |NonEmptyAt(ranges)|
  {
    PickedSize(ranges, order, |order|);
    hide Picked, NonEmptyAmong;
    forall x: nat ensures x in NonEmptyAmong(ranges, order, |order|) <==> x in NonEmptyAt(ranges) {
      AmongMembers(ranges, order, |order|, x);
      if x in NonEmptyAt(ranges) {
        var i := PositionOf(order, ranges, x);
        assert Visits(ranges, order, i);
      }
    }
    assert NonEmptyAmong(ranges, order, |order|) == NonEmptyAt(ranges);
  }

  /** The ranges the loops visit are the non-empty ones, sorted. */
  ghost predicate SortedNonEmpty(rs: seq<Range>, ranges: seq<Range>) {
    SortedByOffset(rs) && Elements(rs) == NonEmpty(ranges) && |rs| == |NonEmptyAt(ranges)|
  }

  lemma PickedAll(ranges: seq<Range>, order: seq<nat>)
    requires Sorts(order, ranges)
    ensures SortedNonEmpty(Picked(ranges, order, |order|), ranges)
  {
    PickedSorted(ranges, order, |order|);
    hide Picked;
    PickedElements(ranges, order);
    PickedCount(ranges, order);
  }

  lemma PickedSpanCount(rs: seq<Range>, ranges: seq<Range>, gap: nat)
    requires SortedNonEmpty(rs, ranges)
    ensures |SpansOf(rs, gap)| == |Starts(NonEmpty(ranges), gap)|
  {
    hide SpansOf, Starts, Elements, NonEmpty, NonEmptyAt, SortedByOffset;
    SpanCount(rs, gap);
  }

  lemma SpansEconomical(rs: seq<Range>, ranges: seq<Range>, gap: nat)
    requires SortedNonEmpty(rs, ranges)
    ensures Economical(SpansOf(rs, gap), ranges, gap)
  {
    hide SpansOf, Starts, Covered, Elements, NonEmpty, NonEmptyAt, Apart, Total, SortedByOffset;
    SpanCount(rs, gap);
    SpansApart(rs, gap);
    OverRead(rs, gap);
  }

  lemma {:induction false} SpansStep(rs: seq<Range>, r: Range, gap: nat)
    ensures SpansOf(rs + [r], gap) == Extend(SpansOf(rs, gap), r, gap)
    ensures MaxEnd(rs + [r]) == Max(MaxEnd(rs), r.End())
    ensures rs != [] ==> SpansOf(rs, gap) != [] && SpansOf(rs, gap)[|SpansOf(rs, gap)| - 1].hi == MaxEnd(rs)
    ensures rs == [] ==> SpansOf(rs, gap) == [] && MaxEnd(rs) == 0
  {
    assert (rs + [r])[..|rs|] == rs;
    if rs != [] {
      LastEnd(rs, gap);
    }
  }

  /** How many reads the coalescer would issue, without issuing any. Saturated range ends leave the
      count exact. */
  method CoalescedSpanCount(ranges: seq<Range>, gap: nat) returns (spans: nat)
    requires Fits64(ranges) && gap < TWO_64
    ensures spans == |Starts(NonEmpty(ranges), gap)|
  {
    hide Sorts, SpansOf, MaxEnd, Starts, NonEmpty, Counts, Picked, SortedNonEmpty;
    var order := SortByOffset(ranges);
    PickedAll(ranges, order);
    PickedSpanCount(Picked(ranges, order, |order|), ranges, gap);
    spans := 0;
    var lastEnd: Option<nat> := None;
    ghost var rs: seq<Range> := [];
    CountStart(ranges, order, gap);
    for k := 0 to |order|
      invariant rs == Picked(ranges, order, k)
      invariant Counts(spans, lastEnd, rs, gap)
    {
      PickedStep(ranges, order, gap, k);
      var r := ranges[order[k]];
      if r.len != 0 {
        CountStep(spans, lastEnd, rs, ranges, order[k], gap);
        var end := SaturatingAdd(r.off, r.len);
        if lastEnd.Some? && r.off <= SaturatingAdd(lastEnd.value, gap) {
          lastEnd := Some(Max(end, lastEnd.value));
        } else {
          spans, lastEnd := spans + 1, Some(end);
        }
        rs := rs + [r];
      }
    }
    CountEnd(spans, lastEnd, rs, gap);
  }

  lemma CountStart(ranges: seq<Range>, order: seq<nat>, gap: nat)
    ensures Picked(ranges, order, 0) == [] && Counts(0, None, [], gap)
  {
  }

  lemma CountStep(spans: nat, lastEnd: Option<nat>, rs: seq<Range>, ranges: seq<Range>, i: nat, gap: nat)
    requires Fits64(ranges) && gap < TWO_64 && i < |ranges| && ranges[i].len != 0
    requires Counts(spans, lastEnd, rs, gap)
    ensures var r := ranges[i];
            var end := SaturatingAdd(r.off, r.len);
            if lastEnd.Some? && r.off <= SaturatingAdd(lastEnd.value, gap)
            then Counts(spans, Some(Max(end, lastEnd.value)), rs + [r], gap)
            else Counts(spans + 1, Some(end), rs + [r], gap)
  {
    hide SpansOf, MaxEnd;
    SpansStep(rs, ranges[i], gap);
  }

  lemma CountEnd(spans: nat, lastEnd: Option<nat>, rs: seq<Range>, gap: nat)
    requires Counts(spans, lastEnd, rs, gap)
    ensures spans == |SpansOf(rs, gap)|
  {
  }

  /** The counter stands where the spans of `rs` do: its end is theirs, or the largest offset there
      is when theirs passes it, which no later range tells apart. */
  ghost predicate Counts(spans: nat, lastEnd: Option<nat>, rs: seq<Range>, gap: nat) {
    && spans == |SpansOf(rs, gap)|
    && lastEnd == if rs == [] then None else Some(if MaxEnd(rs) < TWO_64 then MaxEnd(rs) else TWO_64 - 1)
  }

  /** The span index recorded for each non-empty range among the first `k` of the order. */
  ghost predicate Tracked(spanOf: map<nat, nat>, ranges: seq<Range>, order: seq<nat>, gap: nat, k: nat) {
    forall j :: 0 <= j < k && Visits(ranges, order, j) ==>
      order[j] in spanOf && spanOf[order[j]] == |SpansOf(Picked(ranges, order, j + 1), gap)| - 1
  }

  lemma MergeStart(ranges: seq<Range>, order: seq<nat>, gap: nat)
    ensures Picked(ranges, order, 0) == [] && SpansOf([], gap) == [] && Tracked(map[], ranges, order, gap, 0)
  {
  }

  lemma TrackStep(spanOf: map<nat, nat>, ranges: seq<Range>, order: seq<nat>, gap: nat, k: nat)
    requires Sorts(order, ranges) && k < |order| && Tracked(spanOf, ranges, order, gap, k)
    ensures if ranges[order[k]].len == 0 then Tracked(spanOf, ranges, order, gap, k + 1)
            else |SpansOf(Picked(ranges, order, k + 1), gap)| > 0 &&
                 Tracked(spanOf[order[k] := |SpansOf(Picked(ranges, order, k + 1), gap)| - 1],
                         ranges, order, gap, k + 1)
  {
    hide Picked, SpansOf;
    PickedSome(ranges, order, k);
  }

  lemma PickedSome(ranges: seq<Range>, order: seq<nat>, k: nat)
    requires k < |order| && Indexes(order, ranges)
    ensures ranges[order[k]].len != 0 ==> Picked(ranges, order, k + 1) != []
  {
  }

  lemma PickedStep(ranges: seq<Range>, order: seq<nat>, gap: nat, k: nat)
    requires k < |order| && Indexes(order, ranges)
    ensures var rs, r := Picked(ranges, order, k), ranges[order[k]];
            if r.len == 0 then Picked(ranges, order, k + 1) == rs
            else Picked(ranges, order, k + 1) == rs + [r] &&
                 SpansOf(rs + [r], gap) == Extend(SpansOf(rs, gap), r, gap)
  {
    SpansStep(Picked(ranges, order, k), ranges[order[k]], gap);
  }

  lemma {:induction false} SpansBelow64(rs: seq<Range>, gap: nat)
    requires Below64(rs) && SpansOf(rs, gap) != []
    ensures SpansOf(rs, gap)[|SpansOf(rs, gap)| - 1].hi < TWO_64
  {
    LastEnd(rs, gap);
    var top := MaxEndAttained(rs);
  }

  /** The first loop of the coalescer: the spans, and the span each non-empty range went to. */
  method MergeRanges(ranges: seq<Range>, gap: nat)
    returns (overflow: bool, spans: seq<Span>, spanOf: map<nat, nat>)
    requires Fits64(ranges) && gap < TWO_64
    ensures overflow <==> Overflows(ranges)
    ensures !overflow ==> Economical(spans, ranges, gap) && Assigned(spanOf, spans, ranges)
    ensures !overflow ==> forall file :: AllFit(ranges, file) ==> FitFile(spans, file)
  {
    hide Sorts, Economical, Assigned, AllFit, FitFile, Picked, SpansOf, Tracked, SortedNonEmpty;
    var order := SortByOffset(ranges);
    overflow, spans, spanOf := false, [], map[];
    ghost var rs: seq<Range> := [];
    MergeStart(ranges, order, gap);
    for k := 0 to |order|
      invariant rs == Picked(ranges, order, k) && spans == SpansOf(rs, gap)
      invariant Below64(rs) && Tracked(spanOf, ranges, order, gap, k)
    {
      PickedStep(ranges, order, gap, k);
      TrackStep(spanOf, ranges, order, gap, k);
      var i := order[k];
      var r := ranges[i];
      if r.len != 0 {
        if r.End() >= TWO_64 {
          return true, [], map[];
        }
        if spans != [] {
          SpansBelow64(rs, gap);
        }
        if spans != [] && r.off <= SaturatingAdd(spans[|spans| - 1].hi, gap) {
          if r.End() > spans[|spans| - 1].hi {
            spans := spans[|spans| - 1 := Span(spans[|spans| - 1].lo, r.End())];
          }
        } else {
          spans := spans + [Span(r.off, r.End())];
        }
        spanOf := spanOf[i := |spans| - 1];
        rs := rs + [r];
      }
    }
    PickedAll(ranges, order);
    SpansEconomical(rs, ranges, gap);
    PickedReads(spanOf, ranges, order, rs, gap);
  }

  ghost predicate Below64(rs: seq<Range>) {
    forall j :: 0 <= j < |rs| ==> rs[j].End() < TWO_64
  }

  /** Every non-empty range lies in the span recorded for it. */
  ghost predicate Assigned(spanOf: map<nat, nat>, spans: seq<Span>, ranges: seq<Range>) {
    forall i :: 0 <= i < |ranges| && ranges[i].len != 0 ==>
      i in spanOf && spanOf[i] < |spans| && Inside(ranges[i], spans[spanOf[i]])
  }

  ghost predicate FitFile(spans: seq<Span>, file: bytes) {
    forall t :: 0 <= t < |spans| ==> spans[t].hi <= |file|
  }

  lemma PickedReads(spanOf: map<nat, nat>, ranges: seq<Range>, order: seq<nat>, rs: seq<Range>, gap: nat)
    requires Sorts(order, ranges) && Tracked(spanOf, ranges, order, gap, |order|)
    requires rs == Picked(ranges, order, |order|) && SortedNonEmpty(rs, ranges) && Below64(rs)
    ensures Assigned(spanOf, SpansOf(rs, gap), ranges) && !Overflows(ranges)
    ensures forall file :: AllFit(ranges, file) ==> FitFile(SpansOf(rs, gap), file)
  {
    hide Picked, SpansOf, Inside, SortedNonEmpty;
    forall x | 0 <= x < |ranges| && ranges[x].len != 0
      ensures x in spanOf && spanOf[x] < |SpansOf(rs, gap)| && Inside(ranges[x], SpansOf(rs, gap)[spanOf[x]])
      ensures ranges[x].End() < TWO_64
    {
      var j := PositionOf(order, ranges, x);
      assert Visits(ranges, order, j);
      ReadInside(ranges, order, rs, gap, j);
      NonEmptyIn(rs, ranges, x);
    }
    forall file | AllFit(ranges, file) ensures FitFile(SpansOf(rs, gap), file) {
      FitsTogether(rs, ranges, gap, file);
    }
  }

  lemma NonEmptyIn(rs: seq<Range>, ranges: seq<Range>, x: nat)
    requires SortedNonEmpty(rs, ranges) && x < |ranges| && ranges[x].len != 0
    ensures exists j :: 0 <= j < |rs| && rs[j] == ranges[x]
  {
    assert ranges[x] in NonEmpty(ranges);
    assert ranges[x] in Elements(rs);
  }

  lemma FitsTogether(rs: seq<Range>, ranges: seq<Range>, gap: nat, file: bytes)
    requires SortedNonEmpty(rs, ranges) && AllFit(ranges, file)
    ensures FitFile(SpansOf(rs, gap), file)
  {
    forall j | 0 <= j < |rs| ensures rs[j].End() <= |file| {
      assert rs[j] in Elements(rs);
      assert rs[j] in NonEmpty(ranges);
    }
    SpansWithin(rs, gap, |file|, |file|);
  }

  lemma ReadInside(ranges: seq<Range>, order: seq<nat>, rs: seq<Range>, gap: nat, j: nat)
    requires j < |order| && Visits(ranges, order, j)
    requires rs == Picked(ranges, order, |order|) && SortedNonEmpty(rs, ranges)
    ensures var spans := SpansOf(rs, gap);
            var t := |SpansOf(Picked(ranges, order, j + 1), gap)| - 1;
            0 <= t < |spans| && Inside(ranges[order[j]], spans[t])
  {
    var upTo := Picked(ranges, order, j + 1);
    assert upTo == Picked(ranges, order, j) + [ranges[order[j]]];
    hide Picked, SpansOf, Inside;
    PickedPrefix(ranges, order, j + 1, |order|);
    RangeInside(rs, gap, |upTo| - 1);
    assert rs[..|upTo|] == upTo;
  }

  /** `bufs` holds the bytes of each span. */
  ghost predicate Loaded(bufs: seq<bytes>, spans: seq<Span>, file: bytes) {
    |bufs| == |spans| && FitFile(spans, file) && forall t :: 0 <= t < |spans| ==>
      spans[t].lo <= spans[t].hi && bufs[t] == file[spans[t].lo..spans[t].hi]
  }

  method ReadSpans(file: bytes, spans: seq<Span>) returns (r: Result<seq<bytes>>)
    requires forall t :: 0 <= t < |spans| ==> spans[t].lo <= spans[t].hi
    ensures if FitFile(spans, file) then r.Ok? && Loaded(r.value, spans, file) else r == Err(OutOfRange)
  {
    var bufs: seq<bytes> := [];
    for t := 0 to |spans|
      invariant Loaded(bufs, spans[..t], file)
    {
      var d := Read(file, spans[t].lo, spans[t].hi - spans[t].lo);
      if d.Err? {
        return Err(d.error);
      }
      bufs := bufs + [d.value];
    }
    assert spans[..|spans|] == spans;
    r := Ok(bufs);
  }

  lemma {:induction false} SliceOfSlice(file: bytes, s: Span, r: Range)
    requires Inside(r, s) && s.hi <= |file|
    ensures file[s.lo..s.hi][r.off - s.lo..r.off - s.lo + r.len] == file[r.off..r.End()]
  {
    var whole := file[s.lo..s.hi];
    var part := whole[r.off - s.lo..r.off - s.lo + r.len];
    assert forall k :: 0 <= k < r.len ==> part[k] == whole[r.off - s.lo + k] == file[r.off + k];
  }

  method SliceBack(bufs: seq<bytes>, spans: seq<Span>, spanOf: map<nat, nat>, ranges: seq<Range>, ghost file: bytes)
    returns (out: seq<bytes>)
    requires Loaded(bufs, spans, file) && Assigned(spanOf, spans, ranges)
    ensures AllFit(ranges, file) && Sliced(out, ranges, file)
  {
    out := [];
    for i := 0 to |ranges|
      invariant AllFit(ranges[..i], file) && Sliced(out, ranges[..i], file)
    {
      var r := ranges[i];
      if r.len == 0 {
        out := out + [[]];
      } else {
        var t := spanOf[i];
        var rel := r.off - spans[t].lo;
        SliceOfSlice(file, spans[t], r);
        out := out + [bufs[t][rel..rel + r.len]];
      }
    }
    assert ranges[..|ranges|] == ranges;
  }

  /** Reads every range, in one wave of merged reads. `wave` is what it issued. */
  method ReadCoalesced(file: bytes, ranges: seq<Range>, gap: nat)
    returns (r: Result<seq<bytes>>, wave: seq<Span>)
    requires Fits64(ranges) && gap < TWO_64 && |file| < TWO_64
    ensures Overflows(ranges) ==> wave == []
    ensures !Overflows(ranges) ==> Economical(wave, ranges, gap)
    ensures r.Ok? <==> AllFit(ranges, file)
    ensures r.Ok? ==> Sliced(r.value, ranges, file)
    ensures r.Err? ==> r.error == OutOfRange
  {
    var overflow, spans, spanOf := MergeRanges(ranges, gap);
    if overflow {
      return Err(OutOfRange), [];
    }
    var bufs := ReadSpans(file, spans);
    if bufs.Err? {
      return Err(bufs.error), spans;
    }
    hide Assigned, Loaded, Economical, Sliced, AllFit;
    var out := SliceBack(bufs.value, spans, spanOf, ranges, file);
    return Ok(out), spans;
  }

  /** `out` holds, range by range, what reading that range alone returns. */
  ghost predicate Sliced(out: seq<bytes>, ranges: seq<Range>, file: bytes)
    requires AllFit(ranges, file)
  {
    |out| == |ranges| && forall i :: 0 <= i < |ranges| ==>
      out[i] == if ranges[i].len == 0 then [] else file[ranges[i].off..ranges[i].End()]
  }
}
