/** The byte-capped term split builder (termsplitsetbuild.go), without facets. A document is its
    token list, and a split's file is the term index of its documents. */
module TermSplitBuilder {
  import opened Wrappers
  import opened Bytes
  import opened Inverted
  import opened Splits
  import opened SplitRun
  import opened TermWritten
  import TermIndex
  import TermOrder

  const NEW_TERM := 24
  const ELEMENT := 2
  const HEADER := 128

  datatype Config = Config(tiered: bool, byteCap: nat, capMax: nat)

  function Cap(cfg: Config, tier: nat): nat {
    CapFor(cfg.byteCap, cfg.capMax, tier)
  }

  // ----- the running estimate -----

  ghost function Costs(p: Postings<bytes>): map<bytes, nat> {
    map t | t in p :: NEW_TERM + |t| + ELEMENT * |p[t]|
  }

  /** What an open index has been charged. */
  ghost function Charged(p: Postings<bytes>): nat {
    Total<bytes>(Costs(p))
  }

  /** What a document's terms would add: a base and its bytes for a new term, an element for each. */
  function Marginal(p: Postings<bytes>, terms: seq<bytes>): nat {
    if terms == [] then 0
    else
      var t := terms[|terms| - 1];
      Marginal(p, terms[..|terms| - 1]) + ELEMENT + if t in p then 0 else NEW_TERM + |t|
  }

  ghost predicate Overflows(cfg: Config, part: seq<seq<bytes>>, terms: seq<bytes>, tier: nat) {
    HEADER + Charged(IndexOf(part)) + Marginal(IndexOf(part), terms) > Cap(cfg, tier)
  }

  /** What the index writer gives for these documents. */
  ghost function BytesOf(fmt: Format, part: seq<seq<bytes>>): bytes {
    match FileOf(fmt, IndexOf(part)) case Ok(b) => b case Err(_) => []
  }

  ghost function RulesOf(cfg: Config, fmt: Format): Rules<bytes> {
    Rules(cfg.tiered, (part, terms, tier) => Overflows(cfg, part, terms, tier),
          part => BytesOf(fmt, part), p => Charged(p))
  }

  /** What a document adds is charged exactly, term by term. */
  lemma ChargeOne(p: Postings<bytes>, d: nat, t: bytes)
    requires d !in At(p, t)
    ensures Charged(p[t := At(p, t) + {d}]) == Charged(p) + ELEMENT + if t in p then 0 else NEW_TERM + |t|
  {
    hide Total;
    var after := p[t := At(p, t) + {d}];
    TotalPut<bytes>(Costs(p), t, NEW_TERM + |t| + ELEMENT * (|At(p, t)| + 1));
    assert Costs(after) == Costs(p)[t := NEW_TERM + |t| + ELEMENT * (|At(p, t)| + 1)];
  }

  lemma ChargeNone()
    ensures Charged(map[]) == 0
  {
    assert Costs(map[]) == map[];
  }

  ghost predicate Distinct(terms: seq<bytes>) {
    forall i, j :: 0 <= i < j < |terms| ==> terms[i] != terms[j]
  }

  ghost predicate AllDistinct(docs: seq<seq<bytes>>) {
    forall i :: 0 <= i < |docs| ==> Distinct(docs[i])
  }

  lemma AllDistinctNext(docs: seq<seq<bytes>>, terms: seq<bytes>)
    requires AllDistinct(docs) && Distinct(terms)
    ensures AllDistinct(docs + [terms])
  {
    hide Distinct;
  }

  /** After the first `i` terms of document `d`. */
  ghost predicate Charging(p: Postings<bytes>, d: nat, terms: seq<bytes>, i: nat, now: Postings<bytes>) {
    && i <= |terms| && now == Insert(p, d, terms[..i])
    && Charged(now) == Charged(p) + Marginal(p, terms[..i])
  }

  lemma ChargingStep(p: Postings<bytes>, d: nat, terms: seq<bytes>, i: nat, now: Postings<bytes>)
    requires Charging(p, d, terms, i, now) && i < |terms| && Distinct(terms) && forall t :: t in p ==> d !in p[t]
    ensures var t := terms[i];
            && d !in At(now, t) && (t in now <==> t in p)
            && Charging(p, d, terms, i + 1, now[t := At(now, t) + {d}])
  {
    hide Insert, Charged, Distinct, Marginal, At;
    var t := terms[i];
    assert terms[..i + 1] == terms[..i] + [t];
    NewInInsert(p, d, terms, i);
    InsertNext(p, d, terms[..i], t);
    MarginalNext(p, terms, i);
    ChargeOne(now, d, t);
  }

  lemma NewInInsert(p: Postings<bytes>, d: nat, terms: seq<bytes>, i: nat)
    requires i < |terms| && Distinct(terms) && forall t :: t in p ==> d !in p[t]
    ensures var now, t := Insert(p, d, terms[..i]), terms[i];
            d !in At(now, t) && (t in now <==> t in p)
  {
    assert terms[i] !in terms[..i];
  }

  lemma ChargingStart(p: Postings<bytes>, d: nat, terms: seq<bytes>)
    ensures Charging(p, d, terms, 0, p)
  {
    assert terms[..0] == [];
    InsertNothing(p, d);
  }

  lemma {:induction false} ChargedExactly(p: Postings<bytes>, d: nat, terms: seq<bytes>, i: nat)
    requires i <= |terms| && Distinct(terms) && forall t :: t in p ==> d !in p[t]
    ensures Charging(p, d, terms, i, Insert(p, d, terms[..i]))
  {
    if i == 0 {
      ChargingStart(p, d, terms);
      assert terms[..0] == [];
      InsertNothing(p, d);
    } else {
      ChargedExactly(p, d, terms, i - 1);
      ChargingStep(p, d, terms, i - 1, Insert(p, d, terms[..i - 1]));
    }
  }

  // ----- the builder -----

  lemma MarginalNext(p: Postings<bytes>, terms: seq<bytes>, i: nat)
    requires i < |terms|
    ensures Marginal(p, terms[..i + 1]) == Marginal(p, terms[..i]) + ELEMENT
            + if terms[i] in p then 0 else NEW_TERM + |terms[i]|
  {
    assert terms[..i + 1][..i] == terms[..i];
  }

  lemma SortedDistinct(terms: seq<bytes>)
    requires TermOrder.Sorted(terms)
    ensures Distinct(terms)
  {
    forall i, j | 0 <= i < j < |terms| ensures terms[i] != terms[j] {
      TermOrder.LessNot(terms[i], terms[j]);
    }
  }

  lemma OpenIsNew(part: seq<seq<bytes>>)
    ensures forall t :: t in IndexOf(part) ==> |part| !in IndexOf(part)[t]
  {
  }

  lemma RulesMean(cfg: Config, fmt: Format, p: Postings<bytes>)
    ensures RulesOf(cfg, fmt).tiered == cfg.tiered && RulesOf(cfg, fmt).up(p) == Charged(p)
            && RulesOf(cfg, fmt).up(map[]) == 0
  {
    ChargeNone();
  }

  lemma OverflowMeans(cfg: Config, fmt: Format, docs: seq<seq<bytes>>, forced: set<nat>, s: State<bytes>,
                      terms: seq<bytes>)
    requires Consistent(RulesOf(cfg, fmt), docs, forced, s)
    ensures s.globalBase <= |docs| == s.nextId && s.up == Charged(s.open) && s.openCount == |docs| - s.globalBase
    ensures RulesOf(cfg, fmt).over(docs[s.globalBase..], terms, |s.specs|)
            <==> HEADER + s.up + Marginal(s.open, terms) > Cap(cfg, |s.specs|)
    ensures forall t :: t in s.open ==> s.openCount !in s.open[t]
  {
    hide Consistent;
    OpenMeans(RulesOf(cfg, fmt), docs, forced, s);
    StateMeans(RulesOf(cfg, fmt), docs, forced, s);
    OpenIsNew(docs[s.globalBase..]);
  }

  lemma BlobIs(cfg: Config, fmt: Format, docs: seq<seq<bytes>>, lo: nat, blob: bytes)
    ensures lo <= |docs| && FileOf(fmt, IndexOf(docs[lo..])) == Ok(blob) ==> RulesOf(cfg, fmt).blob(docs[lo..]) == blob
  {
    hide FileOf, IndexOf, Charged, Overflows;
  }

  lemma OpenSeals(cfg: Config, fmt: Format, docs: seq<seq<bytes>>, forced: set<nat>, s: State<bytes>, blob: bytes)
    requires Consistent(RulesOf(cfg, fmt), docs, forced, s) && s.openCount > 0 && FileOf(fmt, s.open) == Ok(blob)
    ensures Consistent(RulesOf(cfg, fmt), docs, forced + {|s.specs|}, AfterSeal(cfg.tiered, s, blob))
    ensures s.nextId == s.globalBase + s.openCount
  {
    hide FileOf, IndexOf, RulesOf, BytesOf, AfterSeal, Consistent, Tiles;
    RulesMean(cfg, fmt, map[]);
    BlobIs(cfg, fmt, docs, s.globalBase, blob);
    OpenMeans(RulesOf(cfg, fmt), docs, forced, s);
    StateMeans(RulesOf(cfg, fmt), docs, forced, s);
    SealStep(RulesOf(cfg, fmt), docs, forced, s, blob);
  }

  /** No file is empty, so each was accepted by the writer. */
  ghost predicate NoneEmpty(blobs: seq<bytes>) {
    forall i :: 0 <= i < |blobs| ==> blobs[i] != []
  }

  class TermSplitSetBuilder {
    const cfg: Config
    const fmt: Format
    var open: Postings<bytes>
    var openCount: nat
    var globalBase: nat
    var nextGlobalID: nat
    var bytesUpper: nat
    var specs: seq<Spec>
    var blobs: seq<bytes>
    ghost var docs: seq<seq<bytes>>
    ghost var forced: set<nat>

    ghost function Now(): State<bytes>
      reads this
    {
      State(open, openCount, globalBase, nextGlobalID, bytesUpper, specs, blobs)
    }

    ghost predicate Valid()
      reads this
    {
      Consistent(RulesOf(cfg, fmt), docs, forced, Now()) && AllDistinct(docs) && NoneEmpty(blobs)
    }

    constructor (cfg: Config, fmt: Format)
      ensures Valid() && this.cfg == cfg && this.fmt == fmt && docs == [] && forced == {}
    {
      this.cfg, this.fmt := cfg, fmt;
      open, openCount, globalBase, nextGlobalID, bytesUpper, specs, blobs := map[], 0, 0, 0, 0, [], [];
      docs, forced := [], {};
      RulesMean(cfg, fmt, map[]);
      StartsConsistent(RulesOf(cfg, fmt));
    }

    /** Appends a document and returns its ID, sealing the open split first when the document's
        terms would take the estimate past the cap. When that seal is refused nothing changes. */
    method AddTokens(tokens: seq<bytes>) returns (r: Result<nat>)
      requires Valid()
      modifies this
      ensures Valid() && forced == old(forced) && old(specs) <= specs && old(blobs) <= blobs
      ensures r.Ok? ==> r.value == |old(docs)| && docs == old(docs) + [TermOrder.SortedTerms(KeySet(tokens))]
      ensures r.Err? ==> Now() == old(Now()) && docs == old(docs) && old(openCount) > 0 && !Accepts(fmt, old(open))
    {
      hide Consistent, Tiles, RulesOf, Distinct, AllDistinct, TermOrder.Sorted;
      var terms := TermOrder.SortedTerms(KeySet(tokens));
      TermOrder.SortedTermsList(KeySet(tokens));
      SortedDistinct(terms);
      var ok := MakeRoom(terms);
      if ok.Err? {
        return Err(ok.error);
      }
      var id := Record(terms, old(forced));
      r := Ok(id);
    }

    /** Adds a document that the open split has room for. */
    method Record(terms: seq<bytes>, ghost kept: set<nat>) returns (id: nat)
      requires Valid() && Distinct(terms) && globalBase <= |docs|
      requires openCount > 0 ==> !RulesOf(cfg, fmt).over(docs[globalBase..], terms, |specs|)
      requires forall i :: 0 <= i < |specs| && i in forced && i !in kept ==>
                 specs[i].docIdHi + 1 == |docs| && RulesOf(cfg, fmt).over(Covered(docs, specs[i]), terms, i)
      modifies this
      ensures Valid() && forced == kept && id == |old(docs)| && docs == old(docs) + [terms]
      ensures specs == old(specs) && blobs == old(blobs)
    {
      hide Consistent, Tiles, RulesOf, Insert, Distinct, AllDistinct, Charged, IndexOf;
      ghost var ready := Now();
      OverflowMeans(cfg, fmt, docs, forced, ready, terms);
      InsertTerms(terms);
      RulesMean(cfg, fmt, open);
      openCount := openCount + 1;
      id := nextGlobalID;
      nextGlobalID := nextGlobalID + 1;
      AddStep(RulesOf(cfg, fmt), docs, forced, kept, ready, terms, open, bytesUpper);
      AllDistinctNext(docs, terms);
      docs := docs + [terms];
      forced := kept;
    }

    /** Seals the open split when `terms` would overflow it. */
    method MakeRoom(terms: seq<bytes>) returns (ok: Result<()>)
      requires Valid()
      modifies this
      ensures Valid() && docs == old(docs) && nextGlobalID == old(nextGlobalID)
      ensures old(specs) <= specs && old(blobs) <= blobs && globalBase <= |docs|
      ensures ok.Err? ==> Now() == old(Now()) && forced == old(forced) && old(openCount) > 0 && !Accepts(fmt, old(open))
      ensures ok.Ok? && openCount > 0 ==> !RulesOf(cfg, fmt).over(docs[globalBase..], terms, |specs|)
      ensures forall i :: 0 <= i < |specs| && i in forced && i !in old(forced) ==>
                specs[i].docIdHi + 1 == |docs| && RulesOf(cfg, fmt).over(Covered(docs, specs[i]), terms, i)
      ensures ok.Ok? && old(openCount) > 0 ==>
                (openCount == 0
                 <==> HEADER + Charged(old(open)) + Marginal(old(open), terms) > Cap(cfg, |old(specs)|))
      ensures ok.Ok? && old(openCount) > 0 && cfg.capMax == 0 ==>
                (openCount == 0 <==> HEADER + Charged(old(open)) + Marginal(old(open), terms) > cfg.byteCap)
    {
      hide Consistent, Tiles, RulesOf, AllDistinct, Charged, Marginal;
      ghost var before := Now();
      var marginal := CountMarginal(terms);
      StateMeans(RulesOf(cfg, fmt), docs, forced, before);
      OverflowMeans(cfg, fmt, docs, forced, before, terms);
      RulesMean(cfg, fmt, open);
      ok := Ok(());
      if openCount > 0 && HEADER + bytesUpper + marginal > Cap(cfg, |specs|) {
        ok := Seal();
        if ok.Ok? {
          JustSealed(RulesOf(cfg, fmt), docs, old(forced), before, terms, blobs[|blobs| - 1]);
          StateMeans(RulesOf(cfg, fmt), docs, forced, Now());
        }
      }
    }

    /** What the terms would add to the open split. */
    method CountMarginal(terms: seq<bytes>) returns (marginal: nat)
      ensures marginal == Marginal(open, terms)
    {
      marginal := 0;
      for i := 0 to |terms|
        invariant marginal == Marginal(open, terms[..i])
      {
        MarginalNext(open, terms, i);
        if terms[i] !in open {
          marginal := marginal + NEW_TERM + |terms[i]|;
        }
        marginal := marginal + ELEMENT;
      }
      assert terms[..|terms|] == terms;
    }

    /** Records the open document under each term, charging for the postings that grow. */
    method InsertTerms(terms: seq<bytes>)
      requires Distinct(terms) && bytesUpper == Charged(open) && forall t :: t in open ==> openCount !in open[t]
      modifies this`open, this`bytesUpper
      ensures open == Insert(old(open), openCount, terms) && bytesUpper == Charged(open)
    {
      hide Insert, Charged, Distinct;
      ChargingStart(open, openCount, terms);
      for i := 0 to |terms|
        invariant Charging(old(open), openCount, terms, i, open) && bytesUpper == Charged(open)
      {
        var t := terms[i];
        ChargingStep(old(open), openCount, terms, i, open);
        MarginalNext(old(open), terms, i);
        if openCount !in At(open, t) {
          bytesUpper := bytesUpper + ELEMENT;
          if t !in open {
            bytesUpper := bytesUpper + NEW_TERM + |t|;
          }
        }
        open := open[t := At(open, t) + {openCount}];
      }
      assert terms[..|terms|] == terms;
    }

    /** Writes the open split, if it holds documents, and starts an empty one. */
    method Seal() returns (ok: Result<()>)
      requires Valid()
      modifies this
      ensures Valid() && docs == old(docs)
      ensures ok.Err? ==> Now() == old(Now()) && forced == old(forced)
      ensures ok.Err? <==> old(openCount) > 0 && !Accepts(fmt, old(open))
      ensures ok.Ok? && old(openCount) == 0 ==> Now() == old(Now()) && forced == old(forced)
      ensures ok.Ok? && old(openCount) > 0 ==>
                |blobs| > 0 && Now() == AfterSeal(cfg.tiered, old(Now()), blobs[|blobs| - 1])
                  && forced == old(forced) + {|old(specs)|}
    {
      hide Consistent, Tiles, RulesOf, AllDistinct, Accepts, FileOf, IsFileOf;
      if openCount == 0 {
        return Ok(());
      }
      ghost var before := Now();
      var written := WriteFile(fmt, open);
      if written.Err? {
        return Err(written.error);
      }
      var blob := written.value;
      OpenSeals(cfg, fmt, docs, forced, before, blob);
      forced := forced + {|specs|};
      specs := specs + [RowOf(cfg.tiered, |specs|, globalBase, openCount, |blob|)];
      blobs := blobs + [blob];
      open, openCount, globalBase, bytesUpper := map[], 0, nextGlobalID, 0;
      ok := Ok(());
    }
  }

  /** Seals what is open and returns the rows and files; refuses when that seal is refused, or when
      one document alone is over its cap. */
  method Finish(b: TermSplitSetBuilder) returns (r: Result<(seq<Spec>, seq<bytes>)>)
    requires b.Valid()
    modifies b
    ensures b.Valid() && b.docs == old(b.docs)
    ensures r.Ok? ==> b.openCount == 0 && r.value == (b.specs, b.blobs)
    ensures r.Err?
            <==> (b.openCount > 0 && !Accepts(b.fmt, b.open))
                 || exists i :: 0 <= i < |b.specs| && b.specs[i].docCount == 1 && b.specs[i].byteSize > Cap(b.cfg, i)
  {
    hide Consistent;
    var ok := b.Seal();
    if ok.Err? {
      return Err(ok.error);
    }
    for i := 0 to |b.specs|
      invariant forall j :: 0 <= j < i ==> !(b.specs[j].docCount == 1 && b.specs[j].byteSize > Cap(b.cfg, j))
      invariant b.Valid() && b.docs == old(b.docs) && b.openCount == 0
    {
      if b.specs[i].docCount == 1 && b.specs[i].byteSize > Cap(b.cfg, i) {
        return Err(TooLarge);
      }
    }
    r := Ok((b.specs, b.blobs));
  }

  // ----- the estimate against the cap, and against the file -----

  /** The running estimate of a split of several documents never exceeds its cap. */
  lemma WithinCap(cfg: Config, fmt: Format, part: seq<seq<bytes>>, tier: nat)
    requires Fitted(RulesOf(cfg, fmt), part, tier) && |part| >= 2 && Distinct(part[|part| - 1])
    ensures HEADER + Charged(IndexOf(part)) <= Cap(cfg, tier)
  {
    var front, last := part[..|part| - 1], part[|part| - 1];
    assert part == front + [last];
    assert !RulesOf(cfg, fmt).over(part[..|part| - 1], part[|part| - 1], tier);
    OpenIsNew(front);
    IndexStep(front, last);
    hide IndexOf, Insert, Charged, Distinct, Fitted;
    ChargedExactly(IndexOf(front), |front|, last, |last|);
    assert last[..|last|] == last;
  }

  /** Every sealed split of several documents, and the open one, is within its cap, and so within the
      larger of the two configured: without `capMax`, within `byteCap`. */
  lemma RunWithinCap(cfg: Config, fmt: Format, docs: seq<seq<bytes>>, forced: set<nat>, s: State<bytes>)
    requires Consistent(RulesOf(cfg, fmt), docs, forced, s) && AllDistinct(docs)
    ensures var most := if cfg.byteCap < cfg.capMax then cfg.capMax else cfg.byteCap;
            forall i :: 0 <= i < |s.specs| && s.specs[i].docCount >= 2 ==>
              HEADER + Charged(IndexOf(Covered(docs, s.specs[i]))) <= Cap(cfg, i) <= most
    ensures s.openCount >= 2 ==>
              HEADER + s.up <= Cap(cfg, |s.specs|) <= if cfg.byteCap < cfg.capMax then cfg.capMax else cfg.byteCap
  {
    hide BytesOf, Fitted, Tiles, IndexOf, Distinct, Charged, Overflows, CapFor;
    forall i | 0 <= i < |s.specs| && s.specs[i].docCount >= 2
      ensures HEADER + Charged(IndexOf(Covered(docs, s.specs[i]))) <= Cap(cfg, i)
      ensures Cap(cfg, i) <= if cfg.byteCap < cfg.capMax then cfg.capMax else cfg.byteCap
    {
      assert SealedWell(RulesOf(cfg, fmt), docs, forced, s.specs[i], s.blobs[i], i);
      WithinCap(cfg, fmt, Covered(docs, s.specs[i]), i);
      CapAtMost(cfg.byteCap, cfg.capMax, i);
    }
    CapAtMost(cfg.byteCap, cfg.capMax, |s.specs|);
    if s.openCount >= 2 {
      WithinCap(cfg, fmt, docs[s.globalBase..], |s.specs|);
    }
  }

  /** The file of every sealed split is the term index of its own documents, and its row has its size. */
  lemma SealedIsFile(cfg: Config, fmt: Format, docs: seq<seq<bytes>>, forced: set<nat>, s: State<bytes>, i: nat)
    requires Consistent(RulesOf(cfg, fmt), docs, forced, s) && NoneEmpty(s.blobs) && i < |s.specs|
    ensures |s.blobs| == |s.specs| && s.specs[i].byteSize == |s.blobs[i]|
    ensures IsFileOf(fmt, IndexOf(Covered(docs, s.specs[i])), s.blobs[i])
  {
    hide IndexOf, Covered, Accepts, IsFileOf, Fitted, Overflows, Charged, OpenWell;
    assert SealedWell(RulesOf(cfg, fmt), docs, forced, s.specs[i], s.blobs[i], i);
  }

  // ----- the charge of one document -----

  function Lengths(terms: seq<bytes>): nat {
    if terms == [] then 0 else Lengths(terms[..|terms| - 1]) + |terms[|terms| - 1]|
  }

  lemma OneDocIndex(terms: seq<bytes>)
    ensures IndexOf([terms]).Keys == KeySet(terms) && forall t :: t in terms ==> IndexOf([terms])[t] == {0}
  {
    var docs := [terms];
    forall t ensures Holding(docs, t) == if t in terms then {0} else {} {
      assert docs[0] == terms;
    }
    forall t ensures t in IndexOf(docs) <==> t in terms {
      IndexAt(docs, t);
    }
  }

  lemma {:induction false} MarginalOfNew(terms: seq<bytes>)
    ensures Marginal(map[], terms) == (NEW_TERM + ELEMENT) * |terms| + Lengths(terms)
  {
    if terms != [] {
      MarginalOfNew(terms[..|terms| - 1]);
    }
  }

  /** One document is charged 26 bytes and the term's length for each term. */
  lemma OneDocCharged(terms: seq<bytes>)
    requires Distinct(terms)
    ensures Charged(IndexOf([terms])) == (NEW_TERM + ELEMENT) * |terms| + Lengths(terms)
  {
    IndexEmpty<bytes>();
    ChargeNone();
    assert [] + [terms] == [terms];
    IndexStep([], terms);
    assert terms[..|terms|] == terms;
    hide IndexOf, Insert, Charged, Distinct;
    ChargedExactly(map[], 0, terms, |terms|);
    MarginalOfNew(terms);
  }

  lemma {:induction false} DistinctCount(terms: seq<bytes>)
    requires Distinct(terms)
    ensures |KeySet(terms)| == |terms|
    decreases |terms|
  {
    if terms == [] {
      assert KeySet(terms) == {};
    } else {
      var front, t := terms[..|terms| - 1], terms[|terms| - 1];
      DistinctCount(front);
      assert t !in front;
      assert KeySet(terms) == KeySet(front) + {t} by { assert forall x :: x in terms <==> x in front || x == t; }
    }
  }
}
