/** Opening a term index by its bytes (terms_read.go): the header's fields, the router, and where the
    dictionary and the postings start. Parsing the router is a function. */
module TermOpen {
  import opened Wrappers
  import opened Bytes
  import opened Splits
  import opened FrontCoding
  import opened TermIndex
  import opened TermWritten
  import opened TermSearch

  datatype TermHeader = TermHeader(termCount: nat, boundary: nat, cap: nat, language: nat,
                                   stemmed: bool, stopwords: bool, caseSensitive: bool)

  type Load = bytes -> Option<seq<(bytes, nat)>>

  /** The part of a file from `lo` to `hi`, as far as the file goes. */
  function Part(file: bytes, lo: nat, hi: nat): bytes {
    var end := Min(hi, |file|);
    if lo <= end then file[lo..end] else []
  }

  function HeaderOf(file: bytes): TermHeader
    requires |file| >= 40
  {
    var flags := Field(file, 6, 2);
    TermHeader(Field(file, 8, 4), Field(file, 12, 4), Field(file, 32, 4), Field(file, 36, 1),
               flags % 2 == 1, flags / 2 % 2 == 1, flags / 4 % 2 == 1)
  }

  /** Reads and checks the header and the resident router; the rest is read when it is looked up. */
  function OpenTermIndex(file: bytes, load: Load): Result<(TermHeader, TermFile)> {
    if |file| < 40 then Err(Truncated)
    else if Field(file, 0, 4) != 0x49545252 then Err(BadMagic)
    else if Field(file, 4, 2) != 2 then Err(BadVersion)
    else
      var routerLen, dictLen := Field(file, 16, 8), Field(file, 24, 8);
      match BoundedRead(file, 40, routerLen)
      case None => Err(Truncated)
      case Some(raw) =>
        match load(raw)
        case None => Err(Malformed)
        case Some(router) =>
          var dictStart := 40 + routerLen;
          Ok((HeaderOf(file), TermFile(router, Part(file, dictStart, dictStart + dictLen),
                                       Part(file, dictStart + dictLen, |file|))))
  }

  /** The header that a writer of this format records. */
  function HeaderFor(fmt: Format, terms: nat): TermHeader {
    TermHeader(terms, fmt.boundary, DEFAULT_CAP, if fmt.stem || fmt.stopwords then fmt.language else 0,
               fmt.stem, fmt.stopwords, !fmt.caseNormalization)
  }

  /** The header's fields hold the counts and lengths of this file. */
  ghost predicate HeaderFits(fmt: Format, terms: nat, f: TermFile) {
    && terms < TWO_32 && fmt.boundary < TWO_32
    && |fmt.router(f.router)| < TWO_64 && |f.dict| < TWO_64
  }

  /** `load` parses what the router's serialiser writes. */
  ghost predicate Loads(fmt: Format, load: Load) {
    forall router :: load(fmt.router(router)) == Some(router)
  }

  lemma FlagBits(fmt: Format)
    ensures var flags := Flags(fmt);
            && flags < 8 && (flags % 2 == 1 <==> fmt.stem) && (flags / 2 % 2 == 1 <==> fmt.stopwords)
            && (flags / 4 % 2 == 1 <==> !fmt.caseNormalization)
  {
  }

  lemma HeaderField(fmt: Format, terms: nat, f: TermFile, k: nat)
    requires HeaderFits(fmt, terms, f) && k < 9
    ensures var file, h := Serialised(fmt, terms, f), HeaderFields(fmt, terms, |fmt.router(f.router)|, |f.dict|);
            Width(h, k) + h[k].n <= |file| && Field(file, Width(h, k), h[k].n) == h[k].v
  {
    var router := fmt.router(f.router);
    var file, h := Serialised(fmt, terms, f), HeaderFields(fmt, terms, |router|, |f.dict|);
    FieldsFit(fmt, terms, f);
    hide Layout, Width, Power, Field, HeaderFields, HeaderFits;
    assert file == [] + (Layout(h) + (router + (f.dict + f.posts)));
    LayoutField(file, [], h, router + (f.dict + f.posts), k);
  }

  lemma HeaderReads(fmt: Format, terms: nat, f: TermFile)
    requires HeaderFits(fmt, terms, f)
    ensures var file := Serialised(fmt, terms, f);
            && Field(file, 0, 4) == 0x49545252 && Field(file, 4, 2) == 2
            && Field(file, 16, 8) == |fmt.router(f.router)| && Field(file, 24, 8) == |f.dict|
            && HeaderOf(file) == HeaderFor(fmt, terms)
  {
    var router := |fmt.router(f.router)|;
    FlagBits(fmt);
    HeaderWidths(fmt, terms, router, |f.dict|);
    HeaderShape(fmt, terms, router, |f.dict|);
    hide Width, Field, HeaderFields, HeaderFits, Flags, Serialised;
    HeaderField(fmt, terms, f, 0);
    HeaderField(fmt, terms, f, 1);
    HeaderField(fmt, terms, f, 2);
    HeaderField(fmt, terms, f, 3);
    HeaderField(fmt, terms, f, 4);
    HeaderField(fmt, terms, f, 5);
    HeaderField(fmt, terms, f, 6);
    HeaderField(fmt, terms, f, 7);
    HeaderField(fmt, terms, f, 8);
  }

  lemma HeaderShape(fmt: Format, terms: nat, router: nat, dict: nat)
    ensures var h := HeaderFields(fmt, terms, router, dict);
            && h[0] == Fld(0x49545252, 4) && h[1] == Fld(2, 2) && h[2] == Fld(Flags(fmt), 2) && h[3] == Fld(terms, 4)
            && h[4] == Fld(fmt.boundary, 4) && h[5] == Fld(router, 8) && h[6] == Fld(dict, 8)
            && h[7] == Fld(DEFAULT_CAP, 4)
            && h[8] == Fld(if fmt.stem || fmt.stopwords then fmt.language else 0, 1)
  {
  }

  lemma FieldsFit(fmt: Format, terms: nat, f: TermFile)
    requires HeaderFits(fmt, terms, f)
    ensures var h := HeaderFields(fmt, terms, |fmt.router(f.router)|, |f.dict|);
            forall k :: 0 <= k < 9 ==> h[k].v < Power(h[k].n)
  {
    FlagBits(fmt);
    PowerLiterals();
    assert Power(1) == 256 * Power(0) == 256;
    hide Power, Flags;
  }

  /** The regions of a file that lie one after the other. */
  lemma PartsLie(head: bytes, a: bytes, b: bytes, c: bytes)
    ensures var file, at := head + (a + (b + c)), |head| + |a|;
            && ReadAt(file, |head|, |a|) == Some(a) && Part(file, at, at + |b|) == b
            && Part(file, at + |b|, |file|) == c
  {
    var file, at := head + (a + (b + c)), |head| + |a|;
    SliceMiddle(head, a, b + c);
    Assoc(head, a, b + c);
    SliceMiddle(head + a, b, c);
    Assoc(head + a, b, c);
    assert file == (head + a + b) + c && |head + a + b| == at + |b|;
    assert file[at + |b|..] == c;
    assert file[at + |b|..|file|] == file[at + |b|..];
  }

  /** A written index opens to its settings, router, dictionary and postings, unless its router passes
      one bounded read. */
  lemma OpensWritten(fmt: Format, terms: nat, f: TermFile, load: Load)
    requires HeaderFits(fmt, terms, f) && Loads(fmt, load)
    ensures OpenTermIndex(Serialised(fmt, terms, f), load)
            == if |fmt.router(f.router)| > MAX_READ then Err(Truncated) else Ok((HeaderFor(fmt, terms), f))
  {
    var router := fmt.router(f.router);
    HeaderReads(fmt, terms, f);
    HeaderSize(fmt, terms, |router|, |f.dict|);
    hide Layout, Field, HeaderFields, HeaderFits, HeaderOf;
    PartsLie(Layout(HeaderFields(fmt, terms, |router|, |f.dict|)), router, f.dict, f.posts);
  }

  // ----- over a written file's bytes -----

  /** The counts and lengths of the file of `m` fit its header. */
  ghost predicate FileFits(fmt: Format, m: TermMap, file: bytes) {
    |m| < TWO_32 && fmt.boundary < TWO_32 && |file| < TWO_64
  }

  /** A file of `m` opens to an index of `m`, unless its router passes one bounded read. */
  lemma OpensFile(fmt: Format, m: TermMap, file: bytes, load: Load) returns (f: TermFile, src: Source)
    requires IsFileOf(fmt, m, file) && FileFits(fmt, m, file) && Loads(fmt, load) && Faithful(fmt.codec)
    ensures Of(fmt.codec, f, src) && src.m == m && src.boundary == fmt.boundary && |file| >= 40
    ensures OpenTermIndex(file, load)
            == if Field(file, 16, 8) > MAX_READ then Err(Truncated) else Ok((HeaderFor(fmt, |m|), f))
  {
    hide IsWritten, Serialised, Loads;
    var g, groups :| IsWritten(fmt.codec, m, fmt.boundary, DEFAULT_CAP, g, groups) && file == Serialised(fmt, |m|, g);
    f, src := g, Source(m, fmt.boundary, DEFAULT_CAP, groups);
    HeaderReads(fmt, |m|, g);
    OpensWritten(fmt, |m|, g, load);
  }

  /** Looks a term up in a file. Over the written file of a map it finds exactly what the map holds; it
      fails when the router, or the term's posting, passes one bounded read. */
  method LookupFile(codec: Codec, file: bytes, load: Load, token: bytes, ghost fmt: Format, ghost m: TermMap)
    returns (r: Result<Option<set<nat>>>)
    requires IsFileOf(fmt, m, file) && FileFits(fmt, m, file) && Loads(fmt, load)
    requires codec == fmt.codec && Faithful(codec)
    ensures |file| >= 40
    ensures if Field(file, 16, 8) > MAX_READ then r.Err?
            else if token !in m then r == Ok(None)
            else if |codec.ser(HeadOf(m[token], fmt.boundary))| + |codec.ser(TermIndex.TailOf(m[token], fmt.boundary))|
              > MAX_READ then r.Err?
            else r == Ok(Some(m[token]))
  {
    hide IsFileOf, Loads, Of, OpenTermIndex, Field, HeadOf, TermIndex.TailOf;
    ghost var f, src := OpensFile(fmt, m, file, load);
    var index := OpenTermIndex(file, load);
    if index.Err? {
      return Err(index.error);
    }
    r := LookupTerm(codec, index.value.1, token, Some(src));
  }
}
