# roaringrange: a verified model

roaringrange serves search over static files by byte-range reads: an n-gram index and a term index over
roaring postings, a BM25 impact sidecar, a positional record store, and several builders that must write the
same bytes. Almost every part comes twice, in a simple form and in a fast, batched or streamed form that has
to agree with it. This project models both forms of each and proves the agreement. Documents, files and
queries are arbitrary; nothing is bounded unless a line under "Left out" says so.

Five groups of modules follow the repository's own parts.

- **Range reads.** `Coalesce` (the span rule both coalescers share), `Fetch` (rust/src/fetch.rs), `Records`
  (records.go) and `FetchWindow` (rust/src/fetch_window.rs: a gate, the operations on it, and every
  interleaving of polls, cancellations, releases and limit changes).
- **The n-gram index.** `RangeIndex` (byte layout and writers), `RangeReader` (open, lookup, batched lookup),
  `Inverted` (what an index of a corpus means), `Splits`, `SplitRun`, `SplitBuilder`, `SealSize` (the greedy
  byte-capped split builder and its size arithmetic), `SplitSearch` (searching the files of a finished builder),
  `Slicer` and `Agreement` (slicing a monolith equals building the splits), `PartialMerge`, `ChunkMerge` and
  `ChunkBuild` (chunk partials, their streaming merge, and the whole chunked build), `Bloom`, `Ngram`.
- **The term index.** `FrontCoding` (varints, block writer, decoder), `TermIndex` (the writer), `TermWritten`
  (the writer's file as a function of its map), `TermOpen` (opening a file by its bytes), `TermSearch` (exact
  lookup, prefix scan, prefix search, dictionary), `TermQuery` (resolving a query), `TermSplitBuilder`, `TermSealSize` (its estimate against the file
  written), `TieredSearch` (the descent over a term-bodied split set), `TermSlicer`.
- **BM25.** `Impacts` and `Sidecar` (statistics, sidecar file, both row searches), `MinMatch`, `Bm25`,
  `Bm25Search` (merge, rerank, the two head-first searches), `ImpactAddressing`, `ImpactRuns`, `ImpactMerge`,
  `OutOfCore` (the out-of-core build), and `CorpusSearch`, which joins the term index, the sidecar and the
  searches: over files that the writers wrote, each search returns a ranking stated on the documents alone.
- **The ranked build.** `RankedBuild` and `RankedEmit` (examples/openalex/stream.go).

`Bytes`, `Ordered`, `Sorting`, `TermOrder` and `Wrappers` hold what these share. The source's mutable objects
are classes (`FetchGate`, `RecordWriter`, `SplitSetBuilder`, `TermSplitSetBuilder`, `RrsStreamWriter`,
`PartialCursor`, `DictBlockWriter`, `ImpactsAccumulator`, `RunReader`, `NgramKeyer`, `TrigramMonolithBuilder`);
its loops are loops with invariants, proved against functions about which the lemmas then speak.

## Where the code and its promises part

Each of these is proved: an input that fails, and the exact condition where the code does what is promised.

- `GetMany` is documented to return what `Get` returns for each id (records.go:279-285). It also fails when a
  merged span is longer than one bounded read, 1 GiB, although every single record reads:
  `Records.GetManyFallsShort` gives 17 adjacent records; `Records.GetMany` states when it succeeds.
- `geometric_ranges` never ends when `base` is 0 or `max` is 0 and documents remain; its first range is not
  capped at `max` (rust/examples/slice_trigram_monolith.rs:82-93). `Slicer.RangesEnd` is the exact condition,
  `Slicer.ZeroNeverEnds` follows the cursor for a zero `base` and for a zero `max`.
- "`min_match == M` reproduces `search_bm25` exactly" (rust/src/bm25.rs:413), with M the number of query terms, holds
  if and only if every term is in the dictionary, or the terms that are have no document in common, or `m` or `k` is
  zero: `Bm25Search.StrictOnlyWhenResolved` for resolved terms, `CorpusSearch.LenientIsStrict` for tokens over
  documents. `CorpusSearch.LenientFindsMore`: one document `a`, query `a b`. With M the number of terms that
  resolve it always holds when all do: `Bm25Search.AllTermsIsStrict`.
- The trigram builder's marginal charge leaves out the growth of the sparse index, so a sealed split's estimate
  can pass its cap: `SealSize.EstimatePassesCap`, with the exact growth in `SealSize.EstimateExactly` and the
  bound that does hold in `SplitBuilder.RunBounded`. The written file is within the estimate for every split of
  at most 262,144 documents and for no larger bound: `SealSize.EstimateHoldsExactly`.
- The term builder's estimate is called an upper bound on the split's serialized size (termsplitsetbuild.go:163-166)
  and is not one. `TermSealSize.FileAgainstEstimate` gives the exact difference between file and estimate for any
  documents, so the estimate bounds the file if and only if that is at most zero, `TermSealSize.SealedAgainstEstimate` for every sealed split of every run,
  `TermSealSize.SmallSplitExactly` the condition up to 4,096 documents, `TermSealSize.EstimateFallsShort` a failing
  family that is read off the terms alone, and `TermSealSize.TwelveTermsFallShort` one document.
- `write_partial` sorts and does not look for equal keys. The merge's first pass counts distinct keys and its
  second writes one row a round; the two counts are equal if and only if no partial repeats a key:
  `PartialMerge.CountsAgree`; `PartialMerge.RepeatedKeyCounted` is one list with a key twice.
- The out-of-core impact build caps a frequency at 255. For a given scoring configuration it equals the in-memory
  build if and only if no term's byte changes under the cap: `OutOfCore.OutOfCoreAgrees`. It does for every
  configuration when no frequency passes 255 (`OutOfCore.NoneCappedAgrees`), and does not for the default one over
  one document with a term a thousand times (`OutOfCore.ThousandCopiesDiffer`).
- The record alignment check of the ranked build fires unless the works with a record are an initial run of the
  ranks, so records missing from the end go unseen: `RankedEmit.AlignedMeans`, `RankedEmit.MissingTailUnseen`.
- `merge` of the impact runs and `write_impacts` accept different inputs: the first refuses a run term that the
  dictionary lacks (`ImpactMerge.Merge`), the second a corpus without documents and offsets out of order. Where one
  accepts, `OutOfCore.AcceptedByOne` says exactly when the other does.

## Model

| member | source | states |
|---|---|---|
| FetchWindow.FetchGate.Poll | rust/src/fetch_window.rs:104-124 | a poll takes a slot when the limit allows and otherwise parks the waiter once, under its latest waker |
| FetchWindow.FetchGate.Release | rust/src/fetch_window.rs:71-96 | a dropped permit frees one slot and wakes every parked waiter |
| FetchWindow.FetchGate.Retain | rust/src/fetch_window.rs:126-135 | a dropped acquisition removes its own queue entry and no other |
| FetchWindow.WithoutIs | rust/src/fetch_window.rs:126-135 | the queue without an acquisition's entry is the queue with that entry cut out, the rest in order |
| FetchWindow.FetchGate.SetLimit | rust/src/fetch_window.rs:44-49 | a new limit wakes every parked waiter, so each re-checks |
| FetchWindow.StepIsSafe | rust/src/fetch_window.rs:44-135 | every step keeps the invariant: active slots are the live permits, queued ids are distinct and live, a non-empty queue means a full non-zero window, and a waiter whose last poll was pending is queued or woken; only a poll grants, and never past a non-zero limit |
| FetchWindow.ReachableIsSafe | rust/src/fetch_window.rs:23-135 | the invariant holds after every run of acquires, polls, cancellations, releases and limit changes from a new gate |
| FetchWindow.ProgressDecreases | rust/src/fetch_window.rs:71-135 | each poll of a runnable waiter and each release lowers (2 x waiting + permits, runnable) lexicographically |
| FetchWindow.QuiescentMeansServed | rust/src/fetch_window.rs:71-135 | no lost wake-up: with no permit out and nobody runnable, nobody is waiting |
| FetchWindow.ProgressRunsEnd | rust/src/fetch_window.rs:71-135 | without new arrivals every schedule ends within a bound, and where it can go no further every waiter has been served |
| Coalesce.SpanCount | rust/src/fetch.rs:154-177 | the number of spans depends on the set of ranges only: it counts the offsets that lie more than the gap past everything before them |
| Coalesce.SpansUnique | rust/src/fetch.rs:179-226 | two sorted orders of the same ranges, ties broken differently, merge into the same spans |
| Coalesce.SpansApart | rust/src/fetch.rs:200-220 | spans are disjoint and further apart than the gap |
| Coalesce.RangeInside | rust/src/fetch.rs:200-220 | each range lies inside the span it was assigned |
| Coalesce.OverRead | rust/src/fetch.rs:142-153 | bytes fetched exceed the union of the ranges by at most the gap for each read saved |
| Fetch.CoalescedSpanCount | rust/src/fetch.rs:158-177 | the predicted number of reads is the number of forced starts, for ranges that pass 64 bits too |
| Fetch.MergeRanges | rust/src/fetch.rs:179-226 | the merging loop yields an economical wave and the span of each range, and reports an overflow exactly when some end passes 64 bits |
| Fetch.ReadCoalesced | rust/src/fetch.rs:179-250 | the coalesced read succeeds exactly when every single read would, returns each range's own bytes, and issues no more reads and bytes than the span rule allows |
| Records.RecordWriter.Write | records.go:85-97 | appending keeps the index equal to the running offsets of the records |
| Records.WriterRoundTrip | records.go:50-131 | a written store opens and gives back every record of at most the record limit |
| Records.WriteRecordsZstd | records_zstd.go:27-79 | a framed store holds, in order, each record's shorter frame, with its offsets |
| Records.FramedRoundTrip | records.go:355-374 | a framed store opens; with a decoder that undoes the compression every record comes back, without one exactly those that it shortened are refused |
| Records.ReadCoalesced | records.go:232-277 | the Go coalescer returns each range's slice, and fails exactly when a span is too long for one read or past the end of the file |
| Records.GetMany | records.go:286-349 | the batched read returns exactly the stored ids that were asked for, each as Get returns it, and succeeds if and only if each Get does and each merged span fits one read |
| Records.GetManyFallsShort | records.go:279-349 | a well-formed store and ids whose every Get succeeds while GetMany fails |
| Inverted.IndexStep | monolithbuild.go:105-117 | adding a document to a corpus inserts it under its keys and changes no other posting |
| Inverted.SliceIsIndex | rust/examples/slice_trigram_monolith.rs:205-270 | slicing the index of a corpus by document range is indexing the slice of the corpus |
| Inverted.AndMatches | rust/src/terms.rs:611-661 | intersecting postings finds exactly the documents that hold every key |
| RangeIndex.WrittenLaidOut | transcode.go:163-217 | header, sparse keys, dictionary rows and postings lie where a reader of the format looks for them |
| RangeIndex.RangesTile | transcode.go:194-210 | the dictionary's posting ranges tile the postings region exactly |
| RangeIndex.EntriesUnique | rust/src/build.rs:118-185 | a map has one key-sorted list of entries, so one file |
| RangeIndex.WriteSorted | transcode.go:163-217 | the running-offset writer emits exactly the file of the layout |
| RangeIndex.WriteIndexWith | monolithbuild.go:36-54 | for entries in any order the writer gives the file of their map, and refuses exactly when a key is repeated |
| RangeReader.OpensWritten | reader.go:47-107 | a written file opens to its header and sparse keys, unless the sparse index passes one bounded read |
| RangeReader.SearchFindsFirst | reader.go:112-155 | the binary search stops at the first place a monotone predicate holds |
| RangeReader.BlockNamed | reader.go:112-114 | the named block is the only one whose keys can include the key searched for |
| RangeReader.KeyInBlock | reader.go:112-136 | a present key lies in the block that the sparse search names |
| RangeReader.FoundInBlock | reader.go:139-155 | the search inside a block finds a key's row exactly when the block has it |
| RangeReader.LookupAgrees | reader.go:160-174 | lookup finds a key if and only if the map has it, with the place and size of its posting |
| RangeReader.PostingAgrees | reader.go:213-227 | reading a key gives exactly what the map holds, absent keys included, with the failing cases named |
| RangeReader.EveryKeyResolves | reader.go:112-174 | every key resolves if and only if a full dictionary block fits one read |
| RangeReader.LookupMany | reader.go:180-209 | the batched lookup agrees with lookup on every key and reads each distinct block once |
| RangeReader.Postings | reader.go:234-252 | the batched read agrees with the single one on every key; reads are distinct blocks plus postings found |
| Splits.CapDoubles | splitsetbuild.go:71-81 | the shift with its overflow test computes byteCap x 2^tier clamped to the larger of capMax and byteCap |
| Splits.CapGrows | splitsetbuild.go:71-81 | later tiers never have a smaller cap, and every cap lies between byteCap and the larger of the two configured: byteCap itself under the flat policy |
| Splits.CapNext | splitsetbuild.go:71-81 | the first cap is byteCap and each is twice the one before, up to the larger of the two configured, for 63 doublings |
| Splits.Conserved | splitsetbuild.go:180-302 | when splits tile the documents before the open ones, a document holds a key exactly when one split's posting or the open one says so |
| Splits.SplitsDisjoint | splitsetbuild.go:239-302 | no document is in two splits |
| Splits.AndBySplitIsAnd | rust/src/splitset.rs:233-244 | intersecting split by split in order, rebased by each split's first id, lists the intersection over the whole corpus |
| SplitRun.SealStep | splitsetbuild.go:239-302 | sealing keeps the run consistent: the new row follows the last, its file is that of its own documents, the open state is empty |
| SplitRun.AddStep | splitsetbuild.go:180-224 | adding a document that fits, or starts a split, keeps the run consistent |
| SplitRun.RowsMean | splitsetbuild.go:262-280 | a row's tier is its index saturated at 16 bits, or zero under the other policy; it counts its documents and its file's bytes |
| SplitRun.RunConserves | splitsetbuild.go:180-302 | at every point of every run, sealed splits and open map together hold exactly the documents added |
| SplitRun.FinishedAnd | rust/src/splitset.rs:233-244 | a strict AND over a finished split set is the AND over the corpus, in order |
| SplitSearch.AndOverFiles | rust/src/splitset.rs:233-244 | the AND over postings read back from a finished builder's files is the AND over the corpus, and fails exactly when a read does |
| SplitRun.AddsDetermine | splitsetbuild.go:180-224 | the splits are a function of the documents: two runs of adds over the same documents seal the same splits at the same places |
| SplitBuilder.SplitSetBuilder.AddKeys | splitsetbuild.go:180-224 | returns the next id, adds exactly this document, and leaves sealed splits as they were |
| SplitBuilder.SplitSetBuilder.MakeRoom | splitsetbuild.go:186-203 | seals exactly when estimate and marginal charge together pass the tier's cap, which is byteCap when capMax is zero |
| SplitBuilder.SplitSetBuilder.Seal | splitsetbuild.go:239-302 | an empty builder is unchanged; otherwise the state after is that of the seal, with the written file appended |
| SplitBuilder.SplitSetBuilder.Serialise | splitsetbuild.go:239-260 | the open split's file is that of its index, whatever order the map is listed in |
| SplitBuilder.SplitSetBuilder.Finish | splitsetbuild.go:573-617 | refuses exactly when some one-document split is larger than its cap |
| SplitBuilder.SealBound | splitsetbuild.go:186-235 | a split of several documents has an estimate within its cap plus 8 bytes per stride of its last document's new keys |
| SplitBuilder.RunBounded | splitsetbuild.go:186-235 | the bound holds of every split of every run and of what is open, against the tier's cap and against the larger of byteCap and capMax |
| SealSize.EstimateExactly | splitsetbuild.go:186-235 | the estimate after a document is the one before, its marginal charge, and exactly 8 bytes for each sparse key that appears |
| SealSize.WithinCapExactly | splitsetbuild.go:186-203 | the test keeps the estimate within the cap whatever the cap if and only if no sparse key appears |
| SealSize.EstimatePassesCap | splitsetbuild.go:186-235 | two documents that the builder puts in one split with an estimate above its cap |
| SealSize.FileSize | transcode.go:163-217 | the exact size of a written file |
| SealSize.FileWithinEstimate | splitsetbuild.go:231-235 | a split of at most four containers of documents is written within its estimate |
| SealSize.EstimateHoldsExactly | splitsetbuild.go:231-235 | files stay within estimates up to n documents if and only if n is at most 262,144 |
| Slicer.RangesEnd | rust/examples/slice_trigram_monolith.rs:82-93 | the range loop reaches the end if and only if there is nothing to cut, base and max are positive, or the first range covers everything |
| Slicer.ZeroNeverEnds | rust/examples/slice_trigram_monolith.rs:82-93 | with base 0 the cursor never leaves the start, and with max 0 it stays after the first range |
| Slicer.GeometricRanges | rust/examples/slice_trigram_monolith.rs:82-93 | the ranges partition the documents in order; range i has the doubled, capped size and the last takes the rest |
| Slicer.RrsStreamWriter.Push | rust/examples/slice_trigram_monolith.rs:123-128 | the stream holds exactly the entries pushed, with their offsets |
| Slicer.RrsStreamWriter.FinishMeta | rust/examples/slice_trigram_monolith.rs:138-164 | metadata and streamed region together are the file the one-shot writer gives |
| Slicer.SlicedEntries | rust/examples/slice_trigram_monolith.rs:205-270 | slicing an index entry by entry gives the entries of the sliced index |
| Slicer.FanOut | rust/examples/slice_trigram_monolith.rs:205-270 | over a monolith the lockstep check never fires and each split is pushed exactly its part of every posting |
| Slicer.Slice | rust/examples/slice_trigram_monolith.rs:176-312 | slicing a monolith succeeds and gives, for each range, the file and the manifest row of the sliced index |
| Agreement.TrigramMonolithBuilder.Write | monolithbuild.go:124-134 | the monolith is the file of the index of all documents added |
| Agreement.SlicesAreSplits | rust/examples/slice_trigram_monolith.rs:176-312 | slicing the monolith at the ranges of any consistent run gives that run's files and rows, byte for byte |
| Agreement.BuildBothWays | splitsetbuild.go:180-302 | building the splits, and building the monolith and slicing it at the sealed ranges, give the same files and manifest rows |
| Agreement.SplitReadsBack | reader.go:213-227 | reading a key from a split's file gives exactly that split's documents that hold it |
| PartialMerge.MergeIsUnion | rust/src/build.rs:894-917 | merging chunk lists round by round gives the entries of the union of the chunks |
| PartialMerge.CountsAgree | rust/src/build.rs:864-928 | the first pass counts as many keys as the second writes if and only if no partial repeats a key |
| PartialMerge.RepeatedKeyCounted | rust/src/build.rs:864-928 | one list with a key twice: one key counted, two rows written |
| ChunkMerge.WritePartial | rust/src/build.rs:794-803 | a partial is the length-prefixed stream of the entries in key order, refused exactly when a posting passes 32 bits |
| ChunkMerge.PartialCursor.Advance | rust/src/build.rs:825-838 | a cursor over a partial stands on each entry in turn |
| ChunkMerge.ScanPartialKeys | rust/src/build.rs:846-861 | skipping postings by their length collects exactly the partial's keys |
| ChunkMerge.CountKeys | rust/src/build.rs:864-885 | the first pass counts the distinct keys of all partials |
| ChunkMerge.MergeAll | rust/src/build.rs:894-917 | the streaming merge records the merged entries and fails exactly on an undecodable or oversized posting |
| ChunkMerge.MergePartials | rust/src/build.rs:864-928 | the merged file, its postings placed before the count was known, is the file of the merged entries |
| ChunkMerge.ChunkedBuildIsWhole | rust/src/build.rs:794-928 | for any cut of the documents into chunks the merge writes the entries of the whole corpus's index |
| ChunkBuild.BuildChunked | rust/src/build.rs:794-928 | writing each chunk's partial and merging them gives the file of the whole corpus's index, and fails exactly on a posting too long |
| ChunkBuild.BuildBoth | rust/src/build.rs:118-185 | the chunked build and the one-shot writer, both executed, give the same bytes |
| FrontCoding.UvarintRoundTrip | terms.go:284-291 | a written varint reads back with its length, whatever follows |
| FrontCoding.UvarintDigits | terms.go:284-291 | a varint's bytes are the value's seven-bit digits, least first, all but the last marked, and no more than it needs |
| FrontCoding.UvarintLen | terms.go:284-291 | the counted length is the encoded length |
| FrontCoding.CommonPrefixLen | terms.go:321-328 | the longest common prefix |
| FrontCoding.BlockRoundTrip | terms_read.go:112-151 | decoding an encoded block gives back exactly its terms, offsets and sizes, wrapping deltas included |
| FrontCoding.DecodeBlock | terms_read.go:112-151 | the decoder's loop computes the recursive decoding and fails where it does |
| FrontCoding.DictBlockWriter.Push | terms.go:330-365 | a push adds its entry and keeps: blocks of several entries within the cap, each block full before the next starts, each decodable from its own start |
| FrontCoding.DictBlockWriter.Flush | terms.go:367-382 | a flush seals the open block with its offset and last term |
| FrontCoding.DictBlockWriter.Finish | terms.go:384-387 | the finished blocks hold everything pushed, in order |
| TermIndex.WriteTermIndex | terms.go:423-527 | the written blocks flatten to every term with its head's place and size, under the cap; the returned dictionary lists the map's terms once each in byte order; the writer fails exactly on an overflowing field or a missing language |
| TermOrder.LessMeans | terms.go:431 | one term sorts before another if and only if it is a proper prefix of it or has the smaller byte where they first differ |
| TermOpen.OpensWritten | terms_read.go:56-98 | by its bytes, a written index opens to its settings, counts, router, dictionary and postings, unless its router passes one bounded read |
| TermOpen.LookupFile | terms_read.go:377-384 | a lookup in a written file's bytes finds exactly what the map holds, and fails exactly when the router or the posting passes one bounded read |
| TermSearch.WrittenReads | terms_read.go:58-163 | a written index reads back block by block |
| TermSearch.Find | terms_read.go:167-182 | find succeeds exactly on the terms present and decodes at most one block |
| TermSearch.SkippedBlock | terms_read.go:244-278 | a block whose last term is below the prefix holds no match |
| TermSearch.PrefixRangeEnds | terms_read.go:244-278 | past the first term at or above the prefix that lacks it there is no match |
| TermSearch.ScanPrefix | terms_read.go:244-278 | the scan returns the first max entries, in byte order, whose term starts with the prefix, says truncated exactly when one is left out, and reads at most one block more than it returns entries |
| TermSearch.ScanMeans | terms_read.go:244-278 | that answer spelled out: each entry starts with the prefix, is below the next and below each one left out |
| TermSearch.PostingReads | terms_read.go:185-205 | a posting reads back whole exactly when head and tail together fit one read |
| TermSearch.LookupTerm | terms_read.go:377-384 | exact lookup is the map, with its one failing case |
| TermSearch.Dict | terms_read.go:409-441 | over a written index the walk gives exactly what the writer returned, ascending in byte order; over any file, the entries of the blocks before the first that does not read, where it stops silently |
| TermSearch.ReadHeads | terms_read.go:330-352 | the head wave collects the union's head and the tails still to be read |
| TermSearch.SearchPrefix | terms_read.go:330-373 | the first limit documents of the union of the postings of the first 2048 terms, in byte order, that start with the prefix, whether or not tails were fetched; it fails exactly when a needed tail is longer than one read |
| TermSearch.SearchedDocs | terms_read.go:330-373 | what the search unites is a set of the map alone: terms with fewer than 2048 others of the prefix below them |
| TermQuery.ScanFor | rust/src/terms_dict.rs:293-302 | the early-stopping scan of a block finds a term exactly when the block has it |
| TermQuery.ResolveLocs | rust/src/terms.rs:517-552 | a strict query resolves if and only if every term is in the index, a lenient one to the terms that are; each distinct block is read once, and none when a strict query has a term past every block |
| TermQuery.QueryHeads | rust/src/terms.rs:697-741 | the resolved heads are those of the index's postings, split at its boundary |
| TermSplitBuilder.ChargedExactly | termsplitsetbuild.go:109-158 | the running charge after each term equals the charge of the map it built |
| TermSplitBuilder.TermSplitSetBuilder.AddTokens | termsplitsetbuild.go:104-158 | adds the document's sorted distinct terms under the next id; on a failed write nothing changes |
| TermSplitBuilder.TermSplitSetBuilder.Seal | termsplitsetbuild.go:170-215 | appends the row and the term index of the open documents, or leaves everything as it was; fails exactly when the index writer refuses them |
| TermSplitBuilder.Finish | termsplitsetbuild.go:220-262 | fails exactly when the index writer refuses what is open or a one-document split is larger than its cap |
| TermSplitBuilder.RunWithinCap | termsplitsetbuild.go:109-166 | in every run, a sealed or open split of several documents is estimated within its cap, and that within the larger of byteCap and capMax |
| TermSplitBuilder.SealedIsFile | termsplitsetbuild.go:170-215 | in every run each sealed split's file is the term index of that split's own documents, and its row has the file's size |
| TermSealSize.FileAgainstEstimate | termsplitsetbuild.go:109-166 | the exact difference between a split's file and its estimate, for any documents: router, varints and postings against allowance, shared prefixes and charges |
| TermSealSize.SealedAgainstEstimate | termsplitsetbuild.go:163-204 | the same of the recorded size of every sealed split of every run |
| TermSealSize.SmallSplitExactly | termsplitsetbuild.go:163-166 | up to 4,096 documents the estimate bounds the file if and only if router, varints, four bytes a term and eight for each divided posting fit the allowance and the shared prefixes |
| TermSealSize.EstimateFallsShort | termsplitsetbuild.go:163-166 | when eight bytes a term and the router outweigh the allowance and what neighbouring terms share, the file passes the estimate |
| TermSealSize.TwelveTermsFallShort | termsplitsetbuild.go:163-166 | one document of twelve one-byte terms, estimated at 452 bytes, has a larger file |
| TieredSearch.SearchTiered | rust/src/splitset.rs:1109-1172 | over the files' bytes, the descent returns the first limit documents of the corpus that hold every term, opens one split when the first fills the page and at most seven more than a split-by-split descent, and fails exactly when it opens a split whose router passes one bounded read |
| TieredSearch.PageGrows | rust/src/splitset.rs:1146-1171 | each split searched for the whole page and the concatenation truncated gives the page of the whole matches |
| TieredSearch.FinishedFiles | termsplitsetbuild.go:170-262 | a finished builder's files are what the tiered search needs, so its result is that of the documents added |
| TermWritten.GreedyUnique | terms.go:330-387 | there is one greedy cut of an entry list into blocks |
| TermWritten.CutUnique | terms.go:330-387 | a map's dictionary has one cut into blocks, so whether it fits is a property of the map |
| TermWritten.WrittenUnique | terms.go:423-527 | a term index is a function of its map, boundary and cap, byte for byte |
| TermWritten.WriteFile | terms.go:423-527 | the serialized index is the one file of the map, refused exactly when a filter has no language or a field overflows |
| TermSlicer.Scan | rust/examples/slice_term_monolith.rs:106-235 | over a written monolith the two readers stay in step and each split receives exactly its part of each term |
| TermSlicer.SliceTermMonolith | rust/examples/slice_term_monolith.rs:106-270 | each split written is the term index of the sliced map; it succeeds if and only if every sliced map fits its file's fields |
| TermSlicer.SliceIsBuilt | rust/examples/slice_term_monolith.rs:106-270 | a slice of the monolith and the index built from the slice's documents are the same file |
| MinMatch.LeastHead | rust/src/bm25.rs:386-391 | the least document any live iterator shows |
| MinMatch.PassAll | rust/src/bm25.rs:392-398 | advancing the iterators that show it counts the sets that hold it |
| MinMatch.MinMatchCandidates | rust/src/bm25.rs:377-408 | the merge returns the first limit documents, ascending, that are in at least need of the sets |
| Impacts.ImpactsAccumulator.AddDoc | bm25.go:85-98 | the statistics after each document are those of the documents added: every count, length and id |
| Impacts.StatsFollowPosting | bm25.go:71-98 | a term's statistics list its documents in posting order |
| Sidecar.SumIsTokens | bm25.go:118-135 | the sum of the document lengths is the number of tokens in the corpus |
| Sidecar.WriteImpacts | bm25.go:118-199 | for a corpus's statistics each impact byte, at its document's rank, is quantized from the term's count there, the document's length and the corpus's token and document counts; it fails exactly without documents, on a term without statistics, or on offsets out of order |
| Sidecar.SidecarFollows | bm25.go:118-199 | bytes and header parameters (k1, b, the average length) of a sidecar, stated on the documents |
| Sidecar.OpensSidecar | rust/src/bm25.rs:111-155 | a written sidecar opens |
| Sidecar.StripeHolds | rust/src/bm25.rs:165-178 | the stripe is a run of the table and holds every row with the searched offset |
| Sidecar.EntryFound | rust/src/bm25.rs:165-216 | the stripe search finds a row exactly for the offsets in the table |
| Sidecar.FindEntry | bm25_read.go:76-94 | probing the whole table finds a row exactly for the offsets in the table |
| Sidecar.ImpactsOf | bm25_read.go:98-108 | the impact bytes of an offset are those written for it |
| Bm25.SortedInOrder | rust/src/bm25.rs:276-283 | the sort orders by descending score then ascending document and loses nothing |
| Bm25.TakeIsTop | rust/src/bm25.rs:276-290 | the first k of the sort: scores descend, equal ones by ascending document, and nothing left out scores more than anything returned |
| Bm25.Entries | rust/src/bm25.rs:182-216 | one coalesced wave of stripes gives the row of each posting, or fails when one is missing |
| Bm25.PairsScore | rust/src/bm25.rs:241-274 | adding byte by byte over the flat pair list gives each candidate its score in term order |
| Bm25.Rerank | rust/src/bm25.rs:225-291 | the coalesced rerank returns as many candidates as k allows, highest scores first, ties by document, none left out scoring higher |
| Ordered.FirstNMeans | rust/src/bm25.rs:332-334 | the first n members are those with fewer than n others below them |
| Bm25Search.HeadRanks | rust/src/bm25.rs:300-308 | below the boundary a document ranks the same in the head as in the whole posting |
| Bm25Search.ShortcutExact | rust/src/bm25.rs:309-345 | reranking the heads' window over heads gives the answer computed from full postings |
| Bm25Search.SearchBm25 | rust/src/bm25.rs:309-369 | head-first is exact: for every query, window and limit the strict search returns the full-posting answer, and a lost tail fails it exactly when the heads underfill the window |
| Bm25Search.SearchMinMatch | rust/src/bm25.rs:429-477 | the same for at-least-n-terms search, with the count clamped to the resolved terms |
| Bm25Search.AllTermsIsStrict | rust/src/bm25.rs:410-428 | asking for all the resolved terms is the strict search |
| Bm25Search.StrictOnlyWhenResolved | rust/src/bm25.rs:410-428 | asking for as many terms as the query has equals the strict search if and only if all resolve, or those that do share no document, or m or k is zero |
| ImpactAddressing.AddressSound | rust/src/bm25.rs:225-258 | for each dictionary term and each document of its posting the address is that of the byte quantized from its frequency and length |
| ImpactAddressing.HeadAddressSound | rust/src/bm25.rs:300-308 | a head addresses the same byte as the whole posting |
| ImpactAddressing.AbsentFails | rust/src/bm25.rs:165-216 | an offset that is not in the dictionary fails |
| CorpusSearch.Search | rust/src/terms.rs:595-661 | the plain search over a written index returns the first documents that hold every query term |
| CorpusSearch.RerankIs | rust/src/bm25.rs:225-291 | reranking over the written files ranks by scores computed from the documents: frequencies, lengths, document counts |
| CorpusSearch.SearchStrict | rust/src/bm25.rs:309-369 | from query tokens to ranked list over written files: of the first m documents that hold every term the k best, scores descending, ties by document, no better one left out |
| CorpusSearch.SearchLenient | rust/src/bm25.rs:429-477 | the same for the first m documents that hold at least the clamped number of the query's held terms; nothing when no term is held |
| CorpusSearch.BestRanks | rust/src/bm25.rs:276-290 | the k best in terms of scores and documents alone: size, order, and what is left out |
| CorpusSearch.LenientIsStrict | rust/src/bm25.rs:410-477 | for tokens over documents: the two rankings agree if and only if every term is held somewhere, or no document holds all those that are, or m or k is zero |
| CorpusSearch.LenientFindsMore | rust/src/bm25.rs:410-428 | one document and a query of its term and an absent one: the strict ranking is empty, the other is not |
| CorpusSearch.WrittenIsBuilt | terms.go:423-527 | the term index and the sidecar written from the same documents are what the searches need, so their results apply to them |
| ImpactRuns.SpillChunk | rust/examples/build_impacts.rs:151-207 | a chunk's map holds each term's documents and capped counts in document order |
| ImpactRuns.WriteRun | rust/examples/build_impacts.rs:212-226 | a run is the chunk's terms in order with their lists |
| ImpactMerge.RunReader.Advance | rust/examples/build_impacts.rs:286-296 | a reader moves to the next group once the pairs were taken |
| ImpactMerge.TakeTerm | rust/examples/build_impacts.rs:360-420 | one round takes a term's group from every run that has it, in run order, and leaves the heap at the next terms |
| ImpactMerge.MergeRound | rust/examples/build_impacts.rs:356-420 | one dictionary term's round writes its row and bytes and keeps readers and heap in step, or finds a run term out of order with the dictionary |
| ImpactMerge.Merge | rust/examples/build_impacts.rs:303-463 | the merge succeeds exactly when counts match and the runs have the dictionary's terms, and writes the sidecar of the joined lists: for runs that list a corpus, its impact bytes and average |
| OutOfCore.EntriesAgree | rust/examples/build_impacts.rs:303-463 | whatever the chunking, the merge's entries are the in-memory writer's for capped statistics |
| OutOfCore.OutOfCoreAgrees | rust/examples/build_impacts.rs:151-463 | for each scoring configuration, out of core equals in memory if and only if no entry's byte changes when its frequency is capped at 255 |
| OutOfCore.NoneCappedAgrees | rust/examples/build_impacts.rs:151-207 | when no frequency passes 255 no byte changes, whatever the configuration |
| OutOfCore.ThousandCopiesDiffer | rust/src/bm25.rs:76-80 | with the default parameters a term occurring a thousand times in its document gets another byte |
| OutOfCore.AcceptedByOne | rust/src/bm25.rs:542-600 | what one build accepts the other accepts if and only if: there are documents and offsets ascend; every corpus term is in the dictionary |
| OutOfCore.BuildOutOfCore | rust/examples/build_impacts.rs:303-463 | spilling and merging end to end: each impact byte is quantized from the term's count capped at 255, the document's length and the corpus's token and document counts |
| Bloom.HashSteps | rust/src/splitset.rs:1483-1487 | a key's hashes start at the first base hash and grow by the second, wrapping at 64 bits |
| Bloom.AdmitsExactly | rust/src/splitset.rs:1523-1556 | a probe of the stored filter answers yes exactly when each of the key's bits is one that an inserted key set |
| Bloom.RefusesExactly | rust/src/splitset.rs:1529-1556 | whatever the bytes, a key is refused exactly when the header is possible and some probe finds a clear bit before any leaves the filter |
| Bloom.NoFalseNegatives | splitsetbuild.go:634-666 | every inserted key tests present with the stored hash count and modulus, rounded and clamped |
| Bloom.EmptyAdmitsNone | splitsetbuild.go:637-666 | a filter of no keys admits none |
| Bloom.BloomBuild | splitsetbuild.go:637-666 | the in-place builder's bytes probe exactly as stated |
| Ngram.FieldsMean | ngram.go:46-71 | the words of a text are its maximal runs without white space |
| Ngram.KeyMeans | ngram.go:90-110 | one or two runes take 32 bits each, three to eight ASCII ones a byte each with the first highest, anything else is hashed |
| Ngram.NormalizedMeans | ngram.go:73-86 | normalizing acts rune by rune: one that is not kept goes, another is lower-cased when folding and else stays |
| Ngram.PackedKeysDiffer | ngram.go:90-110 | packed windows of one size never share a key |
| Ngram.NgramKeyer.Keys | ngram.go:46-71 | the keys are a function of the text, whatever earlier calls left in the keyer |
| Ngram.KeysOnce | ngram.go:46-71 | a text's keys are listed once each |
| Ngram.AllKeysHas | ngram.go:46-71 | a key is produced exactly when some word has a window with it |
| Ngram.QueryKeysPresent | ngram.go:46-86 | a document in which each long enough query word's normal form stands as a run has every key of the query |
| RankedBuild.DedupInPlace | examples/openalex/stream.go:178-187 | the in-place pass keeps the first entry of each id |
| RankedBuild.FirstOfEachIs | examples/openalex/stream.go:171-187 | after sorting by id and descending citations, the first of each id is its best entry, and every id is kept once |
| RankedBuild.RankingOf | examples/openalex/stream.go:171-201 | sort, dedupe and sort again ranks each distinct id once, by most citations and then id |
| RankedBuild.LookupOf | examples/openalex/stream.go:202-213 | the id-sorted lookup is a bijection between the ranked ids and the ranks |
| RankedBuild.RankPass | examples/openalex/stream.go:150-213 | pass 1 returns the lookup of such a ranking |
| RankedEmit.DocOfIsRank | examples/openalex/stream.go:60-70 | the binary search resolves exactly the ranked ids, each to its rank |
| RankedEmit.Emit | examples/openalex/stream.go:43-92 | pass 2 emits one record a ranked work that has one: the first |
| RankedEmit.WriteRecordsOrdered | examples/openalex/stream.go:217-285 | the store is written in document order and refused exactly when some slot is not its document |
| RankedEmit.AlignedMeans | examples/openalex/stream.go:240-251 | no slot is out of place if and only if the works with records are an initial run of the ranks |
| RankedEmit.SameLinesAlign | examples/openalex/stream.go:43-92 | when both passes accept the same lines every rank has its record and the check never fires |
| RankedEmit.StreamBuild | examples/openalex/stream.go:37-132 | slot i of the finished store holds the record of the rank-i work, and the build fails exactly as the check says |
| RankedEmit.MissingTailUnseen | examples/openalex/stream.go:240-251 | two works, the second without a record, that the check lets pass |

## Left out

- Roaring, the FST crate, Snowball, zstd and FAISS: a posting is a finite set with an injective serialiser (`Splits.Codec`, `Faithful`), the router an ordered list of keys with a serialiser and a parser that undoes it, the tokenizer's output a token list, `inflate` a function. Only `SealSize` and `TermSealSize` use the container sizes of the RoaringFormatSpec.
- The term searches ask of the serialiser that only the empty set has an empty form (`OnlyEmptyIsEmpty`), which roaring's does.
- Floating point: scores are reals, stored floats are bit patterns, and quantization, inverse document frequency and the scale are functions. What is proved is that both sides apply the same function in the same order.
- The 64-bit mixer and FNV hash, and Unicode's white space, letter and case tables, are parameters; hash collisions are not excluded.
- The FST's bytes (the router's are a function of its entries), the split set manifest's bytes and its summary records, facets and their digests, Bloom pruning and delta splits in the split set searches, RRSC, RRHC, RRIL, RRSS and vector files, catalog search, compaction and deletes: fixed tables or other subsystems that would add easier members.
- The byte framing of the run and length files of `build_impacts.rs`: a run is a list of groups.
- JSON parsing, tokenizing and record formatting in stream.go: a line is what each pass accepts of it. Facets of that build are not modelled.
- I/O, the network, retries, async waves and rayon batches: a file is a byte sequence, a read either gives the bytes or fails, and a wave's results come in request order. Partial reads and I/O errors of writers are not modelled.
- Integer width: 64-bit wrap-around is written out for varint offsets, the cap shift, saturating range ends and Bloom positions. Document counts, citation counts, queue ids and file sizes past the formats' fields are preconditions (`Fits`, `SideFits`) or unbounded; `usize` is 64 bits.
- Input that no writer produces: the readers' error branches are modelled, and what is proved about results assumes a written file. A malformed Rust dictionary block ends its scan early; only the dictionary walk models that, the lookups report an error.
- TermQuery.QueryHeads: reads each tail where the source remembers its place, since a resolved term carries its tail's value.
- TermSlicer.SliceTermMonolith: writes the splits after the scan; the source pushes to open writers during it.
- FrontCoding.DictBlockWriter.Push: not called after a finish, as in the source.
- Complete, PrefixPostings and Terms: walks over the same scan and dictionary.
