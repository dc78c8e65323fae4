# search-indexer core in Dafny

This project models the core of `com.ksu.indexer`, a small segmented inverted index, and proves
properties of that model. The index is built from one-document *delta segments*. Each segment is
a map from term to an ascending list of local doc ids, a set of deleted ids, a `maxDocId` counter
and a Bloom filter. The coordinator (`IndexService`) turns each file event into a delta segment.
It records which file each (segment id, doc id) pair belongs to in the manifest tables, and it
merges a planner's choice of segments into one renumbered segment. Three query executors run a
boolean AND over a snapshot of the live segments.

| file | module | what it models |
|---|---|---|
| `java_ints.dfy` | `JavaInts` | Java `int` and `byte`: the `int32` and `uint8` ranges, 32-bit wrap-around (`Wrap32`), bit patterns |
| `wrappers.dfy` | `Wrappers` | `Option`, `Result` and the Java exceptions the core can throw |
| `java_strings.dfy` | `JavaStrings` | `isBlank`, `trim`, ASCII `toLowerCase`, `split` on runs of one separator class |
| `java_charsets.dfy` | `JavaCharsets` | UTF-16 length and `String.hashCode`, UTF-8 (`getBytes`), modified UTF-8 (`writeUTF`/`readUTF`) |
| `lists.dfy`, `sorted_sets.dfy` | `Lists`, `SortedSets` | lists without repeats; a `TreeSet` as its ascending list |
| `var_byte_codec.dfy` | `VarByteCodec` | `encode`/`decode` (7 bits per byte, high bit marks the last byte) |
| `bloom_filter.dfy` | `BloomFilter` | the filter as a class over its bit set, with a value view `Filter` |
| `tokenizer.dfy` | `Tokenizer` | `tokenize` |
| `index_segment.dfy` | `IndexSegment` | the segment class (`addDoc`, `deleteDoc`, `mightContainTerm`) and its value `Segment` |
| `segment_format.dfy` | `SegmentFormat` | `persist` and `load` as a pure writer and reader over byte sequences |
| `segment_merge.dfy` | `SegmentMerge` | `merge`: the union of raw postings, no renumbering |
| `remap_merge.dfy`, `remap_facts.dfy` | `RemapMerge`, `RemapFacts` | `mergeWithRemap`, `DocPointer`, `MergedResult`, and what the renumbering guarantees |
| `dp_merge_planner.dfy` | `DPMergePlanner` | the 0/1-knapsack planner over `int[][]` tables |
| `greedy_merge_planner.dfy` | `GreedyMergePlanner` | the highest-deleted-ratio-first planner |
| `manifest.dfy` | `ManifestStore` | the manifest's four tables as maps and sets |
| `segment_hits.dfy` | `SegmentHits` | the per-segment hit maps and their intersection, shared by the three searches |
| `search_service.dfy` | `SearchService` | `searchFileIdsLegacy` and `searchV2` |
| `search_service_backup.dfy` | `SearchServiceBackup` | the backup `search` with its sorted hashes |
| `index_service.dfy` | `Coordinator` | `IndexService`: events, merges, the live list and the counter |

Java `int` values are the subset type `int32`. Wherever the Java code overflows, the wrap-around is
written out with `Wrap32`: `++maxDocId`, the size estimate's running sum, the Bloom hash fold, the
DP table's additions, the merge's `nextNewId++` and the delta counter. Hash-map and hash-set
iteration order is left open. Loops over such a collection pick their next element arbitrarily,
and their results are stated as sets or as "every element exactly once". `persist` takes the
order of its map and set as parameters. The one exception is the exception a failing `persist`
throws when a segment has both kinds of unwritable entry: the merges and events fix it as
`writeUTF`'s (see "## Left out").

Behaviours of the code worth noting:

- The planner's benefit is `(int)(cost * (1 + ratio * 10))`, a truncation, not a rounding. The
  comment beside the field says `* 100`, but the code multiplies by 10.
- `deletedRatio` is not confined to `[0, 1]`. `deleteDoc` accepts any id, so a segment can hold
  more deleted ids than `maxDocId`.
- Only `searchFileIdsLegacy` stops early once the intersection is empty. `searchV2` replaces an
  emptied accumulator (see Findings). The backup `search` carries on with an empty map.
- `searchFileIdsLegacy` throws a `NullPointerException` when its query has no non-blank term. It
  does not return an empty list in that case.
- `merge` sets `maxDocId` to the size of its largest posting set, not to its largest id.
- The backup search's "unique per seg+doc" hash is not unique: `("Aa", d)` and `("BB", d)`
  collide (`SearchServiceBackup.PairHashCollides`).

## Model

| member | source | states |
|---|---|---|
| VarByteCodec.EncodeNumber | src/main/java/com/ksu/indexer/codec/VarByteCodec.java:14-23 | one number's bytes: at least one, and exactly the last has the high bit set |
| VarByteCodec.Encode | src/main/java/com/ksu/indexer/codec/VarByteCodec.java:11-26 | the encode loop writes the concatenated encodings of the numbers, in order |
| VarByteCodec.EncodeOne | src/main/java/com/ksu/indexer/codec/VarByteCodec.java:14-23 | the inner `& 0x7F` / `>>>= 7` loop writes exactly one number's encoding |
| VarByteCodec.Decode | src/main/java/com/ksu/indexer/codec/VarByteCodec.java:28-45 | the decode loop, with its `n` and `shift` accumulators, returns the decoded list |
| VarByteCodec.IntsToBytes | src/main/java/com/ksu/indexer/codec/VarByteCodec.java:47-49 | `intsToBytes` returns what `encode` returns |
| VarByteCodec.BytesToInts | src/main/java/com/ksu/indexer/codec/VarByteCodec.java:51-53 | `bytesToInts` returns what `decode` returns |
| VarByteCodec.RoundTrip | src/main/java/com/ksu/indexer/codec/VarByteCodec.java:11-45 | decoding what `encode` wrote gives the list back, negative numbers included |
| VarByteCodec.DecodeEncodedThen | src/main/java/com/ksu/indexer/codec/VarByteCodec.java:28-45 | decoding an encoding followed by any bytes gives the list, then the decoding of those bytes |
| VarByteCodec.EncodedConcat | src/main/java/com/ksu/indexer/codec/VarByteCodec.java:13-24 | encoding distributes over list concatenation |
| VarByteCodec.NumberLength | src/main/java/com/ksu/indexer/codec/VarByteCodec.java:14-23 | every 32-bit number takes between one and five bytes |
| VarByteCodec.SmallNumber | src/main/java/com/ksu/indexer/codec/VarByteCodec.java:15-19 | a value below 128, 0 included, encodes to the single byte `v \| 0x80` |
| VarByteCodec.DecodeCount | src/main/java/com/ksu/indexer/codec/VarByteCodec.java:32-44 | decode emits exactly one number per byte with the high bit set |
| VarByteCodec.UnterminatedRunDropped | src/main/java/com/ksu/indexer/codec/VarByteCodec.java:39-42 | a run of bytes without the high bit decodes to nothing |
| VarByteCodec.TrailingRunDropped | src/main/java/com/ksu/indexer/codec/VarByteCodec.java:32-44 | unterminated bytes after the last number are silently dropped |
| BloomFilter.Index | src/main/java/com/ksu/indexer/structures/BloomFilter.java:18-24 | every probe index lies in `[0, m)` |
| BloomFilter.BloomFilter.constructor | src/main/java/com/ksu/indexer/structures/BloomFilter.java:12-16 | a new filter has its size, its probe count and no bit set |
| BloomFilter.BloomFilter.Hash | src/main/java/com/ksu/indexer/structures/BloomFilter.java:18-24 | the `h * 31 + b` fold over signed bytes, in `int` arithmetic, gives the probe index, which is in range |
| BloomFilter.BloomFilter.Add | src/main/java/com/ksu/indexer/structures/BloomFilter.java:26-32 | `add` sets the bits of the `k` probes and clears none |
| BloomFilter.BloomFilter.MightContain | src/main/java/com/ksu/indexer/structures/BloomFilter.java:34-41 | `mightContain` answers whether every probed bit is set, and changes nothing |
| BloomFilter.NoFalseNegatives | src/main/java/com/ksu/indexer/structures/BloomFilter.java:26-41 | after `add(s)`, `mightContain(s)` is true |
| BloomFilter.AddKeepsAdmitted | src/main/java/com/ksu/indexer/structures/BloomFilter.java:28-31 | anything admitted before an `add` is admitted after it |
| BloomFilter.AddIdempotent | src/main/java/com/ksu/indexer/structures/BloomFilter.java:26-32 | adding the same bytes twice leaves the bits of adding them once |
| BloomFilter.NoProbesAdmitsAll | src/main/java/com/ksu/indexer/structures/BloomFilter.java:36-40 | with `k <= 0` every item is admitted |
| BloomFilter.AddedAll | src/main/java/com/ksu/indexer/structures/BloomFilter.java:26-32 | after a series of `add`s every added item is admitted and no bit is lost |
| BloomFilter.AddedAllBits | src/main/java/com/ksu/indexer/structures/BloomFilter.java:26-32 | the bits after a series of `add`s depend only on the set of items, not on their order |
| Tokenizer.Normalize | src/main/java/com/ksu/indexer/core/Tokenizer.java:11 | lower-casing and replacing: same length, and every character is `[a-z0-9]` or a space |
| Tokenizer.NonBlank | src/main/java/com/ksu/indexer/core/Tokenizer.java:12-14 | the filter loop keeps only non-blank items, all taken from its input |
| Tokenizer.TokensWellFormed | src/main/java/com/ksu/indexer/core/Tokenizer.java:8-16 | every token is non-empty, not blank and made of `[a-z0-9]` only |
| Tokenizer.TokensKeepText | src/main/java/com/ksu/indexer/core/Tokenizer.java:11-14 | the tokens, concatenated, are the normalised text without its spaces, so order and repeats are kept |
| Tokenizer.TokenizeIdempotent | src/main/java/com/ksu/indexer/core/Tokenizer.java:11-14 | tokenising the tokens joined by single spaces gives the same tokens |
| IndexSegment.IndexSegment.constructor | src/main/java/com/ksu/indexer/core/IndexSegment.java:23-33 | a new segment has no postings, no deletions, `maxDocId == 0` and an empty 2^20-bit, 7-probe filter |
| IndexSegment.IndexSegment.AddDoc | src/main/java/com/ksu/indexer/core/IndexSegment.java:37-46 | `addDoc` returns `maxDocId + 1` (wrapping) and records it once for each distinct term |
| IndexSegment.IndexSegment.Record | src/main/java/com/ksu/indexer/core/IndexSegment.java:41-43 | one pass of the loop for a term not seen yet: the id is appended to that term's list and the term's probes are added to the filter |
| IndexSegment.IndexSegment.DeleteDoc | src/main/java/com/ksu/indexer/core/IndexSegment.java:48-50 | `deleteDoc` only adds the id to the deleted set |
| IndexSegment.IndexSegment.MightContainTerm | src/main/java/com/ksu/indexer/core/IndexSegment.java:52-54 | the filter's answer for the term's UTF-8 bytes |
| IndexSegment.AddDocOnce | src/main/java/com/ksu/indexer/core/IndexSegment.java:37-46 | the new id appears exactly once in the list of each term of the doc, and in no other list |
| IndexSegment.AddDocKeepsWellFormed | src/main/java/com/ksu/indexer/core/IndexSegment.java:37-46 | `addDoc` keeps every list strictly ascending within `[1, maxDocId]`, with no false negatives in the filter |
| IndexSegment.AddDocAdmitsTerms | src/main/java/com/ksu/indexer/core/IndexSegment.java:40-44 | after `addDoc` the filter admits every term of the doc |
| IndexSegment.AddDocBloom | src/main/java/com/ksu/indexer/core/IndexSegment.java:40-44 | the filter after `addDoc` holds exactly the probes of the old and the new terms |
| IndexSegment.DeleteDocKeepsWellFormed | src/main/java/com/ksu/indexer/core/IndexSegment.java:48-50 | `deleteDoc` keeps a well-formed segment well-formed |
| IndexSegment.WellFormedAdmitsTerms | src/main/java/com/ksu/indexer/core/IndexSegment.java:52-54 | in a well-formed segment `mightContainTerm` is true for every stored term |
| IndexSegment.GetPostings | src/main/java/com/ksu/indexer/core/IndexSegment.java:56-62 | the copy loop returns the raw list without the deleted ids |
| IndexSegment.WithoutDeletedHas | src/main/java/com/ksu/indexer/core/IndexSegment.java:56-66 | an id is in the filtered postings exactly when it is in the raw list and not deleted |
| IndexSegment.WithoutDeletedAscending | src/main/java/com/ksu/indexer/core/IndexSegment.java:59-61 | filtering keeps an ascending list ascending, so the order is kept |
| IndexSegment.WithoutNothingDeleted | src/main/java/com/ksu/indexer/core/IndexSegment.java:56-66 | with nothing deleted, `getPostings` and `getRawPostings` agree |
| IndexSegment.SizeBytesEstimate | src/main/java/com/ksu/indexer/core/IndexSegment.java:68-75 | the sum over terms of UTF-16 length plus four bytes per posting, wrapped to `int`, whatever the map order |
| IndexSegment.TotalSizeRemove | src/main/java/com/ksu/indexer/core/IndexSegment.java:70-73 | the sum does not depend on which term the loop visits first |
| IndexSegment.DeletedRatio | src/main/java/com/ksu/indexer/core/IndexSegment.java:77-80 | 0 when `maxDocId == 0`; otherwise, for either sign of `maxDocId`, the ratio times `maxDocId` is the number of deleted ids, so the ratio takes the sign of `maxDocId` |
| JavaCharsets.StringRoundTrip | src/main/java/com/ksu/indexer/core/IndexSegment.java:88 | reading the modified UTF-8 of a string gives the string back |
| SegmentFormat.IntBytes | src/main/java/com/ksu/indexer/core/IndexSegment.java:85 | `writeInt` writes four bytes |
| SegmentFormat.ReadIntBytes | src/main/java/com/ksu/indexer/core/IndexSegment.java:102-103 | `readInt` reads back what `writeInt` wrote, and nothing more |
| SegmentFormat.WriteUtf | src/main/java/com/ksu/indexer/core/IndexSegment.java:88 | `writeUTF` succeeds exactly when the encoding fits its 2-byte length |
| SegmentFormat.ReadUtfBytes | src/main/java/com/ksu/indexer/core/IndexSegment.java:105 | `readUTF` reads back what `writeUTF` wrote |
| SegmentFormat.ReadNBytes | src/main/java/com/ksu/indexer/core/IndexSegment.java:107 | `readNBytes` throws on a negative length, else takes up to `len` bytes |
| SegmentFormat.EntryBytes | src/main/java/com/ksu/indexer/core/IndexSegment.java:88-91 | a postings entry can be written exactly when its term fits `writeUTF` and its encoding fits an array |
| SegmentFormat.EntriesBytesOk | src/main/java/com/ksu/indexer/core/IndexSegment.java:87-92 | the entry loop succeeds exactly when every entry can be written |
| SegmentFormat.PersistOkIffWritable | src/main/java/com/ksu/indexer/core/IndexSegment.java:82-96 | `persist` produces bytes exactly for writable segments, whatever the iteration orders |
| SegmentFormat.EntriesBytesError | src/main/java/com/ksu/indexer/core/IndexSegment.java:87-92 | a failed entry loop throws `UTFDataFormatException` for a term in the order too long for `writeUTF`, or `OutOfMemoryError` for postings in the order too long for an array |
| SegmentFormat.SavedErrorIsPersistError | src/main/java/com/ksu/indexer/core/IndexSegment.java:82-96 | when only one kind of entry can fail, `Saved` fails exactly when `persist` does, with the same exception, for every iteration order |
| SegmentFormat.Saved | src/main/java/com/ksu/indexer/core/IndexSegment.java:82-96 | writing the file succeeds exactly when the file system does not fail and the segment is writable |
| SegmentFormat.LoadPersisted | src/main/java/com/ksu/indexer/core/IndexSegment.java:82-116 | `load` of the bytes `persist` wrote gives the same segment: counter, postings, deleted ids and filter |
| SegmentFormat.LoadAdmitsTerms | src/main/java/com/ksu/indexer/core/IndexSegment.java:98-116 | whatever the bytes, a loaded segment keeps its id and admits every term it holds |
| SegmentFormat.ShortFileFails | src/main/java/com/ksu/indexer/core/IndexSegment.java:102-103 | fewer than 8 bytes end in `EOFException` |
| SegmentFormat.NegativeLengthFails | src/main/java/com/ksu/indexer/core/IndexSegment.java:106-107 | a negative postings length stops `load` with the exception `readNBytes` throws |
| SegmentMerge.AddIds | src/main/java/com/ksu/indexer/core/IndexSegment.java:123 | `computeIfAbsent(...).addAll` adds the term to the map's keys |
| SegmentMerge.AddSegment | src/main/java/com/ksu/indexer/core/IndexSegment.java:122-124 | the inner loop adds each raw list of a segment to its term's set |
| SegmentMerge.SortedPostings | src/main/java/com/ksu/indexer/core/IndexSegment.java:126-127 | each collected set is stored as its ascending list |
| SortedSets.ToSortedList | src/main/java/com/ksu/indexer/core/IndexSegment.java:127 | `new ArrayList<>(treeSet)` lists the set's elements, smallest first |
| SegmentMerge.BuildBloom | src/main/java/com/ksu/indexer/core/IndexSegment.java:126-128 | the new filter holds exactly the probes of the collected terms |
| SegmentMerge.LargestSize | src/main/java/com/ksu/indexer/core/IndexSegment.java:130 | `mapToInt(size).max().orElse(0)` is the largest set size, 0 for no set |
| SegmentMerge.Merge | src/main/java/com/ksu/indexer/core/IndexSegment.java:118-133 | `merge` builds the union segment and returns it, or throws what writing it throws |
| SegmentMerge.RawAggHas | src/main/java/com/ksu/indexer/core/IndexSegment.java:121-125 | a term is collected exactly when some segment has it, with every raw id any segment lists for it |
| SegmentMerge.MergeUnionsRaw | src/main/java/com/ksu/indexer/core/IndexSegment.java:118-129 | the merged segment has exactly the inputs' terms, each with the ascending union of their raw lists |
| SegmentMerge.MergeRevivesDeleted | src/main/java/com/ksu/indexer/core/IndexSegment.java:121-127 | a deleted id comes back as a live posting in the merged segment |
| SegmentMerge.MergeMaxDocId | src/main/java/com/ksu/indexer/core/IndexSegment.java:130 | `maxDocId` is the largest union size, or 0 without terms |
| SegmentMerge.MergeMaxDocIdIsNotLargestId | src/main/java/com/ksu/indexer/core/IndexSegment.java:130 | a segment holding only id 5 merges into one whose `maxDocId` is 1 |
| SegmentMerge.MergeAdmitsTerms | src/main/java/com/ksu/indexer/core/IndexSegment.java:126-129 | every merged term passes the new filter |
| RemapMerge.LiveSet | src/main/java/com/ksu/indexer/core/IndexSegment.java:179-185 | a part's live docs are every id some term's filtered postings list |
| RemapMerge.LiveSets | src/main/java/com/ksu/indexer/core/IndexSegment.java:177-186 | step 0 computes the live docs of every part, by position |
| RemapMerge.NumberParts | src/main/java/com/ksu/indexer/core/IndexSegment.java:190-201 | step 1 builds `remap`, one `oldToNew` map per part and `nextNewId == |remap|` as an `int` |
| RemapMerge.NumberNext | src/main/java/com/ksu/indexer/core/IndexSegment.java:193-200 | one part is numbered after the parts before it |
| RemapMerge.NumberPart | src/main/java/com/ksu/indexer/core/IndexSegment.java:194-199 | a part's live ids, ascending, get consecutive new ids and one pointer each |
| RemapMerge.MapIds | src/main/java/com/ksu/indexer/core/IndexSegment.java:212-215 | the inner loop adds the new id of each filtered posting |
| RemapMerge.AddPart | src/main/java/com/ksu/indexer/core/IndexSegment.java:207-216 | one part's entries: each term with live postings gets their new ids; other terms are skipped |
| RemapMerge.RemapPostings | src/main/java/com/ksu/indexer/core/IndexSegment.java:204-217 | step 2 collects, for each term, the renumbered live postings of every part |
| RemapMerge.LivePostingsAre | src/main/java/com/ksu/indexer/core/IndexSegment.java:209-210 | the filtered list, as a set, decides both the skip and the ids added |
| RemapMerge.RenumberingsCoverLive | src/main/java/com/ksu/indexer/core/IndexSegment.java:213 | every live doc of a part has a new id, so `map.get(oldId)` never returns `null` |
| RemapMerge.Returned | src/main/java/com/ksu/indexer/core/IndexSegment.java:238-241 | the result is returned exactly when the file is written, else the write's exception is thrown |
| RemapMerge.MergeWithRemap | src/main/java/com/ksu/indexer/core/IndexSegment.java:172-247 | `mergeWithRemap` returns the renumbered segment and its remap as a `MergedResult`, or throws what writing throws |
| RemapFacts.RemapSize | src/main/java/com/ksu/indexer/core/IndexSegment.java:193-201 | `remap` has one entry per live doc of the parts |
| RemapFacts.RemapCounts | src/main/java/com/ksu/indexer/core/IndexSegment.java:190-231 | `|remap|` is the live doc count, `maxDocId` is that count as an `int`, and nothing is deleted |
| RemapFacts.RemapPointsBack | src/main/java/com/ksu/indexer/core/IndexSegment.java:193-201 | each live doc's pointer sits at its new id, the part's offset plus its rank |
| RemapFacts.RemapFromLive | src/main/java/com/ksu/indexer/core/IndexSegment.java:190-201 | every remap entry is a live doc of a part whose new id is the entry's index, so ids run over `0..N-1` |
| RemapFacts.RenumberingRank | src/main/java/com/ksu/indexer/core/IndexSegment.java:195-198 | part `j`'s `i`-th live doc, ascending, gets new id `nextNewId` as it stood after the parts before, plus `i`, as an `int` |
| RemapFacts.AggOverHas | src/main/java/com/ksu/indexer/core/IndexSegment.java:204-217 | a term is collected exactly when a part has live postings for it, with exactly their new ids |
| RemapFacts.RemapPostingsHold | src/main/java/com/ksu/indexer/core/IndexSegment.java:203-225 | the merged term lists hold exactly the new ids of the live postings, ascending; terms without live postings are omitted |
| RemapFacts.RemapIdsInRange | src/main/java/com/ksu/indexer/core/IndexSegment.java:203-231 | with at most `Integer.MAX_VALUE` live docs, every stored id is in `[0, maxDocId)` |
| RemapFacts.RemapAdmitsTerms | src/main/java/com/ksu/indexer/core/IndexSegment.java:233-235 | every merged term passes the rebuilt filter |
| DPMergePlanner.ToInt | src/main/java/com/ksu/indexer/planner/DPMergePlanner.java:27 | the `(int)` cast of a non-negative value drops its fraction and saturates at `Integer.MAX_VALUE` |
| DPMergePlanner.Cost | src/main/java/com/ksu/indexer/planner/DPMergePlanner.java:26 | every cost is at least 1, and it is the size estimate when that is positive |
| DPMergePlanner.BenefitCoversCost | src/main/java/com/ksu/indexer/planner/DPMergePlanner.java:27 | a benefit is at least its cost, and equals it without deletions |
| DPMergePlanner.MakeCandidates | src/main/java/com/ksu/indexer/planner/DPMergePlanner.java:24-29 | the candidates loop builds one candidate per segment, in list order |
| DPMergePlanner.CandidatesFit | src/main/java/com/ksu/indexer/planner/DPMergePlanner.java:25-29 | every cost is at least 1; with non-negative counters every benefit covers its cost |
| DPMergePlanner.FillTable | src/main/java/com/ksu/indexer/planner/DPMergePlanner.java:33-45 | the nested loops fill `dp` and `take` with the recurrence, an item replacing the value above only on strict improvement |
| DPMergePlanner.FillRow | src/main/java/com/ksu/indexer/planner/DPMergePlanner.java:35-44 | one row of the table from the row above |
| DPMergePlanner.Backtrack | src/main/java/com/ksu/indexer/planner/DPMergePlanner.java:46-55 | backtracking collects the taken segments, last candidate first; `budget == -1` with a candidate indexes out of bounds |
| DPMergePlanner.Plan | src/main/java/com/ksu/indexer/planner/DPMergePlanner.java:23-56 | `plan` returns the choice the table and backtracking make, or the exception of the arrays or the walk |
| DPMergePlanner.Picks | src/main/java/com/ksu/indexer/planner/DPMergePlanner.java:48-53 | backtracking picks distinct candidates, highest index first |
| DPMergePlanner.PicksWithinBudget | src/main/java/com/ksu/indexer/planner/DPMergePlanner.java:46-54 | the chosen candidates' costs add up to at most the budget |
| DPMergePlanner.BestStep | src/main/java/com/ksu/indexer/planner/DPMergePlanner.java:36-42 | without overflow each table cell is the better of leaving and taking the item |
| DPMergePlanner.PicksAchieveBest | src/main/java/com/ksu/indexer/planner/DPMergePlanner.java:46-54 | without overflow the chosen benefits add up to `dp[n][budget]` |
| DPMergePlanner.BestIsOptimal | src/main/java/com/ksu/indexer/planner/DPMergePlanner.java:33-45 | without overflow no choice within cost `w` among the first `i` candidates beats `dp[i][w]` |
| DPMergePlanner.PlanOptimal | src/main/java/com/ksu/indexer/planner/DPMergePlanner.java:23-56 | `plan` returns distinct segments within budget, worth at least as much as any other choice within budget |
| DPMergePlanner.PlanEdges | src/main/java/com/ksu/indexer/planner/DPMergePlanner.java:30-32 | `budget + 1` negative or overflowing throws `NegativeArraySizeException`; no segments gives no choice; `budget == -1` with segments indexes out of bounds |
| DPMergePlanner.TieKeepsFirst | src/main/java/com/ksu/indexer/planner/DPMergePlanner.java:39-42 | an item that only ties the value above is left out |
| DPMergePlanner.WrapCanMissOptimum | src/main/java/com/ksu/indexer/planner/DPMergePlanner.java:38-39 | when benefits overflow `int`, the plan can miss a better choice |
| GreedyMergePlanner.Ratios | src/main/java/com/ksu/indexer/planner/GreedyMergePlanner.java:11 | the sort key of each segment is its deleted ratio |
| GreedyMergePlanner.SortedOrderOrdered | src/main/java/com/ksu/indexer/planner/GreedyMergePlanner.java:11 | the stable descending sort orders by ratio, and equal ratios keep list order |
| GreedyMergePlanner.OrderIsPermutation | src/main/java/com/ksu/indexer/planner/GreedyMergePlanner.java:10-11 | the sort lists every segment exactly once |
| GreedyMergePlanner.TopOrder | src/main/java/com/ksu/indexer/planner/GreedyMergePlanner.java:10-12 | the first `m` of the order precede one another and beat every segment left out |
| GreedyMergePlanner.PlanPicksHighestRatios | src/main/java/com/ksu/indexer/planner/GreedyMergePlanner.java:8-13 | `plan` returns the first `min(maxToPick, n)` of the stable order, so no segment left out has a higher ratio |
| GreedyMergePlanner.PlanEdges | src/main/java/com/ksu/indexer/planner/GreedyMergePlanner.java:12 | a negative size throws, 0 picks nothing, and a size of at least `n` picks every segment |
| ManifestStore.Upsert | src/main/java/com/ksu/indexer/storage/ManifestStore.java:39-42 | the segment row for the id holds the path; other rows and tables are kept |
| ManifestStore.Remove | src/main/java/com/ksu/indexer/storage/ManifestStore.java:48-50 | the segment row for the id is gone; other rows and tables are kept |
| ManifestStore.MapDoc | src/main/java/com/ksu/indexer/storage/ManifestStore.java:51-53 | the key now resolves to the file id; every other key resolves as before |
| ManifestStore.FindDocsByFileId | src/main/java/com/ksu/indexer/storage/ManifestStore.java:55-57 | the keys found are exactly those resolving to the file id |
| ManifestStore.AddTombstone | src/main/java/com/ksu/indexer/storage/ManifestStore.java:67-69 | the key is tombstoned, the others as before |
| ManifestStore.AddTombstoneByFileId | src/main/java/com/ksu/indexer/storage/ManifestStore.java:76-78 | the file id is tombstoned, the others as before |
| ManifestStore.DeleteDocmapBySegment | src/main/java/com/ksu/indexer/storage/ManifestStore.java:97-99 | the segment's doc rows are gone; every other row is kept |
| ManifestStore.WritesIdempotent | src/main/java/com/ksu/indexer/storage/ManifestStore.java:39-94 | every `MERGE` row write done twice is the same as done once |
| ManifestStore.UpsertThenRemove | src/main/java/com/ksu/indexer/storage/ManifestStore.java:39-50 | a later `upsert` of an id wins, and `remove` after `upsert` leaves no row for it |
| ManifestStore.MapDocThenFind | src/main/java/com/ksu/indexer/storage/ManifestStore.java:51-57 | a mapped doc is found by its file id and by no other, until its segment's rows are deleted |
| ManifestStore.DeleteDocmapBySegmentIdempotent | src/main/java/com/ksu/indexer/storage/ManifestStore.java:97-99 | deleting a segment's doc rows twice is deleting them once, and no row of it is left |
| SegmentHits.AddAll | src/main/java/com/ksu/indexer/service/SearchService.java:88-90 | `computeIfAbsent(...).add` over a list: the segment gets exactly the old ids and the listed ones |
| SegmentHits.AddEach | src/main/java/com/ksu/indexer/service/SearchService.java:88-90 | the loop adds every listed id |
| SegmentHits.Intersect | src/main/java/com/ksu/indexer/service/SearchService.java:95-100 | the per-segment intersection keeps only segments present in both maps, and none with an empty set |
| SegmentHits.IntersectHas | src/main/java/com/ksu/indexer/service/SearchService.java:95-100 | a pair survives the intersection exactly when both maps have it |
| SegmentHits.IntersectEmpty | src/main/java/com/ksu/indexer/service/SearchService.java:95-100 | intersecting with an empty map, on either side, gives the empty map |
| SegmentHits.IntersectSelf | src/main/java/com/ksu/indexer/service/SearchService.java:95-100 | a map without empty sets intersected with itself is unchanged, so repeating a term does not narrow the AND |
| SegmentHits.RetainAll | src/main/java/com/ksu/indexer/service/SearchService_backup.java:44-49 | the `retainAll`/`remove` loop over a key snapshot computes the intersection |
| SegmentHits.BuildLocal | src/main/java/com/ksu/indexer/service/SearchService.java:85-92 | the segment loop builds one term's map |
| SegmentHits.UnionLocalHas | src/main/java/com/ksu/indexer/service/SearchService.java:85-92 | a pair is in a term's map exactly when a segment with that id admits the term and lists the doc |
| SegmentHits.AndAllHas | src/main/java/com/ksu/indexer/service/SearchService_backup.java:31-51 | with a `null`-started accumulator a pair survives exactly when every term's map has it |
| SegmentHits.AndAllEmptyStays | src/main/java/com/ksu/indexer/service/SearchService_backup.java:42-49 | once the AND is empty no later term brings anything back |
| SegmentHits.ReviveRestarts | src/main/java/com/ksu/indexer/service/SearchService.java:93 | an emptied accumulator is replaced by the next term's map |
| SegmentHits.ReviveIsAnd | src/main/java/com/ksu/indexer/service/SearchService.java:93-101 | while no prefix empties it, the reviving combination is the AND |
| SearchService.PutLocal | src/main/java/com/ksu/indexer/service/SearchService.java:43-48 | the legacy term map has only ids of the segments |
| SearchService.BuildPutLocal | src/main/java/com/ksu/indexer/service/SearchService.java:43-48 | the legacy segment loop: a later segment with the same id replaces an earlier one |
| SearchService.PutLocalIsUnion | src/main/java/com/ksu/indexer/service/SearchService.java:44-47 | with distinct segment ids, `put` and adding give the same map |
| SearchService.Combine | src/main/java/com/ksu/indexer/service/SearchService.java:49-59 | the first map is taken; a later one intersects, the `keySet().retainAll` step included |
| SearchService.CollectFileIds | src/main/java/com/ksu/indexer/service/SearchService.java:64-71 | the collection loop returns each resolved file id of the surviving pairs once |
| SearchService.SearchFileIdsLegacy | src/main/java/com/ksu/indexer/service/SearchService.java:34-76 | the distinct file ids of the surviving pairs, or `NullPointerException` when no term is non-blank |
| SearchService.LegacySurvivors | src/main/java/com/ksu/indexer/service/SearchService.java:37-72 | a file id is returned exactly when a pair mapped to it is in every non-blank term's map; without such a term the search fails |
| SearchService.LegacyNothingLeft | src/main/java/com/ksu/indexer/service/SearchService.java:60 | an emptied accumulator gives the empty list |
| SearchService.LegacyStaysEmpty | src/main/java/com/ksu/indexer/service/SearchService.java:41-61 | once the legacy AND is empty it stays empty, so returning early changes nothing |
| SearchService.SearchV2 | src/main/java/com/ksu/indexer/service/SearchService.java:79-132 | `searchV2` returns one row per surviving pair that resolves to a file that is not file-tombstoned, none twice |
| SearchService.CollectRows | src/main/java/com/ksu/indexer/service/SearchService.java:104-127 | the row loop emits one row per resolving, non-tombstoned pair |
| SearchService.V2Revives | src/main/java/com/ksu/indexer/service/SearchService.java:93 | after an emptied accumulator the next term's map is the whole result so far |
| SearchService.EmptiedInTheMiddle | src/main/java/com/ksu/indexer/service/SearchService.java:93-101 | for maps `h, {}, h` the AND is empty, yet the reviving combination ends with `h` |
| SearchService.V2RevivesEmptiedAnd | src/main/java/com/ksu/indexer/service/SearchService.java:82-127 | the query "b zzz b" finds a document without "zzz" |
| SearchService.RevivalExample | src/main/java/com/ksu/indexer/service/SearchService.java:82-127 | over any segment holding one doc with "b" only, "b zzz b" returns it though the AND is empty |
| SearchService.V2IntendedIsAnd | src/main/java/com/ksu/indexer/service/SearchService.java:79-127 | the corrected search returns a row exactly when its pair is in every term's map and its file resolves and is not tombstoned |
| SearchService.V2MatchesIntended | src/main/java/com/ksu/indexer/service/SearchService.java:84-102 | while no prefix of the terms empties the accumulator, `searchV2` returns the intended rows |
| SearchServiceBackup.Accumulate | src/main/java/com/ksu/indexer/service/SearchService_backup.java:42-50 | the first map is taken, a later one intersects in place |
| SearchServiceBackup.BackupSurvivors | src/main/java/com/ksu/indexer/service/SearchService_backup.java:28-52 | no accumulator exactly when the query splits into no terms; else a pair survives exactly when every term finds it live |
| SearchServiceBackup.DeletedNeverFound | src/main/java/com/ksu/indexer/service/SearchService_backup.java:37 | a doc deleted in its segment never contributes |
| SearchServiceBackup.BackupStaysEmpty | src/main/java/com/ksu/indexer/service/SearchService_backup.java:42-50 | once the accumulator is empty it stays empty: no revival |
| SearchServiceBackup.AddHashes | src/main/java/com/ksu/indexer/service/SearchService_backup.java:57-59 | the inner loop appends one hash per doc id of a segment after what is already there |
| SearchServiceBackup.CollectHashes | src/main/java/com/ksu/indexer/service/SearchService_backup.java:55-60 | the output loop visits each surviving pair once and emits its hash, so there are as many hashes as pairs and the values are exactly the pairs' hashes |
| SearchServiceBackup.SortInts | src/main/java/com/ksu/indexer/service/SearchService_backup.java:61 | `Collections.sort` gives the same values in ascending order |
| SearchServiceBackup.Search | src/main/java/com/ksu/indexer/service/SearchService_backup.java:25-66 | `search` returns the surviving pairs' hashes in ascending order, one per pair with no dedup: as many values as pairs, and exactly their hashes |
| SearchServiceBackup.AnswerCounts | src/main/java/com/ksu/indexer/service/SearchService_backup.java:55-62 | there are as many hashes as surviving pairs, and a value occurs exactly when it hashes some pair |
| SearchServiceBackup.PairHashCollides | src/main/java/com/ksu/indexer/service/SearchService_backup.java:58 | two different pairs can share an `Objects.hash` |
| Coordinator.DeltaNamesDistinct | src/main/java/com/ksu/indexer/service/IndexService.java:58 | different counter values name different delta segments |
| Coordinator.DeltaIsNotMerge | src/main/java/com/ksu/indexer/service/IndexService.java:58 | a delta segment and a merged segment never share an id |
| Coordinator.EventManifestRows | src/main/java/com/ksu/indexer/service/IndexService.java:61-76 | the file's earlier docs get doc tombstones, no file tombstone is added, and a non-DELETE event maps (delta, 1) to the file |
| Coordinator.EventSegmentDocs | src/main/java/com/ksu/indexer/service/IndexService.java:58-76 | a non-DELETE event's delta holds doc 1 under each token; a DELETE's delta is empty |
| Coordinator.NewDelta | src/main/java/com/ksu/indexer/service/IndexService.java:58-76 | the delta is built by `addDoc` unless the event is a DELETE, and its doc id is 1 |
| Coordinator.FreshDoc | src/main/java/com/ksu/indexer/service/IndexService.java:70-76 | the first `addDoc` on a new delta gives id 1, listed under exactly the doc's terms |
| Coordinator.TombstoneAll | src/main/java/com/ksu/indexer/service/IndexService.java:63-67 | the loop tombstones every row found |
| Coordinator.CollapseSlashes | src/main/java/com/ksu/indexer/service/IndexService.java:35 | runs of '/' become one '/'; the first and last characters are kept; a string without a repeated '/' is unchanged |
| Coordinator.NormPath | src/main/java/com/ksu/indexer/service/IndexService.java:35 | `Path.of` on Unix: the result has no repeated '/' and no trailing '/' except for the root, is absolute exactly when the input is, and leaves normalised strings unchanged |
| Coordinator.Resolve | src/main/java/com/ksu/indexer/service/IndexService.java:80 | `resolve` of normalised paths gives a normalised path, and a relative non-empty child under an ordinary directory is joined with exactly one '/' |
| Coordinator.SegPathPlain | src/main/java/com/ksu/indexer/service/IndexService.java:80 | for a plain directory name and id, the registered path is `dir/id.seg` |
| Coordinator.SegPathTrailingSlash | src/main/java/com/ksu/indexer/service/IndexService.java:35 | `index.dir=segments/` registers `segments/delta-1.seg` |
| Coordinator.SegPathRoot | src/main/java/com/ksu/indexer/service/IndexService.java:80 | the root directory registers `/delta-1.seg` |
| Coordinator.SegPathRepeatedSlash | src/main/java/com/ksu/indexer/service/IndexService.java:35 | the directory `a//b` registers `a/b/x.seg` |
| Coordinator.IndexService.constructor | src/main/java/com/ksu/indexer/service/IndexService.java:34-54 | the service starts with the reloaded segments, the manifest, a zero counter and the directory as `Path.of` normalises it |
| Coordinator.IndexService.CurrentSegments | src/main/java/com/ksu/indexer/service/IndexService.java:88-90 | a snapshot of the live list |
| Coordinator.IndexService.ApplyEvent | src/main/java/com/ksu/indexer/service/IndexService.java:56-86 | the counter moves on; the doc rows change; the delta is listed and registered, or the write's failure is thrown |
| Coordinator.RebuildRows | src/main/java/com/ksu/indexer/service/IndexService.java:100-106 | merged doc `i` resolves to the file of the doc it came from, and every other row is kept |
| Coordinator.RetireRows | src/main/java/com/ksu/indexer/service/IndexService.java:107-112 | the chosen ids are gone from the segment table and the doc map; tombstones are untouched |
| Coordinator.RemoveAllCounts | src/main/java/com/ksu/indexer/service/IndexService.java:107-108 | `liveSegments.remove` takes away one copy per chosen segment and nothing else |
| Coordinator.RemoveAllSubseq | src/main/java/com/ksu/indexer/service/IndexService.java:107-108 | the segments left keep their relative order |
| Coordinator.ChosenGone | src/main/java/com/ksu/indexer/service/IndexService.java:107-108 | a segment chosen as often as it is listed is gone from the live list |
| Coordinator.MergeEffects | src/main/java/com/ksu/indexer/service/IndexService.java:97-115 | after a merge whose merged id is none of the chosen ids: unchosen segments in order then the merged one; chosen ids retired; merged id registered; merged docs resolve to their source files |
| Coordinator.MergeIdReused | src/main/java/com/ksu/indexer/service/IndexService.java:96-114 | when `merge-<millis>` equals a chosen id, the id stays registered but none of the merged docs resolves to a file, since `deleteDocmapBySegment` removes the rows just written |
| Coordinator.IndexService.ApplyMerge | src/main/java/com/ksu/indexer/service/IndexService.java:95-115 | an empty choice changes nothing and returns 0; else the merge's exception, or the merge's effects and `|choice|` |
| Coordinator.IndexService.MergeWithDPBudget | src/main/java/com/ksu/indexer/service/IndexService.java:92-116 | the knapsack planner's exception, or the merge of its choice |
| Coordinator.IndexService.MergeGreedy | src/main/java/com/ksu/indexer/service/IndexService.java:118-142 | the greedy planner's exception, or the merge of its choice |

## Findings

| source | as written | input that shows it | evidently intended | confidence | as-written member | corrected member |
|---|---|---|---|---|---|---|
| src/main/java/com/ksu/indexer/service/SearchService.java:93-101 | `searchV2` replaces an emptied accumulator with the next term's map, so an AND that became empty can fill up again | the query "b zzz b" over one segment "delta-1" whose only doc, 1, has the single term "b" and maps to file "f": no doc has "zzz", yet the row (delta-1, 1, f) is returned | a boolean AND over all terms: an emptied accumulator stays empty and the result is empty | not executed; high | SearchService.V2RevivesEmptiedAnd | SearchService.V2IntendedIsAnd |

## Left out

- File system: `Files.createDirectories`, the streams and `Files.deleteIfExists` are not modelled. Whether writing a segment file fails is a parameter `io` of `Saved`, `Merge`, `MergeWithRemap`, `ApplyEvent` and the merges. `load` reads a byte sequence. Deleting the chosen segments' files after a merge is not modelled.
- `reloadFromManifest` (src/main/java/com/ksu/indexer/service/IndexService.java:46-54): the segments it manages to load are a parameter of the `IndexService` constructor. Its swallowed exceptions are not modelled.
- Coordinator.IndexService.constructor: paths follow the Unix file system. The `InvalidPathException` that `Path.of` throws for a directory containing a NUL character is not modelled, and neither are other platforms' separators.
- Concurrency: `CopyOnWriteArrayList` and `AtomicInteger` become a plain sequence and an `int32` counter. The coordinator runs one call at a time, so racing merges and snapshot isolation are not modelled.
- Metrics: the Micrometer timers and `System.nanoTime` are not modelled.
- The clock: the `System.currentTimeMillis()` that names a merged segment is a parameter `millis`.
- Coordinator.MergeEffects: assumes the merged id `merge-<millis>` is none of the chosen ids. Two merges in the same millisecond can repeat a name, and then the model follows the code (`MergeIdReused`): the merged docs resolve to nothing. `Files.deleteIfExists` deleting the new `.seg` file is not modelled, because the model has no file system.
- SegmentFormat.Saved: when a segment has a term too long for `writeUTF` and another term's postings too long for an array, the model always reports `UTFDataFormatException`. Java throws whichever the map's iteration order reaches first. `EntriesBytes` models that order, and `SavedErrorIsPersistError` shows the two agree whenever only one kind of failure is present.
- SQL: the DDL, `JdbcTemplate` and the row maps are not modelled. `ManifestStore` is its four tables, and the `file_versions`/`file_heads` tables, which the core never touches, are not modelled.
- `Objects.hash` and `String.hashCode` are modelled exactly (UTF-16 units, 31-multiplier, `int` wrap). `HashMap`/`HashSet` iteration order is not modelled: loops take elements in an arbitrary order and results are sets.
- The dead `mergeWithRemap` inside the comment at src/main/java/com/ksu/indexer/core/IndexSegment.java:142-161 is not modelled.
- The test `newId != null` at src/main/java/com/ksu/indexer/core/IndexSegment.java:214 is always true for a merge that got this far, and the model always adds the id.
- Object identity: `mergeWithRemap`'s maps keyed by `IndexSegment` are modelled by position. The same segment object passed twice is not modelled: Java keeps one map for it. `liveSegments.remove(s)` compares segment values, not identities.
- Segments published to the live list are values. The coordinator never mutates them again (`deleteDoc` has no caller in the core), so only `addDoc`/`deleteDoc`/`mightContainTerm` act on the `IndexSegment` class.
- Unicode: `toLowerCase` is ASCII-only. A character Java lowers to an ASCII letter, such as the Kelvin sign U+212A, is a separator here, and lower-casing that changes a string's length is not modelled. The regular-expression engine is replaced by an explicit split on one separator class.
- `readUTF` of a lone surrogate fails with `UnpairedSurrogate`: a Dafny string cannot hold one, while Java keeps it.
- Floating point: `deletedRatio` is an exact real. The benefit `cost * (1 + ratio * 10)` is computed exactly before the `(int)` cast, so double rounding is not modelled.
- BloomFilter.BloomFilter.constructor: only sizes `m >= 1` are modelled. The core always uses 2^20, and a non-positive `m` would throw in `new BitSet` or in `%`.
- DPMergePlanner.Plan: requires at most `Integer.MAX_VALUE` segments, as every Java list has.
- DPMergePlanner.PlanOptimal: optimality is proved only when no sum of benefits overflows `int` and every segment's `maxDocId` is non-negative. `DPMergePlanner.WrapCanMissOptimum` shows that the plan can miss the optimum once sums overflow.
- Coordinator.IndexService.MergeWithDPBudget: requires at most `Integer.MAX_VALUE` live segments, which `Plan` needs.
- Coordinator.IndexService.ApplyMerge: a remap longer than `Integer.MAX_VALUE` is reported as `OutOfMemoryError` with nothing changed. Java cannot build such a list.
- IndexSegment.AddDocKeepsWellFormed: the invariant is proved only while `maxDocId < Integer.MAX_VALUE`. `AddDoc` itself models the wrap of `++maxDocId`.
- RemapFacts.RemapIdsInRange: holds only while the live doc count fits an `int`. Past that, `nextNewId` wraps, as `RemapCounts` states.
- SegmentFormat.LoadPersisted: requires at most `Integer.MAX_VALUE` terms and deleted ids, and a filter built from the segment's own terms, as every segment the core builds has. `load` rebuilds the filter, so other filters are not restored.
- Exceptions are values: `ApplyEvent` returns the failure it would rethrow, without the `RuntimeException` wrapper.
- Tokenizer.Normalize: the character class `[^a-z0-9\s]` is modelled with `\s` as the space character. That is what the Java string literal makes of it.
- The web controllers (`IngestController`, `SearchController`, `DebugController`) and `OpenApiConfig` are not modelled: they only call the services.
- `FileEvent`'s accessors and its `metadata`/`ts` fields: the event is the datatype `Coordinator.FileEvent` with the three fields the core reads, each possibly `null`.
