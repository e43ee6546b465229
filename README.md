# wikipedia-pagerank, modelled in Dafny

This project models the bookkeeping and update rules of a small PageRank
pipeline for a Wikipedia dump.

- **build_structures.go** packs every page's backlinks into a compressed
  layout: a flat array, a per-page count and an inclusive running sum.
- **util.go** writes these arrays as length-prefixed little-endian uint32
  files and reads them back.
- **compute_pagerank.go** sweeps the ranks in place until the difference
  between two sweeps falls below a threshold.
- **The Python tools** under `data/` do the following:
  - decode the layout;
  - invert backlinks into outlinks;
  - normalise ranks by the smallest one;
  - rerun PageRank with a snapshot sweep;
  - greedily pick pages to add links to, to reach a target normalised rank,
    and derive the edited graph;
  - build the self-loop transition triples used for clustering.

The modules follow the source files:

| module | file | models |
|---|---|---|
| `Wire` | util.dfy | `WriteArray`/`ReadArray` as an encoding over byte sequences, plus the two loops |
| `Csr` | csr.dfy | the backlink layout: encoding, decoding with Python slice clamping, prefix sums, tiling |
| `Rank` | rank.dfy | the update rule over reals; the snapshot sweep (Python) and the in-place sweep (Go); page count; mean absolute difference |
| `BuildStructures` | build_structures.dfy | max-id loop, packing loop with `copy` into the flat array, `populate_outlinks_count` |
| `ComputePagerank` | compute_pagerank.dfy | page count, initialisation, single-threaded sweep, `compute_difference` on uint32 words, one turn of the outer loop (ten sweeps, then the word test) |
| `PagerankUtils` | pagerank_utils.dfy | dict/array conversions, `pagerank_iter`, `compute_difference`, one step of `converge_pageranks` |
| `DataUtils` | data_utils.dfy | the decode loop of `get_backlinks`, `get_outlinks`, `normalized_pageranks` |
| `ScamPagerank` | scam_pagerank2.dfy | `inflate_page_rank` (boost, stable sort, greedy loop); the edit derivation and final normalisation of `evaluate_scam` |
| `DefeatScams` | defeat_scams.dfy | the self-loop mutation (a class over the caller's dict) and the weight triples of `get_probability_matrix` |

Ranks are real numbers standing in for float32. Both sweeps compute the same
new rank for a page:

    (1 - damping) / num_pages + damping * Σ rank[b] / outlinks_count[b]

The sum runs over the slice `[start, start + count[id])`, where `start` is 0
for the first page and `cumsum[id - 1]` otherwise. The two sweeps differ in
what they read:

- The Python sweep reads a snapshot taken before the loop.
- The Go sweep, run on one thread, reads values already updated earlier in
  the same sweep.

`Rank.SweepsDiffer` shows a two-page graph on which the two sweeps give
different results. The stopping rules also differ: the Python loop goes on
while the difference is `> CHANGE_THRESHOLD`, and the Go loop stops once it is
`< CHANGE_THRESHOLD`.

## Model

| member | source | states |
|---|---|---|
| Wire.WriteArray | util/util.go:18-27 | the bytes written are the length converted to uint32, then each element, each as four little-endian bytes (`Encode`) |
| Wire.EncodeLength | util/util.go:18-27 | the output of an n-element array is 4*(n+1) bytes |
| Wire.WordBytesRoundTrip | util/util.go:24 | the four little-endian bytes of a word read back as that word |
| Wire.EncodeWordsAt | util/util.go:23-27 | the word at byte offset 4*i of the element bytes is element i |
| Wire.ReadArray | util/util.go:40-47 | reads the length word, then exactly that many words. EOF if the stream is empty or ends right after a non-zero length; UnexpectedEOF if a word is cut short |
| Wire.DecodeEncode | util/util.go:18-47 | for arrays shorter than 2^32, reading what was written gives back the array; trailing bytes are ignored |
| Wire.LengthWordOfEncode | util/util.go:18-43 | the first word of the written bytes is the length, for arrays shorter than 2^32, whatever follows |
| Wire.ElementWordOfEncode | util/util.go:23-46 | the word after the length word and i earlier words is element i, whatever follows |
| Wire.DecodeFailsIffShort | util/util.go:41-47 | reading fails exactly when the stream is shorter than its length word or than the words it declares |
| Csr.PySlice | data/data_utils.py:16 | Python slicing clamps to the sequence; it is the plain slice when the bounds are inside |
| Csr.DecodeAt | data/data_utils.py:14-16 | the list of page i: the clamped slice of the flat array from its start (0 or cumsum[i-1]), count[i] long |
| Csr.Decode | data/data_utils.py:13-16 | one list per entry of the count array |
| Csr.Encode | data/pagerank_utils.py:19-27 | the flat concatenation of the lists, their lengths and the inclusive running sums of the lengths |
| Csr.PrefixSumAt | data/pagerank_utils.py:26 | entry i of the running sum is count[0] + ... + count[i] (inclusive) |
| Csr.FlattenLength | data/pagerank_utils.py:22-25 | the flat array is as long as all lists together (the last running sum) |
| Csr.SegmentOfFlatten | data/pagerank_utils.py:22-26 | the segment of the flat array that ends at cumsum[id] and is count[id] long is exactly the list of id |
| Csr.SliceStartOfEncode | compute_pagerank/compute_pagerank.go:37-43 | on an encoded layout the slice start of id (0 or cumsum[id-1]) is cumsum[id] - count[id] |
| Csr.DecodeEncode | data/data_utils.py:13-16 | decoding the layout built from per-page lists gives back those lists |
| Csr.PrefixSumPrefix | data/pagerank_utils.py:26 | the running sums of a prefix of the counts are a prefix of the running sums |
| Csr.SliceStartIsSum | compute_pagerank/compute_pagerank.go:37-43 | for a consistent layout, page k's slice starts at the sum of the counts before k |
| Csr.DecodeTiles | data/data_utils.py:13-16 | for a consistent layout, page i gets exactly count[i] backlinks and the decoded slices, put back in order, are the flat array |
| Csr.DecodeTilesStep | data/data_utils.py:13-16 | decoding one more page of a consistent layout extends the covered prefix of the flat array by exactly that page's count[k] backlinks |
| Csr.WorkedExample | build_structures/build_structures.go:4-13 | links 0→1, 0→2, 1→3, 2→1 give backlinks [0,2,0,1], counts [0,2,1,1] and cumsum [0,2,3,4] |
| Rank.NumPages | data/pagerank_utils.py:9-12 | the page count is the number of ids with a positive outlink count, so at most the array length |
| Rank.Readable | compute_pagerank/compute_pagerank.go:37-50 | what a sweep reads: every page's slice inside the flat array, and each backlink in a slice a page with a positive outlink count; entries outside the slices are unconstrained |
| Rank.PaddedLayoutReadable | build_structures/build_structures.go:112-131 | a layout with zero padding after the packed backlinks is readable even when page 0, which the padding names, has no outlinks |
| Rank.NewRank | compute_pagerank/compute_pagerank.go:29-52 | (1 - damping) / num_pages + damping times the sum of rank[b] / outlinks_count[b] over the slice of id |
| Rank.SnapshotSweep | data/pagerank_utils.py:40-48 | every page's new rank computed from the ranks as they were before the sweep |
| Rank.InPlaceSweep | compute_pagerank/compute_pagerank.go:31-56 | the pages written in increasing id order, each from the current contents of the array |
| Rank.MeanAbsDiff | data/pagerank_utils.py:50-56 | the sum of the absolute differences per id over the number of ids |
| Rank.SumAbsDiffZeroIff | data/pagerank_utils.py:53-55 | the accumulated absolute difference is non-negative and zero exactly when the prefixes agree |
| Rank.MeanAbsDiffZeroIff | data/pagerank_utils.py:50-56 | the average difference is non-negative and zero exactly when the two rank vectors agree |
| Rank.InPlacePrefixUntouched | compute_pagerank/compute_pagerank.go:31-56 | ids not reached yet keep their old value |
| Rank.InPlacePrefixStable | compute_pagerank/compute_pagerank.go:31-56 | an id, once written, is not written again |
| Rank.InPlacePrefixShape | compute_pagerank/compute_pagerank.go:31-56 | after ids 0..k-1 are written, the array holds their final values followed by the untouched rest |
| Rank.InPlaceReadsUpdatedPrefix | compute_pagerank/compute_pagerank.go:44-52 | the in-place value of page k is computed from the new values of earlier pages and the old values of later ones |
| Rank.SumSliceFrame | compute_pagerank/compute_pagerank.go:45-50 | the slice sum depends only on the terms inside the slice |
| Rank.NewRankFrame | compute_pagerank/compute_pagerank.go:44-52 | a page's new rank depends only on the ranks of its backlinks |
| Rank.FixedPointAgrees | data/pagerank_utils.py:41-48 | a fixed point of the snapshot sweep is a fixed point of the in-place sweep |
| Rank.ForwardLinksAgree | compute_pagerank/compute_pagerank.go:31-56 | when each page's backlinks are itself or later pages, the in-place sweep equals the snapshot sweep |
| Rank.SweepsDiffer | compute_pagerank/compute_pagerank.go:45-53 | with page 0 linking to page 1, only page 0 has outlinks, so numPages = 1; from ranks [1.0, 0.0] the snapshot sweep gives [0.15, 1.0] and the in-place sweep gives [0.15, 0.2775] |
| Rank.SumSliceNonNegative | compute_pagerank/compute_pagerank.go:45-50 | a slice of non-negative terms has a non-negative sum |
| Rank.NewRankAtLeastBase | compute_pagerank/compute_pagerank.go:29-52 | from non-negative ranks a new rank is at least (1 - damping) / num_pages |
| Rank.SweepsPositive | data/pagerank_utils.py:40-48 | with damping in [0,1), both sweeps give every page a rank of at least (1 - damping) / num_pages > 0 |
| BuildStructures.MaxId | build_structures/build_structures.go:100-105 | the result is at least every page id, and is either 0 or one of the ids (0 for no ids) |
| BuildStructures.CopyInto | build_structures/build_structures.go:128-129 | `copy` replaces exactly the target slice by the source |
| BuildStructures.PackLoop | build_structures/build_structures.go:115-131 | after the loop the flat array is the backlinks in id order followed by zeros; count[id] is the number of backlinks of id; cumsum[id] is the inclusive sum |
| BuildStructures.PackOne | build_structures/build_structures.go:126-130 | one turn of the loop body, in the Go order (count, running sum, copy), moves the packed state from id to id+1 |
| BuildStructures.PackStep | build_structures/build_structures.go:126-130 | the packed state after id is the state before it with count[id], cumsum[id] and id's slice of the flat array filled in |
| BuildStructures.PackBacklinks | build_structures/build_structures.go:112-131 | the three arrays are fresh and sized total_links, maxId+1 and maxId+1; they hold the flat backlinks, the counts and their running sums |
| BuildStructures.ZerosSplit | build_structures/build_structures.go:112 | the zero-initialised tail splits around the slice about to be filled |
| BuildStructures.GrowPrefix | build_structures/build_structures.go:126-130 | one more id grows the flat prefix by its backlinks and `prevcumsum` by their number |
| BuildStructures.PackedSegment | build_structures/build_structures.go:127-129 | the segment ending at cumsum[id], count[id] long, holds id's backlinks in query order |
| BuildStructures.PopulateOutlinksCount | build_structures/build_structures.go:71-83 | every entry is zeroed, then each row's count stored at its id: each entry is the count of the last row naming it, or 0 |
| BuildStructures.NoRowMeansZero | build_structures/build_structures.go:72-74 | an id that no row names stays 0 |
| BuildStructures.LastRowWins | build_structures/build_structures.go:76-83 | a later row for the same id overwrites an earlier one |
| ComputePagerank.CountPages | compute_pagerank/compute_pagerank.go:88-93 | num_pages is the number of positive outlink counts |
| ComputePagerank.InitRanks | compute_pagerank/compute_pagerank.go:96-102 | two fresh, distinct arrays, one entry per page; every old rank is 1/n and the ranks are an exact copy |
| ComputePagerank.Sweep | compute_pagerank/compute_pagerank.go:27-58 | one single-threaded pass writes each id once, in increasing order, from the current array contents (the in-place sweep) |
| ComputePagerank.SumBacklinks | compute_pagerank/compute_pagerank.go:44-52 | the inner loop adds rank[b] / outlinks_count[b] over the backlink slice of id, read from the current array |
| ComputePagerank.WordTerm | compute_pagerank/compute_pagerank.go:63 | the uint32 difference is p-o when p ≥ o and 2^32-(o-p) otherwise, and zero exactly when the words are equal |
| ComputePagerank.WordDifference | compute_pagerank/compute_pagerank.go:61-66 | the result is the sum of the wrapped word differences over the number of pages |
| ComputePagerank.WordSumZeroIff | compute_pagerank/compute_pagerank.go:62-64 | the summed word differences are zero exactly when the arrays are bit-for-bit equal |
| ComputePagerank.WordDifferenceBelowThresholdIff | compute_pagerank/compute_pagerank.go:118-121 | on at most ten million pages the word difference is below CHANGE_THRESHOLD only when the arrays are identical |
| ComputePagerank.QuotientBelowThresholdIff | compute_pagerank/compute_pagerank.go:65 | a whole-number sum over at most ten million pages is below CHANGE_THRESHOLD exactly when it is zero |
| ComputePagerank.QuotientAtLeastThreshold | compute_pagerank/compute_pagerank.go:65 | a sum of at least 1 over at most ten million pages is not below the threshold |
| ComputePagerank.HalfValues | compute_pagerank/compute_pagerank.go:47 | as float32, 0x3F000000 reads as 0.5 and 0x3F000001 as 0.5 + 2^-24 |
| ComputePagerank.WordDifferenceOnDecrease | compute_pagerank/compute_pagerank.go:63 | a rank falling by 2^-24 is below the threshold as a value but gives a word difference of 4294967295 |
| ComputePagerank.Sweeps | compute_pagerank/compute_pagerank.go:108-116 | the ranks after k in-place sweeps, one after another |
| ComputePagerank.SweepsKeepFixedPoint | compute_pagerank/compute_pagerank.go:108-116 | ranks that one sweep leaves unchanged stay unchanged after any number of sweeps |
| ComputePagerank.SweepsStayPositive | compute_pagerank/compute_pagerank.go:108-116 | after one or more sweeps from non-negative ranks, with damping in [0,1), every rank is at least (1 - damping) / num_pages > 0 |
| ComputePagerank.TenSweeps | compute_pagerank/compute_pagerank.go:108-116 | the ten `pagerank_iter` calls of one turn, run one after another: the ranks become ten in-place sweeps of the old ones |
| ComputePagerank.Words | compute_pagerank/compute_pagerank.go:52 | the stored word of each rank is its bit pattern |
| ComputePagerank.WordsUnchangedIff | compute_pagerank/compute_pagerank.go:118-119 | where the encoding tells each old and new rank apart, the stored words are unchanged exactly when the ranks are |
| ComputePagerank.Round | compute_pagerank/compute_pagerank.go:106-124 | one turn as written: ten sweeps; stop exactly when `compute_difference` of the stored words is below CHANGE_THRESHOLD, which on at most ten million pages means every word is unchanged; otherwise copy the ranks into the old ranks |
| ComputePagerank.RoundByValue | data/pagerank_utils.py:50-56 | the turn as intended: the same ten sweeps; stop exactly when the mean absolute difference of the rank values is below CHANGE_THRESHOLD; otherwise copy the ranks |
| PagerankUtils.RangeSet | data/pagerank_utils.py:79 | the ids 0..n-1 |
| PagerankUtils.RankDict | data/pagerank_utils.py:79 | the returned dict is keyed exactly by 0..n-1 |
| PagerankUtils.OptimizedRanks | data/pagerank_utils.py:14-17 | the array whose entry id is the rank of id, for ids 0..len-1 |
| PagerankUtils.OptimizedRanksRoundTrip | data/pagerank_utils.py:14-17 | array entry id is pageranks[id]; array→dict→array and dict→array→dict are both the identity for dicts keyed 0..n-1 |
| PagerankUtils.EncodeConsistent | data/pagerank_utils.py:19-27 | count[id] is len(backlinks[id]); the running sums are inclusive; the last equals the flat array's length |
| PagerankUtils.PagerankIter | data/pagerank_utils.py:34-48 | the array after the call is the snapshot sweep of the array before it, with `start` moving to cumsum[id] |
| PagerankUtils.WriteRank | data/pagerank_utils.py:45-48 | one turn of the loop: page id gets its snapshot-sweep value and `start` moves to cumsum[id] |
| PagerankUtils.ComputeDifference | data/pagerank_utils.py:50-56 | the result is the average absolute difference per id |
| PagerankUtils.ConvergeStep | data/pagerank_utils.py:68-78 | the sweep runs on a fresh copy and leaves the current array untouched; the loop goes on exactly when the difference exceeds CHANGE_THRESHOLD |
| DataUtils.GetBacklinks | data/data_utils.py:12-18 | one key per index of the count array, mapped to backlinks[start:start+count[i]] with start 0 or cumsum[i-1] |
| DataUtils.GetOutlinks | data/data_utils.py:20-27 | the result is the inversion of the (id, backlinks) pairs in the order given |
| DataUtils.Inverted | data/data_utils.py:23-26 | the defaultdict after appending each id to the list of each of its backlinks, entries in the order given |
| DataUtils.RepeatCount | data/data_utils.py:26 | appending id k times adds k occurrences of id and nothing else |
| DataUtils.AppendAllKeys | data/data_utils.py:23-26 | the defaultdict gains keys only for the backlinks seen |
| DataUtils.AppendAllGet | data/data_utils.py:25-26 | id is appended to the list of b once per occurrence of b |
| DataUtils.InvertedKeys | data/data_utils.py:23-26 | get_outlinks has a key for b exactly when b occurs in some backlink list |
| DataUtils.InvertedLength | data/data_utils.py:23-26 | the list of b is as long as b's occurrences over all backlink lists |
| DataUtils.InvertedOccurrences | data/data_utils.py:23-26 | id occurs in the list of b as often as b occurs among the backlinks of the entries for id |
| DataUtils.InvertedExact | data/data_utils.py:20-27 | keys are exactly the pages that occur as a backlink; the list of b is as long as b's occurrences; it names id as often as b occurs among id's backlinks |
| DataUtils.OutlinksInvertBacklinks | data/data_utils.py:24-26 | with distinct ids, id occurs in outlinks[b] as often as b occurs in backlinks[id] |
| DataUtils.OccurrencesOfDistinct | data/data_utils.py:24 | with distinct ids only the entry of id contributes its occurrences |
| DataUtils.Min | data/data_utils.py:38 | the minimum is at most every rank and is one of them |
| DataUtils.ScaledAt | data/data_utils.py:39 | dividing by a positive minimum gives a value that, times the minimum, is the rank; it is at least 1, and exactly 1 for the minimum |
| DataUtils.Normalized | data/data_utils.py:35-39 | every rank divided by the smallest one |
| DataUtils.NormalizedAtLeastOne | data/data_utils.py:35-39 | with positive ranks every normalised rank is ≥ 1 and the smallest becomes exactly 1 |
| ScamPagerank.BoostBounds | data/scam_pagerank2.py:43-45 | the estimated boost is between 0 and DAMPING*rank, since the denominator is at least 1 |
| ScamPagerank.Boost | data/scam_pagerank2.py:43-45 | DAMPING * rank / (outlinks_count + 1) |
| ScamPagerank.TargetDelta | data/scam_pagerank2.py:37-46 | rank * (amount / normalized) - rank: the raw rank still to be gained |
| ScamPagerank.TargetDeltaMeaning | data/scam_pagerank2.py:37-46 | gaining the delta multiplies the raw rank by amount/normalized; the delta is positive exactly when amount exceeds the current normalised rank |
| ScamPagerank.InsertPermutes | data/scam_pagerank2.py:50-51 | inserting adds exactly the one element |
| ScamPagerank.InsertSorted | data/scam_pagerank2.py:50-51 | inserting into a list sorted by decreasing boost keeps it sorted |
| ScamPagerank.InsertStable | data/scam_pagerank2.py:50-51 | inserting puts the element after those with the same boost |
| ScamPagerank.SortDesc | data/scam_pagerank2.py:50-51 | the editable pages by decreasing boost, equal boosts in input order |
| ScamPagerank.SortDescCorrect | data/scam_pagerank2.py:50-51 | the sort is a permutation, ordered by non-increasing boost, keeping input order among equal boosts |
| ScamPagerank.NotIn | data/scam_pagerank2.py:62-63 | the eligible pages are exactly the pages not already linking to the target |
| ScamPagerank.Greedy | data/scam_pagerank2.py:57-65 | the total and pages after the loop has looked at the first i candidates: break once the total exceeds the delta, skip existing backlinks, otherwise add |
| ScamPagerank.GreedyInvariant | data/scam_pagerank2.py:57-65 | at every point of the loop the pages chosen are the eligible pages of a prefix of the sorted list; the total is their boost and was ≤ the delta before each addition |
| ScamPagerank.GreedyCorrect | data/scam_pagerank2.py:57-65 | the chosen pages: never existing backlinks; sorted by non-increasing boost; total ≤ delta before each addition; fewer than all eligible pages only once the total exceeds the delta |
| ScamPagerank.NotInSorted | data/scam_pagerank2.py:59-65 | skipping pages keeps the sorted order |
| ScamPagerank.NothingBelowCurrent | data/scam_pagerank2.py:57-61 | with a negative delta the loop breaks at once and selects nothing |
| ScamPagerank.GreedyStays | data/scam_pagerank2.py:60-61 | once the total exceeds the delta the selection no longer changes (the break) |
| ScamPagerank.GreedyStep | data/scam_pagerank2.py:59-65 | one more candidate keeps the loop invariant of GreedyInvariant |
| ScamPagerank.ChoosePages | data/scam_pagerank2.py:57-65 | the loop returns the greedy selection: total boost and chosen pages |
| ScamPagerank.InflatePageRank | data/scam_pagerank2.py:33-69 | returns the greedy selection over the stably sorted editable pages, and its total boost converted back to the normalised scale |
| ScamPagerank.PredictedBoostReachesTarget | data/scam_pagerank2.py:64-68 | once the total exceeds the delta, predicted boost plus current normalised rank exceeds the requested amount |
| ScamPagerank.DeriveEditedGraph | data/scam_pagerank2.py:76-81 | the new backlinks of the target are the old ones followed by the pages to edit, other pages unchanged; each outlink count grows by the occurrences of that page |
| ScamPagerank.AddOccurrences | data/scam_pagerank2.py:79-81 | each outlink count plus the number of times its page is edited |
| ScamPagerank.SumUpdate | data/scam_pagerank2.py:81 | replacing one count changes the total by the difference |
| ScamPagerank.EditedBacklinksLength | data/scam_pagerank2.py:80 | appending the pages to edit to the target's backlinks grows the flat backlinks by their number |
| ScamPagerank.AddOccurrencesSum | data/scam_pagerank2.py:81 | the increments grow the total outlink count by the number of pages edited |
| ScamPagerank.EditsBalance | data/scam_pagerank2.py:79-81 | the edits add as many backlinks as outlinks: both totals grow by the number of pages edited |
| ScamPagerank.EvaluatedRank | data/scam_pagerank2.py:88 | the result is the target's normalised new rank, at least 1 when the ranks are positive |
| DefeatScams.SelfLooped | data/defeat_scams.py:8-9 | every id < n has a list (created if missing) ending in itself, previous contents first; other keys unchanged |
| DefeatScams.OutlinkTable.AddSelfLoops | data/defeat_scams.py:8-9 | the caller's dict is changed in place to the self-looped dict |
| DefeatScams.OutlinkTable.ProbabilityTriples | data/defeat_scams.py:8-12 | after the self-loops, one triple (from, to, 1/len) per entry of each list, the keys taken once each in the dict's iteration order; every page in range(n) then sends out a total weight of exactly 1 |
| DefeatScams.WeightedLinks | data/defeat_scams.py:10-12 | the inner comprehension: one triple (from, to, 1/len) per entry, in list order |
| DefeatScams.TriplesCount | data/defeat_scams.py:10-12 | the number of triples is the total length of the lists |
| DefeatScams.WeightFromConcat | data/defeat_scams.py:10-12 | the weight leaving a page adds over concatenated triple lists |
| DefeatScams.EntryWeightPrefix | data/defeat_scams.py:10-12 | the first k triples of a list carry k/len of weight from its page and none from others |
| DefeatScams.EntryWeights | data/defeat_scams.py:10-12 | the weights of one non-empty list sum to 1 |
| DefeatScams.WeightsSumToOne | data/defeat_scams.py:10-12 | with distinct keys, the weights leaving a page with a non-empty list sum to 1 |
| DefeatScams.NoWeightFrom | data/defeat_scams.py:10-12 | a page with no entry sends out no weight |
| DefeatScams.SelfLoopedPagesSumToOne | data/defeat_scams.py:8-12 | after the self-loops, every page in range(n) sends out a total weight of exactly 1 |
| DefeatScams.EveryPageSumsToOne | data/defeat_scams.py:8-12 | when the iteration order names every key of the table and every page in range(n) exactly once, each of those pages sends out a total weight of exactly 1 in the full triple list |

## Left out

- Database and file I/O are replaced by values: the SQL queries, `os.Create`/`os.Open`, `np.fromfile` and the progress output. The query answers, the arrays and the file bytes are inputs or results.
- Concurrency: the ten goroutines, the `WaitGroup` and the compare-and-swap retry loop in compute_pagerank.go are not modelled. Each goroutine runs one `pagerank_iter`; the model runs the ten sweeps one after another (`ComputePagerank.TenSweeps`), each a sequential sweep in which every compare-and-swap succeeds. Interleavings of the ten sweeps are not covered.
- float32 arithmetic is not modelled:
  - Ranks are real numbers, so rounding, infinities and NaN are absent.
  - `math.Float32frombits` appears only through `Float32Value`, for normal bit patterns, where the finding needs it. `math.Float32bits` is the parameter `bits` of `ComputePagerank.Words` and `ComputePagerank.Round`.
- The convergence loops are unbounded and their termination is not modelled. `PagerankUtils.ConvergeStep` and `ComputePagerank.Round` model one turn each.
- Divisions by zero are excluded by preconditions:
  - `num_pages > 0`;
  - every backlink has a positive outlink count (`Rank.Readable`);
  - a non-zero rank and normalised rank of the target in `inflate_page_rank`;
  - a non-zero minimum in `normalized_pageranks`.

  The source would produce inf or NaN there, or raise ZeroDivisionError.
- ComputePagerank.WordDifference: `WordSum` is the exact integer sum of the word terms. Go converts each term and the running total to float32, which rounds them (2^32 - 1 becomes 2^32); that rounding is not modelled. Rounding is monotone and keeps a sum of whole numbers of at least 1 at least 1, so it does not change when the test can stop.
- ComputePagerank.Round: the ranks are reals, so the float32 bit pattern of each rank is a parameter `bits`. Where float32 rounding maps two different ranks to the same word, Go stops where the values still differ; `ComputePagerank.WordsUnchangedIff` states the case where it does not.
- PagerankUtils.PagerankIter: also requires every entry of the flat array to be a page id. `sum_terms[[backlinks]]` indexes with the whole array, and numpy raises IndexError on an entry out of range, even one in no slice.
- BuildStructures.PopulateOutlinksCount: requires every row id to be below the array length. Go panics with an index out of range on a larger id (build_structures.go:82).
- DataUtils.GetBacklinks: requires at most one more count than running sums. Otherwise Python raises IndexError at `cumsum[i-1]`.
- DataUtils.Min: requires a non-empty vector. `min()` of an empty sequence raises ValueError.
- DataUtils.Normalized: requires a non-empty vector with a non-zero minimum. Python raises ValueError on an empty dict and divides by zero on a zero minimum.
- ScamPagerank.EvaluatedRank: requires the target id in range and a non-zero minimum. Python raises KeyError for a missing id and ValueError on empty ranks.
- PagerankUtils.OptimizedRanks: requires the keys 0 .. n-1. Python raises KeyError on a missing id.
- ScamPagerank.InflatePageRank: requires the target and the editable pages to be ids in range. Python raises KeyError at scam_pagerank2.py:44-45 otherwise.
- ScamPagerank.DeriveEditedGraph: requires the target and the pages to edit to be ids in range. Python raises KeyError at scam_pagerank2.py:80-81 otherwise.
- PagerankUtils.ComputeDifference: requires a non-empty array. Python raises ZeroDivisionError on an empty one.
- ComputePagerank.WordDifference: requires a non-empty array. Go computes 0/0 and gets NaN.
- ComputePagerank.Round: requires a non-empty array. On zero pages the difference is NaN, `diff < CHANGE_THRESHOLD` is false on every turn, and Go loops forever.
- PagerankUtils.PagerankIter: requires every backlink slice to lie inside the flat array. numpy would silently clamp a slice that runs past the end.
- ComputePagerank.Sweep: requires the same; Go would panic on an index out of range.
- BuildStructures.PackBacklinks: requires maxId < 2^32 - 1 and that all backlinks fit in `total_links` entries.
  - With maxId = 2^32 - 1, `maxId + 1` wraps to 0, so the count arrays are empty, and Go panics with an index out of range at build_structures.go:126 on the first turn.
  - A backlink list that does not fit makes the slice expression in `copy` panic.
- Wire.ReadArray: when the stream is too short for the declared words, Go returns an all-zero array of the declared length together with the error, since `binary.Read` decodes nothing unless `io.ReadFull` filled the whole buffer. The model returns only the error; every caller stops on it.
- Csr.Encode: it is also defined for zero pages. `np.concatenate` raises on an empty list.
- Dicts keyed by the ids 0..n-1 are sequences. This covers the ranks, the normalised ranks, the backlinks and the outlink counts in scam_pagerank2.py, and the ranks given to `normalized_pageranks`.
- Python dict iteration order is an input sequence: the editable pages (`backlinks.keys()`), `iteritems()` in `get_outlinks` and in `get_probability_matrix`, and `.values()` in `get_optimized_outlinks_count`. That last one is taken to yield the counts in id order. No ascending-id tie-break is assumed in the sort.
- Python's `sorted(..., reverse=True)` is modelled by a stable insertion sort. Any two stable sorts on the same key give the same list.
- Within `evaluate_scam`, `converge_pageranks` is not rerun. `ScamPagerank.EvaluatedRank` takes the converged ranks as its input.
- `copy.copy` and `np.append` are covered by value semantics: the baseline sequences cannot change, so the model does not need aliasing for the "baseline untouched" property.
- numpy uint32 arithmetic: `start + count` in `get_backlinks` is unbounded here. The Go layout keeps every running sum below 2^32.
- Not part of this model:
  - `data_utils.get_outlinks_count`, which is not among the sources; outlink counts are inputs.
  - `get_pageranks`, `get_clean_data` and `get_current_page_rank`: file reads and a lookup.
  - The scipy sparse matrix and `mcl_iter` in defeat_scams.py.
  - spam_tester_dist.py, a notebook of plots and heuristics.
  - compute_pagerank/example.py, a reporting script.

## Findings

| source | as written | input that shows it | evidently intended | confidence | as-written member | corrected member |
|---|---|---|---|---|---|---|
| compute_pagerank/compute_pagerank.go:63 | `compute_difference` subtracts the uint32 bit patterns of the float32 ranks (wrapping modulo 2^32) and averages those integers | a rank falling from 0x3F000001 (0.5 + 2^-24) to 0x3F000000 (0.5): the value changes by 2^-24 < CHANGE_THRESHOLD, but the word term is 2^32 - 1 (4294967296 once Go converts it to float32) | the average absolute difference of the rank values, as data/pagerank_utils.py:50-56 computes it | high, not executed | ComputePagerank.WordDifferenceOnDecrease | ComputePagerank.RoundByValue |

Because every word term is a whole number, the Go loop (on at most ten
million pages) can only stop once two turns leave every stored word
unchanged (`ComputePagerank.WordDifferenceBelowThresholdIff`).
`ComputePagerank.Round` models the loop as written, with that test;
`ComputePagerank.RoundByValue` is the same turn with the value difference
`Rank.MeanAbsDiff`, whose zero case `Rank.MeanAbsDiffZeroIff` proves.
