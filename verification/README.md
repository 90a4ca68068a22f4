# Verified model of the indexer's cache, harnesses and scoring

Dafny models of the parts of this repository that carry an argument: the byte-bounded cache of the
indexer, the alias-file parser of its build script, and the harnesses and benchmarks that decide whether
a daemon is correct and a ranking is good. Each file is one component:

| file | component |
|---|---|
| `Recency.dfy`, `Lru.dfy`, `ByteCache.dfy`, `CacheRuns.dfy` | the cache bounded by bytes and entries, over linked slots that refine a recency list, and whole runs of it |
| `MutationStorm.dfy` | one mutator and any number of query workers around a generation counter, as an interleaved step relation |
| `Reservoir.dfy` | Algorithm R over latency samples, with uniformity as a counting theorem |
| `Gains.dfy`, `Relevance.dfy`, `CodeRetrieval.dfy` | discounted gain, greedy grading, precision, recall, reciprocal rank and audit stages |
| `RankFusion.dfy` | reciprocal-rank fusion |
| `Utf8.dfy`, `Preview.dfy` | UTF-8 (section 3 of RFC 3629) and the reranker preview under a byte budget |
| `DistractorHeap.dfy`, `CorpusSample.dfy` | bounded heap selection of distractor rows |
| `SplitMix.dfy` | the SplitMix64 generator |
| `Framing.dfy` | the buffered line reader of the MCP client |
| `LeastSquares.dfy` | the least-squares slope |
| `AliasSyntax.dfy`, `AliasFile.dfy`, `AliasPrinting.dfy` | the two quote-aware scanners, the file parser, and its round trips |
| `Overlay.dfy` | base index, worktree overlays and tombstones under the randomized lifecycle |
| `ConstantBaseline.dfy` | retrieval metrics and the oracle answer of the k most frequent gold paths |
| `Numerals.dfy`, `Strides.dfy`, `MillionCases.dfy` | numerals in text, Euclid's algorithm, strided benchmark cases and the generated corpus |
| `Prelude.dfy`, `Sorting.dfy` | sums, sequences without repetition, sorting by a key order |

`dafny verify dfyconfig.toml` checks everything.

Floating-point numbers are reals; `1 / log2(rank + 2)` is any positive non-increasing discount. Random
draws, digests, glob matching, JSON decoding and daemon answers are inputs or arbitrary functions, so the
theorems hold for all of them.

Six properties one might expect are false of the code, and the exact conditions are proved instead. The
nDCG of eval_relevance.py may exceed 1 when a negative grade is among the ideal top k
(`Relevance.NeverAboveOneIff`). Once a grade is negative, the nDCG of `score_query`, which divides by
any ideal but zero, may be negative (`NeverNegativeIff`) and may exceed 1
(`CodeRetrieval.NeverAboveOneIff`). The count check on required ids accepts a missing id when another
occurs twice (`CountCheckMeans`). A preview need not be a prefix of the joined texts: of the at most
three bytes a cut hit leaves, one can go to the newline and up to two to a later hit (`PrefixIff`, and
`NotAlwaysPrefix` gives such hits at 12,000 bytes). The constant baseline, best for the number of files
matched (`MatchesMostIff`, `BaselineIsBest`), need not be best for mean recall, which is what the gate
compares (`BestMeanRecallIff`, `MeanRecallCanBeBeaten`).

The campaign of `Overlay.dfy` assumes nothing of the indexer it checks: it passes exactly if the indexer's
state is right after every operation (`Campaign`), which is more than its checks of paths say one by one
(`AcceptsTreeIff`). The modelled indexer, which follows the harness's formulas, passes (`ModelIsRight`).

## Model

| member | source | states |
|---|---|---|
| `Recency.Position` | src/byte_cache.rs:4-8 | the index found is the first one holding the key; the list's length stands for an absent key |
| `Recency.WithoutKeepsOthers` | src/byte_cache.rs:50-54 | removing a key leaves the lookup of every other key unchanged |
| `Lru.UnlinkSpells` | src/byte_cache.rs:4-8 | detaching a linked slot and joining its neighbours leaves slots that spell the list without that entry |
| `Lru.AppendSpells` | src/byte_cache.rs:4-8 | attaching a slot at the recent end leaves slots that spell the list with the new entry last |
| `Lru.LruCache.constructor` | src/byte_cache.rs:16 | an empty cache of the given capacity |
| `Lru.LruCache.Get` | src/byte_cache.rs:26 | a lookup returns the key's payload and moves exactly that entry to the recent end of the list the linked slots refine |
| `Lru.LruCache.Pop` | src/byte_cache.rs:51 | removes exactly the key's entry and hands its payload back, or changes nothing |
| `Lru.LruCache.PopLru` | src/byte_cache.rs:40 | removes and returns the oldest entry; nothing from an empty cache |
| `Lru.LruCache.Push` | src/byte_cache.rs:44 | stores the pair as the most recent and returns what it displaced: the key's old payload, or the oldest entry of a full cache |
| `ByteCaches.Surplus` | src/byte_cache.rs:39-46 | the shortest prefix of oldest entries whose removal leaves room under both limits: removing it does, no shorter one would |
| `ByteCaches.SurplusInTwoPhases` | src/byte_cache.rs:39-46 | evicting for bytes first and letting the push evict by count gives up exactly that shortest prefix, not more |
| `ByteCaches.AfterByteEviction` | src/byte_cache.rs:39-48 | once the bytes fit, the push completes the insertion and the counter, without wrapping, is again the sum of the stored costs |
| `ByteCaches.ByteCache.constructor` | src/byte_cache.rs:14-20 | an empty cache whose byte counter is the sum of its costs |
| `ByteCaches.ByteCache.Get` | src/byte_cache.rs:22-27 | returns the stored value and makes its entry the most recent one, leaving the accounting alone |
| `ByteCaches.ByteCache.EvictBytes` | src/byte_cache.rs:39-43 | the eviction loop ends, with room for the new bytes, having dropped each oldest entry only while they did not fit |
| `ByteCaches.ByteCache.Insert` | src/byte_cache.rs:33-48 | the key's old entry goes; an oversized value is not stored; otherwise exactly the surplus of oldest entries is evicted and the new entry is the most recent |
| `ByteCaches.ByteCache.Remove` | src/byte_cache.rs:50-54 | exactly the key's entry is gone and its cost subtracted |
| `CacheRuns.RunBounded` | src/byte_cache.rs:33-54 | in every state any sequence of calls can reach, keys are distinct, costs sum to at most the byte limit and entries number at most the entry limit |
| `CacheRuns.StepFind` | src/byte_cache.rs:22-54 | what each call does to the entry of every key: others are kept or evicted whole, never altered |
| `CacheRuns.LookupIsLatest` | src/byte_cache.rs:22-54 | over every run, what a lookup finds is the value of the last insertion of that key, never one since replaced, removed or rejected |
| `CacheRuns.RunProtected` | src/byte_cache.rs:33-54 | over every run, what is more recent than a used entry is accounted for by the distinct other keys touched since, at their largest costs |
| `CacheRuns.WorkingSetStays` | src/byte_cache.rs:22-54 | the working-set guarantee: a used entry survives every run that neither re-inserts nor removes it while the keys touched since fit beside it under both limits |
| `MutationStorm.RunConsistent` | scripts/soak_daemon.py:366-401 | counter, checkout progress, file presence, the lock and the order of the statistics stay consistent over every interleaving of the mutator and any number of workers |
| `MutationStorm.StatsAreExact` | scripts/soak_daemon.py:375-392 | over every run the queries counted are the steps that recorded one, the stable deleted ones are those of them whose worker had the probe absent and no checkout throughout, and the errors kept are the recorded ones up to five |
| `MutationStorm.CheckoutsAreExact` | scripts/soak_daemon.py:394-401 | over every run the generation is the number of beginnings and ends of checkouts so far |
| `MutationStorm.LockIsReturned` | scripts/soak_daemon.py:368-376 | whoever holds the lock can give it back with its next step |
| `MutationStorm.WorkerGoesOn` | scripts/soak_daemon.py:366-392 | while the lock is free every worker can go on, and a query in progress can give any answer or raise |
| `MutationStorm.MutatorGoesOn` | scripts/soak_daemon.py:394-413 | while the lock is free a checkout can end with or without an error and the next of 25 can begin, except that without an observed window the storm gives up after the first |
| `MutationStorm.CountersUnderLock` | scripts/soak_daemon.py:368-401 | generation and statistics change only while nobody holds the lock, or by the step of its holder |
| `MutationStorm.GenerationParity` | scripts/soak_daemon.py:394-401 | the counter is even exactly when no checkout is in progress |
| `MutationStorm.GenerationGrows` | scripts/soak_daemon.py:394-401 | the counter never decreases along a run |
| `MutationStorm.EqualEvenReadings` | scripts/soak_daemon.py:377-382 | two equal even readings mean that no checkout ran and the file did not change in between |
| `MutationStorm.CalmKeepsGeneration` | scripts/soak_daemon.py:394-401 | without a checkout in progress the counter stands still |
| `MutationStorm.WorkerRemembers` | scripts/soak_daemon.py:366-376 | what a worker holds between its two reads is what counter and file were at the instant of the first |
| `MutationStorm.WindowIsExact` | scripts/soak_daemon.py:377-382 | a finished query counts as a stable deleted window if and only if the probe was absent, with no checkout in progress, at every instant from its first read to its last |
| `MutationStorm.StaleHitsAreExact` | scripts/soak_daemon.py:383-387 | the counter of stale hits is exactly the number of recorded answers that differ from every state of their query's interval |
| `MutationStorm.HonestDaemonNeverStale` | scripts/soak_daemon.py:383-387 | a daemon that answers from some state within each query's interval never counts a stale hit, in any interleaving |
| `MutationStorm.VerdictIsExact` | scripts/soak_daemon.py:405-419 | after all checkouts, the last one included without an error, the gate passes exactly when no step recorded an error and no answer was genuinely stale |
| `MutationStorm.ErrorsAreRaised` | scripts/soak_daemon.py:366-401 | once no failure waits to be recorded, a run recorded an error exactly if some query raised |
| `Reservoir.LoadStats.constructor` | scripts/soak_mcp_sessions.py:573-582 | no calls and no samples, with the given cap |
| `Reservoir.LoadStats.Record` | scripts/soak_mcp_sessions.py:584-594 | one call of one kind: its count grows by one, and its bucket gets the sample appended while there is room, and otherwise in place of the drawn sample if the draw is within the cap; other kinds are untouched |
| `Reservoir.Recorded` | scripts/soak_mcp_sessions.py:584-594 | after n calls a bucket holds min(n, cap) samples |
| `Reservoir.RecordedIs` | scripts/soak_mcp_sessions.py:588-594 | a stream within the cap is kept whole; beyond it only the draws after the first cap matter |
| `Reservoir.BucketOfKind` | scripts/soak_mcp_sessions.py:584-594 | however calls of several kinds interleave, a kind's count and bucket are what its own observations alone would make of them |
| `Reservoir.FullBucket` | scripts/soak_mcp_sessions.py:584-594 | and once full, the bucket is the retained part of that kind's stream under draw sequences of exactly the sort the uniformity theorems count |
| `Reservoir.RetainedDistinct` | scripts/soak_mcp_sessions.py:591-594 | whatever the draws, the bucket stands for distinct positions of the stream |
| `Reservoir.AfterIsRetained` | scripts/soak_mcp_sessions.py:591-594 | the samples kept are the stream's values at those positions |
| `Reservoir.DrawCount` | scripts/soak_mcp_sessions.py:592 | there are N!/cap! equally likely draw sequences for N observations |
| `Reservoir.EverySubsetEquallyOften` | scripts/soak_mcp_sessions.py:591-594 | exact uniformity: every set of cap observations is what the bucket holds after exactly (N - cap)! of the draw sequences |
| `Reservoir.EveryObservationEquallyOften` | scripts/soak_mcp_sessions.py:591-594 | every observation is retained in exactly cap/N of the draw sequences |
| `Gains.SelectionBound` | scripts/eval_relevance.py:240 | no selection of n judged grades gains more than the n greatest |
| `Gains.GainDoubles` | scripts/eval_relevance.py:236 | a grade of 0 gains nothing, and each grade more doubles the gain and adds one |
| `Gains.DcgOneMore` | scripts/eval_relevance.py:235-236 | one more document adds its gain times the discount of the rank it stands at |
| `Gains.NdcgTimesIdeal` | scripts/eval_relevance.py:239-241 | the score times the gain of the ideal first k ranks is the gain of the ranking's; with a negligible ideal it is 0 |
| `Gains.WeightedDominated` | scripts/eval_relevance.py:235-241 | prefix-wise dominance survives any positive non-increasing discount, by Abel summation |
| `Gains.NdcgBounds` | scripts/eval_relevance.py:239-241 | nDCG of grades drawn from the judged ones is never negative, and at most 1 when no grade among the ideal top k is negative |
| `Gains.FullScoreIff` | scripts/eval_relevance.py:239-241 | under a strict discount nDCG is 1 if and only if the ideal is not negligible and each of the first k ranks gains what the ideal gains there |
| `Gains.NegativeGradeOvershoots` | scripts/eval_relevance.py:239-241 | with a negative grade among the ideal top k, the ranking that finds exactly the positive grades scores above 1 |
| `Gains.AtMostOneIff` | scripts/eval_relevance.py:239-241 | `ndcg_at` on its own: the exact condition for no list of judged grades, greedily found or not, to score above 1 is no negative grade among the ideal top k, or a negligible ideal |
| `Relevance.Best` | scripts/eval_relevance.py:138-143 | the judgment chosen is unused, matches, has the greatest positive grade of such and is the first with it; none is chosen only if there is none |
| `Relevance.BestJudgment` | scripts/eval_relevance.py:138-143 | the inner loop finds that judgment and its grade |
| `Relevance.GradePaths` | scripts/eval_relevance.py:133-147 | the loop with its set of used judgments computes the greedy grading |
| `Relevance.ConsumedMatching` | scripts/eval_relevance.py:133-147 | each judgment is consumed at most once, and only by a path that matches it |
| `Relevance.GradedGreedily` | scripts/eval_relevance.py:133-147 | a matching judgment of a positive grade is consumed by an earlier path or is no better than the one this path consumes, which is the first of equals |
| `Relevance.GradedByConsumed` | scripts/eval_relevance.py:133-147 | a path is graded by the judgment it consumes, and 0 if it consumes none |
| `Relevance.GradedPrefix` | scripts/eval_relevance.py:133-147 | grading a prefix of the ranking is the prefix of the grading |
| `Relevance.GradedIsJudged` | scripts/eval_relevance.py:133-147 | non-zero grades are a sub-multiset of the judged ones |
| `Relevance.GradedNdcgBounds` | scripts/eval_relevance.py:133-147 | nDCG of any greedy grading is at least 0, and at most 1 when no grade among the ideal top k is negative |
| `Relevance.NeverAboveOneIff` | scripts/eval_relevance.py:133-147 | the exact condition on the judgments for the reported score never to exceed 1, whatever distinct paths are returned and whatever they match: no negative grade among the ideal top k, or a negligible ideal; otherwise a ranking whose paths match every judgment exceeds it |
| `Relevance.OneHitScoresAboveOne` | scripts/eval_relevance.py:133-147 | grades 3 and -1 are such judgments: one path matching the first scores above 1 |
| `Relevance.FirstRelevantFrom` | scripts/eval_relevance.py:194-197 | the first position whose path matches a primary judgment, or none if no path does |
| `Relevance.MrrIsFirstRank` | scripts/eval_relevance.py:154-158 | the reciprocal rank over greedy grades is the reciprocal of the first path matching a primary judgment, although grading consumes judgments |
| `Relevance.RelevantWithinMatched` | scripts/eval_relevance.py:173-180 | relevant grades number at most the primary judgments matched |
| `Relevance.RelevantCounts` | scripts/eval_relevance.py:150-180 | relevant grades in the first k number at most the primary judgments those paths match, which number at most all of them |
| `Relevance.PrecisionTimesCutoff` | scripts/eval_relevance.py:150-151 | precision at k times k is the number of the first k ranks graded 2 or more |
| `Relevance.RecallTimesPrimaries` | scripts/eval_relevance.py:161-170 | recall at k times the number of primary judgments is the number of those the first k paths match |
| `Relevance.PrecisionWithinRecall` | scripts/eval_relevance.py:150-170 | precision at k times k is at most recall at k times the number of primary judgments |
| `Relevance.AuditStageMeans` | scripts/eval_relevance.py:200-219 | when each of the six audit stages is reached, in terms of which probes find a useful path and whether within the rank that satisfies |
| `CodeRetrieval.ScoreBounds` | scripts/eval_code_retrieval.py:100-132 | nDCG@10 of any ranking without duplicates lies in [0, 1] when grades are not negative |
| `CodeRetrieval.FullScoreMeans` | scripts/eval_code_retrieval.py:109-132 | under a strict discount the score is 1 if and only if each of the first ten ranks gains what the ideal gains there |
| `CodeRetrieval.BestFirstScoresOne` | scripts/eval_code_retrieval.py:109-132 | a ranking in non-increasing grade order that covers the ideal top ten scores exactly 1 |
| `CodeRetrieval.NeverNegativeIff` | scripts/eval_code_retrieval.py:103-132 | the exact condition for no duplicate-free ranking to score below 0: an ideal of zero, a positive ideal and no negative grade, or a negative ideal and no positive grade |
| `CodeRetrieval.NeverAboveOneIff` | scripts/eval_code_retrieval.py:103-132 | the exact condition, under a strict discount, for no duplicate-free ranking to score above 1: an ideal of zero, a positive ideal without a negative grade among its ten best, or a negative ideal of equal grades |
| `CodeRetrieval.PositiveIdealFails` | scripts/eval_code_retrieval.py:103-132 | grades 3 and -1: the first document alone scores above 1, the second alone below 0 |
| `CodeRetrieval.NegativeIdealFails` | scripts/eval_code_retrieval.py:103-132 | grades -1 and -2: the ideal is negative and the second document first scores above 1 |
| `CodeRetrieval.GoodDocumentBelowZero` | scripts/eval_code_retrieval.py:103-132 | grades 1, -3, -3, -3: the ideal is negative and the document of grade 1 alone scores below 0 |
| `CodeRetrieval.ScoreTimesIdeal` | scripts/eval_code_retrieval.py:103-132 | the score times the gain of the ideal first ten ranks is the gain of the ranking's; with an ideal of zero it is 0 |
| `CodeRetrieval.GradeForMeans` | scripts/eval_code_retrieval.py:103-107 | a document counts with its judged grade, and with 0 without one |
| `CodeRetrieval.RelevantMeans` | scripts/eval_code_retrieval.py:101 | the relevant documents are exactly those that add to a ranking's gain |
| `CodeRetrieval.RecallTimesRelevant` | scripts/eval_code_retrieval.py:123-126 | recall times the number of relevant documents is the number of ranks before the cutoff that hold one |
| `CodeRetrieval.FullRecallIsExact` | scripts/eval_code_retrieval.py:123-129 | recall lies in [0, 1], and is 1 exactly when the exact-match metric is |
| `RankFusion.AddList` | scripts/eval_code_retrieval.py:582-589 | one list adds its reciprocal ranks to the scores, new paths to the keys, and only first items to the selection; it fails exactly when a path that counts stands at a rank whose denominator is zero |
| `RankFusion.Fuse` | scripts/eval_code_retrieval.py:572-596 | a single list passes through; a zero denominator under a non-empty path raises; otherwise every path named appears with the item of its first listing, scored as `ScoreIsAmounts` says, a greater score first and between equal ones the lesser path |
| `RankFusion.ScoreIsAmounts` | scripts/eval_code_retrieval.py:582-589 | a score is the sum, over the listings of the path, of amounts that times `rrf_k` + rank + 1 are the list's weight, the given one for the first list and 1 for the others |
| `RankFusion.ListedOnceScores` | scripts/eval_code_retrieval.py:582-589 | so a path listed once, at some rank of some list, has a score that times `rrf_k` + rank + 1 is that list's weight |
| `RankFusion.FusionMeans` | scripts/eval_code_retrieval.py:582-596 | the fused list in terms of the listings alone: items, scores, order and completeness |
| `RankFusion.RankedOnce` | scripts/eval_code_retrieval.py:582-590 | the fused list holds every non-empty path of the inputs exactly once and no other |
| `RankFusion.Unanimity` | scripts/eval_code_retrieval.py:582-590 | if every list that contains b has a before it, a precedes b in the fusion |
| `RankFusion.OrderOfExpansions` | scripts/eval_code_retrieval.py:582-590 | permuting the lists behind the first changes nothing in the fused order |
| `Utf8.DecodeIgnore` | scripts/eval_code_retrieval.py:45-51 | decoding arbitrary bytes yields only scalar values |
| `Utf8.FitIsLongest` | scripts/eval_code_retrieval.py:44-51 | the number of code points computed fits and one more would not |
| `Utf8.DecodePrefix` | scripts/eval_code_retrieval.py:44-51 | cutting the bytes of a text anywhere and decoding with ill-formed bytes ignored gives its longest prefix of whole code points that fits |
| `Utf8.RoundTripIff` | scripts/eval_code_retrieval.py:43-51 | decoding gives a text back if and only if it has no surrogates |
| `Preview.CandidatePreview` | scripts/eval_code_retrieval.py:37-53 | raises exactly on a surrogate in one of the first three hits, no later hit counting; otherwise the preview is encodable and at most 12,000 bytes long |
| `Preview.WithinBudget` | scripts/eval_code_retrieval.py:47 | no preview is longer than its budget |
| `Preview.EachHitIsPrefix` | scripts/eval_code_retrieval.py:40-52 | each hit contributes whole code points from its start; a cut hit leaves fewer bytes free than its next code point needs, so at most three |
| `Preview.WholeIffFits` | scripts/eval_code_retrieval.py:37-53 | the preview is the newline-join of the hits after dropping leading empty ones if and only if that join is within the budget |
| `Preview.PrefixIff` | scripts/eval_code_retrieval.py:37-53 | the preview is a prefix of that join if and only if all hits but the last fit joined, or some prefix of the join fills the budget exactly |
| `Preview.NotAlwaysPrefix` | scripts/eval_code_retrieval.py:37-53 | at 12,000 bytes it is not a prefix for a first hit of 11,999 ASCII characters and one of two bytes, whatever the second hit |
| `DistractorHeap.RootIsLeast` | scripts/export_public_retrieval.py:188-191 | the first element of a heap is its least |
| `DistractorHeap.Push` | scripts/export_public_retrieval.py:189 | the heap gains exactly the pushed pair and stays a heap |
| `DistractorHeap.Replace` | scripts/export_public_retrieval.py:191 | the heap loses exactly its least pair, gains the new one and stays a heap |
| `CorpusSample.GreatestNext` | scripts/export_public_retrieval.py:188-191 | one more item changes the greatest items as the comparison with the least kept one says |
| `CorpusSample.Offer` | scripts/export_public_retrieval.py:187-191 | after each row the heap holds exactly the greatest items seen so far |
| `CorpusSample.Collect` | scripts/export_public_retrieval.py:172-191 | the single pass collects all required rows in order and the greatest distractors |
| `CorpusSample.SampledCorpusIndices` | scripts/export_public_retrieval.py:158-195 | all rows when the sample is not smaller than the corpus; an error when it is too small or required rows do not number as required ids; otherwise as many increasing rows as asked for: every required one, and of the others those of the smallest digests |
| `CorpusSample.SampleTakesSmallest` | scripts/export_public_retrieval.py:185-195 | of two rows that are not required, a sampled one has the smaller digest than one left out, or the same and the greater index |
| `CorpusSample.FullSortAgrees` | scripts/export_public_retrieval.py:185-191 | the pairs kept are the greatest if and only if they are the last ones of a full sort |
| `CorpusSample.SampleSize` | scripts/export_public_retrieval.py:173-195 | the result is strictly increasing, has exactly the requested size and contains every required row |
| `CorpusSample.SampleUnique` | scripts/export_public_retrieval.py:172-195 | inputs and priorities determine the sample |
| `CorpusSample.SampleGrows` | scripts/export_public_retrieval.py:172-195 | raising the sample size, up to the whole corpus, gives a superset and no new error |
| `CorpusSample.CountCheckMeans` | scripts/export_public_retrieval.py:193-194 | where row count and id count agree, every required id is present if and only if none occurs twice |
| `CorpusSample.CountCheckIsExact` | scripts/export_public_retrieval.py:193-194 | when no required document occurs twice the count check passes exactly when each of them is present |
| `CorpusSample.RepeatHidesMissing` | scripts/export_public_retrieval.py:193-194 | a repeated required id can hide a missing one from the count check |
| `Sorting.StringLessIff` | scripts/bench_context_retrieval.py:372 | names are compared character by character at the first place where they differ, a name that ends there being the smaller |
| `SplitMix.XorBits` | benches/indexer_bench.rs:75-77 | the exclusive-or used in the model acts on every bit |
| `SplitMix.ShiftDrops` | benches/indexer_bench.rs:75-77 | the shift used drops the low bits and keeps the others in order |
| `SplitMix.UndoXorShift` | benches/indexer_bench.rs:75-77 | an xorshift is undone by repeating the shifts |
| `SplitMix.RedoXorShift` | benches/indexer_bench.rs:75-77 | and every word is the xorshift of what undoes it |
| `SplitMix.Generator.constructor` | benches/indexer_bench.rs:72 | the generator starts at its seed |
| `SplitMix.Generator.Next` | benches/indexer_bench.rs:72-78 | the state advances by the odd constant with wrap-around and the output is its mix |
| `SplitMix.MixIsBijective` | benches/indexer_bench.rs:74-77 | the output mix is a bijection on 64-bit words |
| `SplitMix.StateIsStride` | benches/indexer_bench.rs:73 | after n calls the state is seed + n * gamma modulo 2^64 |
| `SplitMix.OutputsAgreeIff` | benches/indexer_bench.rs:72-78 | two outputs from one seed are equal if and only if they are a multiple of 2^64 calls apart |
| `SplitMix.OutputsNeverRepeat` | benches/indexer_bench.rs:72-78 | the first 2^64 outputs are pairwise distinct |
| `SplitMix.ComponentRange` | benches/indexer_bench.rs:83 | every component lies in [-1, 1) |
| `SplitMix.ComponentOf` | benches/indexer_bench.rs:83 | the upper 24 bits of a word set its component, in steps of 2^-23 from -1 on |
| `Framing.FoundIsFirstReply` | scripts/soak_mcp_sessions.py:418-423 | what the scan finds is the first complete non-blank line with the requested id; the lines before it are blank or carry other ids |
| `Framing.FirstReplyIsFound` | scripts/soak_mcp_sessions.py:418-423 | and that line, with what follows it, is found |
| `Framing.ScanExtends` | scripts/soak_mcp_sessions.py:418-430 | scanning in two parts is scanning the whole |
| `Framing.McpClient.constructor` | scripts/soak_mcp_sessions.py:393-403 | a client with an empty buffer before the given reads |
| `Framing.McpClient.DrainLines` | scripts/soak_mcp_sessions.py:418-423 | the inner loop consumes buffered lines up to the reply, or all complete ones |
| `Framing.McpClient.Receive` | scripts/soak_mcp_sessions.py:413-430 | the reply and what is left of the stream depend on buffer and unread bytes only as one stream |
| `Framing.ReceiveAll` | scripts/soak_mcp_sessions.py:413-430 | so do the replies to any sequence of calls |
| `Framing.ChunkingIsInvisible` | scripts/soak_mcp_sessions.py:427-430 | two splittings of the same bytes into reads give the same replies and the same remaining stream |
| `LeastSquares.ExcessResidual` | scripts/soak_mcp_sessions.py:300-306 | another line's residual exceeds the computed one by the spread times the squared slope difference plus the count times the squared height difference |
| `LeastSquares.SlopeIsLeastSquares` | scripts/soak_mcp_sessions.py:291-309 | no line has a smaller sum of squared residuals than the computed one, and no other line one as small |
| `LeastSquares.SlopeExistsIff` | scripts/soak_mcp_sessions.py:297-303 | a slope exists exactly for three or more points not all at the same x |
| `LeastSquares.NoErrorIff` | scripts/soak_mcp_sessions.py:307-308 | the standard error is zero exactly when all points lie on one line, which is then the computed one |
| `LeastSquares.ErrorIsLeastResidual` | scripts/soak_mcp_sessions.py:307-309 | the squared error times the count less two times the spread is at most the residual of every line, and equal to it for exactly one; the samples are the points |
| `LeastSquares.ErrorOfFourPoints` | scripts/soak_mcp_sessions.py:307-309 | the points (0,0), (1,1), (2,0), (3,1) have slope 0.2 and squared error 0.08 |
| `AliasSyntax.StripComment` | build.rs:213-236 | the character loop with its two flags computes the line up to its comment |
| `AliasSyntax.ParseStringArray` | build.rs:253-303 | the character loop computes the strings of the array or the error of the first offending character |
| `AliasSyntax.ArrayRoundTrip` | build.rs:253-303 | parsing inverts an escaping printer for arbitrary strings and separators; only the empty array is refused |
| `AliasSyntax.ArrayAcceptedIff` | build.rs:253-303 | an array parses to given strings if and only if there are any and, trimmed, it is a bracketed list of quoted spellings of them, backslashes taking the next character as it is, with nothing but separators between |
| `AliasSyntax.ArrayRefused` | build.rs:253-303 | exactly when an array is refused and for what: brackets, then a stray character outside strings, then an open string, then no strings at all |
| `AliasSyntax.AcceptedIsKept` | build.rs:213-303 | over an array that parses the two scanners agree after every character: stripping has found no comment and is in the state in which the parser reads on; both end outside strings |
| `AliasSyntax.CommentIsStripped` | build.rs:213-236 | text with no open string and no comment is kept whole in front of a comment |
| `AliasFile.ValidateToken` | build.rs:315-331 | accepts exactly non-empty terms of lowercase ASCII letters, digits and underscores |
| `AliasFile.ValidateAliases` | build.rs:305-313 | accepts exactly valid tokens without repetition |
| `AliasFile.AliasesRefused` | build.rs:305-331 | refused exactly for the first alias that is no token or repeats one before it, with the error of that alias |
| `AliasFile.WordsSplit` | build.rs:193-196 | splitting at any ASCII white space gives back the words of a text |
| `AliasFile.PlainOutcome` | build.rs:157-181 | a line without an equals sign is blank, a section header, or refused |
| `AliasFile.AssignmentOutcome` | build.rs:176-251 | a line is split at its first equals sign and refused for an empty or unterminated key, then for its array; otherwise the key, quoted or not, and the strings decide |
| `AliasFile.EntryMeans` | build.rs:184-206 | what an entry means: refused for its aliases, then for a missing section, then for its key, and else a token or a phrase of two or more terms |
| `AliasFile.LinesRefused` | build.rs:153-211 | a file's lines are refused exactly for the first bad one, read under the section of the last header before it |
| `AliasFile.FileRefused` | build.rs:153-211 | a file with a bad line is refused for the first one, whatever keys repeat |
| `AliasFile.ParseAliases` | build.rs:153-211 | the line loop with its section state computes the data of the file or the first error |
| `AliasFile.ParsedIsValid` | build.rs:153-361 | whatever text parses yields valid entries under strictly increasing keys |
| `AliasPrinting.KeySplits` | build.rs:193-196 | splitting a key made of words and spaces gives the words back |
| `AliasPrinting.LineCore` | build.rs:159 | comment and outer white space fall away from any written line, quoted keys and escapes included |
| `AliasPrinting.LineMeaning` | build.rs:157-204 | every well-formed line means its section, its entry or nothing |
| `AliasPrinting.NeighboursSuffice` | build.rs:343-361 | after sorting, comparing neighbours finds a repeated key exactly if there is one, and finds the least |
| `AliasPrinting.FileRoundTrip` | build.rs:153-361 | whatever its spacing, comments, quoting and line ends, with or without one behind the last line, a well-formed file parses to its own entries in strictly increasing key order if and only if no key repeats; otherwise the error names the least repeated token, or if none repeats the least repeated phrase |
| `AliasPrinting.DataRoundTrip` | build.rs:153-361 | all valid data in key order is the result of parsing its printed form, with or without a last line end |
| `Overlay.LayeredIff` | scripts/check_daemon_equivalence.py:459-464 | layered and standalone answers agree, with no path twice, if and only if visible base and overlay share no path and merge to the worktree's non-blank files |
| `Overlay.LayersReconstruct` | scripts/check_daemon_equivalence.py:385-393 | the harness's divergent and hidden sets reconstruct the worktree, with no path twice |
| `Overlay.ThinnestLayers` | scripts/check_daemon_equivalence.py:385-393 | no smaller overlay and no fewer tombstones on searchable files reconstruct it |
| `Overlay.ReuseIff` | scripts/check_daemon_equivalence.py:377-380 | an overlay built over one base is right over another if and only if every path whose searchable content differs is one it hides |
| `Overlay.ConsistentRun` | scripts/check_daemon_equivalence.py:385-393 | over every run of edits, checkouts, indexing, base updates and rebuilds, an overlay whose reference names the current base is the delta to it |
| `Overlay.SearchFindsOneSnapshot` | scripts/check_daemon_equivalence.py:374-393 | a search finds exactly the worktree as last indexed, or as it is if the base was indexed since, never a mixture |
| `Overlay.SiblingUnmoved` | scripts/check_daemon_equivalence.py:642-645 | no sequence of steps elsewhere, base changes and rebuilds included, changes what a search of an untouched worktree finds |
| `Overlay.IndexedSearchIsStandalone` | scripts/check_daemon_equivalence.py:459-464 | over every run, once a worktree was indexed after its last edit a search of it equals a standalone index of its files |
| `Overlay.OperationReady` | scripts/check_daemon_equivalence.py:603-641 | every lifecycle operation ends with base and worktrees ready for comparison |
| `Overlay.OperationLeaves` | scripts/check_daemon_equivalence.py:603-641 | what an operation of each kind leaves: the marker written, the file unlinked, emptied or moved with the marker, the tree checked out; no other worktree changes, and the main one only by the marker of a base operation |
| `Overlay.BaseLeaves` | scripts/check_daemon_equivalence.py:612-616 | a base operation indexes the main worktree with its marker and changes the reference, a forced one to a new incarnation, and no worktree's layers |
| `Overlay.SecondEditIsOfIndexed` | scripts/check_daemon_equivalence.py:622-635 | a deletion, an emptying and a renaming each happen to a file indexed with its marker |
| `Overlay.AcceptsTreeIff` | scripts/check_daemon_equivalence.py:374-475 | over a right base the search comparison and the layer checks together accept exactly the overlay of divergent files, the hidden paths and the present reference |
| `Overlay.CompareAll` | scripts/check_daemon_equivalence.py:395-475 | one round of comparisons, of whatever an indexer holds, passes exactly if the base holds the searchable files and every worktree has exactly the right layers, in content too although only the overlay's paths are compared |
| `Overlay.Campaign` | scripts/check_daemon_equivalence.py:596-645 | over every list of lifecycle operations the campaign passes exactly if the indexer's state was right after each of them, for the files that `OperationLeaves` describes |
| `Overlay.ModelIsRight` | scripts/check_daemon_equivalence.py:596-645 | the modelled indexer, which rebuilds stale layers on search, is one the campaign accepts over every list of operations |
| `ConstantBaseline.Unique` | scripts/bench_context_retrieval.py:252 | the distinct paths, each once |
| `ConstantBaseline.FirstRank` | scripts/bench_context_retrieval.py:255-258 | the rank of the first expected path, or 0 exactly when none is expected |
| `ConstantBaseline.RecallMeans` | scripts/bench_context_retrieval.py:252-266 | recall lies in [0, 1], is 1 exactly when every expected path is given and 0 exactly when none is |
| `ConstantBaseline.PrecisionMeans` | scripts/bench_context_retrieval.py:252-267 | precision lies in [0, 1], is 1 exactly for a non-empty answer of expected paths only and 0 exactly when none is expected |
| `ConstantBaseline.ReciprocalRankMeans` | scripts/bench_context_retrieval.py:251-268 | the reciprocal rank times the number of distinct paths up to the first expected one is 1 |
| `ConstantBaseline.MetricsCount` | scripts/bench_context_retrieval.py:251-267 | recall times the expected paths, and precision times the given ones, is the number of paths both expected and given |
| `ConstantBaseline.NoReciprocalRank` | scripts/bench_context_retrieval.py:255-268 | and it is 0 exactly when no path is expected |
| `ConstantBaseline.RepeatsIgnored` | scripts/bench_context_retrieval.py:251-270 | repeating a path changes no score |
| `ConstantBaseline.CountPaths` | scripts/bench_context_retrieval.py:371 | the counter holds each path once, with its number of occurrences |
| `ConstantBaseline.ConstantTopK` | scripts/bench_context_retrieval.py:363-375 | an error for k < 1, no tasks or a task without gold paths, each its own; otherwise at most k gold paths, each before the next and before every one left out by a greater number of occurrences or by the same and a smaller name, with their metrics on every task |
| `ConstantBaseline.RowsAt` | scripts/bench_context_retrieval.py:373-375 | each row holds the metrics of the selected paths on the task at its place |
| `ConstantBaseline.TopIsRank` | scripts/bench_context_retrieval.py:372 | the paths selected are the gold paths before which fewer than k others come by frequency and then name |
| `ConstantBaseline.RowsAddUp` | scripts/bench_context_retrieval.py:373-382 | the rows of an answer add up to the gold files it matches and to the total recall that the two conditions below compare |
| `ConstantBaseline.MatchesMostIff` | scripts/bench_context_retrieval.py:371-375 | no answer of at most k paths matches more gold files over all tasks if and only if no gold path of rank k or more is gold for more tasks than one of rank below k |
| `ConstantBaseline.BaselineIsBest` | scripts/bench_context_retrieval.py:371-375 | so when no task repeats a gold path, the baseline is best for that number |
| `ConstantBaseline.FullRecallIff` | scripts/bench_context_retrieval.py:371-375 | every task is answered in full if and only if there are at most k different gold paths |
| `ConstantBaseline.BestMeanRecallIff` | scripts/bench_context_retrieval.py:382 | no answer of at most k paths has a greater mean recall if and only if no gold path of rank k or more weighs more than one of rank below k, a path weighing the sum over its tasks of one over their number of gold paths |
| `ConstantBaseline.BestMeanRecall` | scripts/bench_context_retrieval.py:382 | so with equally many gold paths in every task, none repeated, the baseline is best for mean recall too |
| `ConstantBaseline.MeanRecallCanBeBeaten` | scripts/bench_context_retrieval.py:382 | without that, another single path can have a greater mean recall than the most frequent one |
| `Numerals.PaddedInjective` | scripts/bench_million_chunks.py:141-143 | zero-padded numerals of different numbers differ |
| `Strides.Bezout` | scripts/bench_million_chunks.py:549 | the number Euclid's algorithm computes divides both arguments and is a combination of them |
| `Strides.RepeatsIff` | scripts/bench_million_chunks.py:549 | two multiples of a stride agree modulo n if and only if they are a multiple of n over the common divisor apart |
| `Strides.DistinctIff` | scripts/bench_million_chunks.py:548-549 | the first multiples are pairwise distinct modulo n for exactly n over the common divisor of them |
| `MillionCases.QueryInjective` | scripts/bench_million_chunks.py:34-40 | different chunks have different query texts |
| `MillionCases.PathInjective` | scripts/bench_million_chunks.py:141-143 | different files have different paths |
| `MillionCases.QueryCases` | scripts/bench_million_chunks.py:544-556 | each case asks for its strided chunk and expects that chunk's file; a division by zero raises |
| `MillionCases.QueriesDistinctIff` | scripts/bench_million_chunks.py:544-556 | all queries differ if and only if no more are asked than chunks over the common divisor with 9973 |
| `MillionCases.DefaultCorpusIsCoprime` | scripts/bench_million_chunks.py:32-33 | with the default corpus that is all million chunks |
| `MillionCases.SplitCases` | scripts/bench_million_chunks.py:679-689 | the three slices are the consecutive cases in order, of the sizes stated |
| `MillionCases.PhasesApartIff` | scripts/bench_million_chunks.py:679-689 | no query occurs in two phases or twice in one if and only if the phases together ask no more cases than chunks over the common divisor with 9973 |
| `MillionCases.SourceFile` | scripts/bench_million_chunks.py:106-125 | the loop writes the header and five lines for each chunk of the file |
| `MillionCases.FileTextLines` | scripts/bench_million_chunks.py:106-125 | the written text splits into exactly these lines |
| `MillionCases.TemplatesOneLine` | scripts/bench_million_chunks.py:34-40 | the query templates hold no line breaks |
| `MillionCases.QueryMarksItsFile` | scripts/bench_million_chunks.py:106-144 | a query is a purpose line of exactly one generated file, the one its expected path names |
| `MillionCases.ExpectedFileExists` | scripts/bench_million_chunks.py:551-554 | and that file is one of those generated |

## Left out

- Lru.LruCache: the `lru` crate is not part of this repository, so its recency order is modelled from the operations the cache uses; the hash table itself is a Dafny map.
- Lru.LruCache.constructor: requires a positive capacity, where the source unwraps a `NonZeroUsize` and panics on zero.
- ByteCaches.ByteCache.EvictBytes: the source has this loop inside `insert`; `usize` is taken as 64 bits wide.
- ByteCache's `keys` and test-only helpers: they only read the recency list.
- MutationStorm: locks, threads and file system are steps of a relation rather than statements; the ten-second wait for a first window is a run that may stop anywhere, and of the query errors only their number is kept.
- Reservoir.LoadStats.constructor: requires a cap of at least 1, where the source raises `ValueError`; `random.Random` is replaced by the draws themselves, and error texts are not kept.
- Gains.NdcgBounds: stated for any positive non-increasing discount over the reals; rounding of `math.log2` and of divisions is not modelled.
- Relevance.BestJudgment: the source has this loop inside `graded`; `fnmatch` is an arbitrary predicate.
- CodeRetrieval: MRR@10 and precision@5 of `score_query`, and `aggregate`, are single sums and quotients.
- RankFusion.Fuse: of an item only its path and its payload are kept, and the keyword defaults are not modelled.
- RankFusion.Unanimity: assumes lists without duplicate paths, a positive original weight and `rrf_k` above -1, without which it is not promised.
- Preview.CandidatePreview: `str(...)` of a value that is not a string, and a missing preview, which reads as an empty one, happen before the model starts.
- Preview.PrefixIff: stated for budgets of at least four bytes, room for any code point; the source's is 12,000.
- CorpusSample.Offer: the source has it inside its loop; `heapq` is modelled as a binary heap on a sequence, and the BLAKE2 digest as an arbitrary priority of a document id. `sampled_query_ids` is a residue partition of single calls.
- SplitMix.ComponentOf: over the reals, where every component is also an `f32`; the normalisation of the vector is left out.
- Framing.McpClient.Receive: a timeout is an event that can stand anywhere between reads; `send` and process handling are not modelled.
- LeastSquares.SlopeIsLeastSquares: the interval `ci95` is 1.96 times a square root; the model keeps the square of the standard error.
- AliasFile.ParseAliases: panics are error values without file name and line number; `generate_alias_module` only writes the validated data out as Rust source.
- AliasPrinting.FileRoundTrip: white space other than blanks and tabs around entries, is parsed by the model but not printed.
- Overlay.Campaign: commits, daemons, watchers and query kinds are reduced to the files they change; searching finds everything an index holds, without ranking. The state machine works on values: the source drives a file system and a binary, not objects. The indexer's own overlay code is not part of this model; `ModelIsRight` is about one that follows the harness's formulas.
- Overlay: `lifecycle_operations` draws the operations; the campaign theorem covers every list of them.
- ConstantBaseline.ConstantTopK: the means over rows and the recall by path role are left out; a comparison of mean recall is stated by `BestMeanRecallIff`.
- MillionCases.QueryMarksItsFile: holds for any templates without line breaks that end in a space before the number; `TemplatesOneLine` and `TextsEnd` show that the source's five are such templates.
- MillionCases.QueryCases: counts are natural numbers; writing files, the manifest and the measured phases are I/O.
- Daemon, socket, process, git, HTTP and JSON plumbing, report rendering, schema and provenance checkers, and the FFI and configuration wrappers in `src/`: no verifiable content of their own.
