# Verified models of the platform's algorithms and protocols

The platform is a control plane for serving and operating language models: a Go server, a Python AI service, a
React front end and a Go agent on the GPU hosts. Inside it are a handful of small algorithms and protocols on which
more depends than their size suggests. This project models each of them in Dafny, in the form the code has
(classes with fields updated in place, loops, protocol steps that can fail), and proves what it is for.

`dafny verify dfyconfig.toml` checks everything. One file holds one component; `Common` and `Reals` hold small helpers.

| file | component | main results |
|---|---|---|
| `TokenBucket` | Redis rate limiter (Lua script, key expiry, Go wrapper) | exact admission for every run and every clock; window bound; when expiry is visible |
| `Histogram`, `BucketBounds` | merging Prometheus histograms, quantiles | the scan inverts the interpolated distribution; at every fraction, exactly which bounds may be merged |
| `Reservoir` | sampling of the calibration set | exact counts over all draw sequences: every usable line and every k-subset equally likely |
| `Archiver`, `TameSteps`, `SweepOverlap` | Postgres to object-store archiving | nothing lost in any interleaving with any failure; exactly when a sweep loses rows and when sweeps list one twice |
| `RollingRate`, `ServiceGraph` | 60-second ring counter, call graph | ring and snapshot agree with the event log; exactly when node counters balance edge totals |
| `SseReader`, `SseBlocks` | browser event-stream reader and the server's printer | chunking is invisible up to the first done, and exactly when altogether; reading inverts printing |
| `LoadRunner`, `LoadCounts` | bounded-concurrency benchmark | every interleaving: bounded, conserved, fair to the classes, and it ends; every counter a count over the requests recorded |
| `Percentile`, `NgramF1` | statistics | two implementations agree on the line between neighbouring ranks; F1 is the Dice coefficient |
| `DockerLog` | log frame decoder | round trip; unique maximal split of any bytes |
| `Rerank` | feedback re-ranking | stable permutation; votes move a document their way; exactly which leads survive |
| `Routing`, `PolicyOrigins` | weighted routing policies | exact shares of draws; every reachable policy routes, over one list that was asked for |
| `Rollout` | rollout runner against a Deployment | exactly which poll ends a run and how, sound success, exactly when a failure restores the image |

How to read a component: a method or class follows the code statement by statement and its `ensures` ties the result
or new state to a specification function; the lemmas after it say what that function means, for all inputs, runs or
reachable states. Numbers that the code keeps as floats are `real` here. Answers of the outside world (clocks, random
draws, the database, the object store, the API server) are parameters or steps that may fail.

## What the proofs found

Each of these is proved for all inputs, with the exact condition.

- Limiter: the bound "a full bucket plus what the clock says was earned" can be exceeded between a first request and a
  later one that the caller's clock puts no earlier, under some limit, exactly if the clock has stepped back in between
  (`WindowBoundByClockIff`); measured by the time the bucket sees, the bound holds always. Key expiry changes a
  decision in some run exactly if the clocks may drift so far apart that a bucket does not refill before its key
  expires; one second of drift is always harmless (`ExpiryIsInvisibleIff`, `ASecondOfDriftIsInvisible`).
- Histograms: at every fraction asked for, replicas can merge to a quantile outside their range exactly if they do not
  have the same finite bucket bounds (`MergingIsSafeIff`).
- Archiver: the comment at `storage_archiver.go:137` promises that uploading before deleting loses no data. The SELECT is
  limited and the DELETE is not, so this is true exactly if the expired rows fit the limit and no row already older
  than the cutoff is inserted meanwhile (`SweepLosesNothingIff`); between any number of sweeps, each read that finds too
  many and each such insert can cost a row, and nothing else can (`TameStepIsSafeIff`). A sweep can lead to a row being
  listed twice exactly if another is under way when it reads (`OverlapIsSafeIff`).
- Ring counter: in every run a sum is wrong by exactly the observations that lagged the newest second by a window or
  more and are still counted, at a second that is not their own (`SumExceedsByStrays`, `SumIsRightIff`).
- Routing: the shares are exact exactly if the weights do not overflow the machine's int (`SharesAreExactIff`).
- Rollout: the failure test does not look at the observed generation. A run can be rolled back on a condition that
  predates its patch exactly if the Deployment reported an exceeded deadline when it was patched, unless the image was
  in place already and that generation observed (`FailureIsNeverStaleIff`). A first patch that reports an error but
  took effect is left in place, so a failed run is harmless however it fails exactly if it had nothing to change
  (`FailedPatchIsHarmlessIff`).

Three remarks on functions by themselves, about inputs they are not given at present:

- The key of an edge in the call graph tells pairs apart exactly when nodes balance (`NodesBalanceIff`). Names with a NUL
  could share a key, but sources come from the process environment (`config.go:109`) or from rows found in Postgres
  (`routing_proxy.go:112-164`, `proxy_chat.go:83-102`), neither of which can hold one.
- The way an event stream is cut shows in what is dispatched exactly if something follows the first done
  (`CutNeverShowsIff`, `PrintedEventsAreDeliveredIff`). The servers end every stream with it (`app.py:114-127`,
  `chat_handlers.go:238-240`).
- `retrieveDocs` with a limit of zero would search with a default and then cut to nothing (`NoVotesNoChangeIff`); its
  only caller asks for four (`chat_handlers.go:155`).

## Model

| member | source | states |
|---|---|---|
| TokenBucket.RedisKey.Script | server/internal/cache/redis.go:23-46 | one run of the script: the stored hash, unless expired, is refilled, capped, charged if a whole token is there, written back with a fresh deadline |
| TokenBucket.RedisKey.Allow | server/internal/cache/redis.go:122-133 | fails open and touches nothing when disabled, when the limit makes no sense or when the script fails; otherwise decides as the script |
| TokenBucket.TokensAreTheLeastAllowance | server/internal/cache/redis.go:29-41 | in every run the tokens on hand are exactly the least, over all earlier starting points, of a full bucket plus earnings since then less admissions since then |
| TokenBucket.ExactAdmission | server/internal/cache/redis.go:35-41 | request k is admitted if and only if for every j up to k the admissions since j plus one fit a full bucket plus what was earned since j; any clock |
| TokenBucket.ExactAdmissionByClock | server/internal/cache/redis.go:35-41 | the same with earnings read off the caller's clock, when it has not stepped back so far |
| TokenBucket.ExactAdmissionInSeconds | server/internal/cache/redis.go:35-41 | the same with everything spelled out: for every j the requests past a full bucket, times 1000, are at most rate times the milliseconds since j |
| TokenBucket.EarnedIsRate | server/internal/cache/redis.go:36 | a thousand milliseconds earn exactly `rate` tokens, other spans in proportion |
| TokenBucket.NoTimeWhileClockStepsBack | server/internal/cache/redis.go:35 | the bucket sees no time pass while the clock stands still or steps back |
| TokenBucket.ElapsedIsClockTime | server/internal/cache/redis.go:35 | between two requests the bucket sees clock time pass when the clock does not step back between them |
| TokenBucket.ElapsedAtLeastClockTime | server/internal/cache/redis.go:35 | the bucket never sees less time than the clock shows, and no more only if the clock has not stepped back |
| TokenBucket.WindowBound | server/internal/cache/redis.go:35-41 | no window of requests admits more than a full bucket plus its earnings, whatever the clock does |
| TokenBucket.WindowBoundByClock | server/internal/cache/redis.go:35-41 | no window of length d by the clock admits more than burst + rate * d, when the clock does not step back within it |
| TokenBucket.WindowBoundByClockIff | server/internal/cache/redis.go:35-41 | over the windows from a first request on to one whose clock is no earlier, all limits keep to burst + rate * d if and only if the clock never steps back before such a request |
| TokenBucket.BackwardClockBreaksWindowBound | server/internal/cache/redis.go:35-43 | a concrete run with a clock stepping back and forth admits two requests at one instant with a burst of one |
| TokenBucket.SpacedClientIsNeverRefused | server/internal/cache/redis.go:35-41 | requests at least 1/rate apart are all admitted |
| TokenBucket.TokensStayInRange | server/internal/cache/redis.go:36-41 | stored tokens stay between 0 and burst in every run |
| TokenBucket.TtlRefillsTheBucket | server/internal/cache/redis.go:44 | a second less than the key's lifetime is enough to fill an empty bucket |
| TokenBucket.TtlIsLeast | server/internal/cache/redis.go:44 | the lifetime is the least number of whole seconds that fills an empty bucket with a second to spare |
| TokenBucket.ExpiryIsInvisible | server/internal/cache/redis.go:31-44 | a limiter whose idle keys expire keeps the same state and gives the same reply on every request as one whose keys never do, if buckets refill before keys can expire |
| TokenBucket.ASecondOfDriftIsInvisible | server/internal/cache/redis.go:31-44 | the extra second in the lifetime absorbs a second of drift between the caller's and the server's clock, for every limit |
| TokenBucket.ExpiryIsInvisibleIff | server/internal/cache/redis.go:31-44 | for any limit and drift: no run changes a decision through expiry if and only if the bucket refills before the key can expire |
| Histogram.SortedBounds | server/internal/serving/scraper.go:213-217 | the keys collected in any order and sorted are the one increasing listing of the bounds |
| Histogram.HistogramQuantile | server/internal/serving/scraper.go:212-238 | the loop places the rank where the scan function does |
| Histogram.QuantileMs | server/internal/serving/scraper.go:204-209 | nothing for an empty or idle histogram, else the quantile in milliseconds |
| Histogram.AddBuckets | server/internal/serving/scraper.go:108-113 | cumulative counts are added bound by bound, a missing bound counting zero |
| Histogram.Aggregate.constructor | server/internal/serving/scraper.go:102-104 | a fresh aggregate is the merge of no replicas |
| Histogram.Aggregate.Add | server/internal/serving/scraper.go:106-124 | after each call both histograms are the merge of all replicas added so far, and every counter is the sum |
| Histogram.OneMoreAddsUp | server/internal/serving/scraper.go:114-123 | one more replica keeps each counter equal to the sum of that counter over the replicas |
| Histogram.MergeAllAddsUp | server/internal/serving/scraper.go:106-113 | a merge has every bound of any replica, with the sum of what the replicas report of it, and the sum of their totals |
| Histogram.Aggregate.LatencyMs | server/internal/serving/scraper.go:179-181 | the reported latency quantile is that of the merge of all replicas' histograms |
| Histogram.ScanInverts | server/internal/serving/scraper.go:219-237 | from any point of the scan on, the answer is the least point where the remaining distribution meets the rank, or the last finite bound |
| Histogram.QuantileInvertsDistribution | server/internal/serving/scraper.go:212-238 | the quantile is the least x at which the piecewise-linear distribution equals the rank if the finite buckets reach it, and the last finite bound otherwise (q > 0) |
| Histogram.DistributionInterpolates | server/internal/serving/scraper.go:225-236 | what the distribution is: at every bound the count there, zero at zero, and a straight line between neighbours |
| Histogram.DistributionEnds | server/internal/serving/scraper.go:220-237 | from the greatest finite bound on it stays at the count there |
| Histogram.ReportedMsMeans | server/internal/serving/scraper.go:204-209 | there is a figure exactly if something was counted over some bucket, and a thousandth of it is where the distribution meets the rank, or the last finite bound |
| Histogram.RankPointAtMost | server/internal/serving/scraper.go:219-237 | the answer is at most x if and only if the distribution at x reaches the rank or x reaches the last finite bound |
| Histogram.QuantileMonotone | server/internal/serving/scraper.go:212-238 | the quantile grows with q, from q = 0 on |
| Histogram.DistributionAdds | server/internal/serving/scraper.go:106-113 | the distribution of a merge is the sum of the distributions |
| Histogram.MergeKeepsShape | server/internal/serving/scraper.go:106-113 | merging keeps a histogram cumulative and its last finite bound |
| Histogram.PairwiseMerge | server/internal/serving/scraper.go:106-113 | two ranks placed in a range by their histograms are placed in it by the merge, taken together |
| Histogram.MergeAllReports | server/internal/serving/scraper.go:106-124 | a merge of well-formed replicas is well-formed, and has counted something if and only if one of them has |
| BucketBounds.MergedQuantileStaysWithin | server/internal/serving/scraper.go:106-238 | for any number of replicas with the same finite bounds, and any that export no buckets and counted nothing, whatever range holds the quantile of every replica that reports one holds the merged quantile |
| BucketBounds.RankPointOfFinites | server/internal/serving/scraper.go:220-237 | an infinite bucket never moves the answer |
| BucketBounds.MergedQuantileIsReportedIff | server/internal/serving/scraper.go:204-209 | the merged quantile is reported if and only if some replica's is, whatever the bounds |
| BucketBounds.PlaceAt | server/internal/serving/scraper.go:220-236 | the first bound whose count reaches the rank takes it, on the line from the bound before |
| BucketBounds.EscapeAt | server/internal/serving/scraper.go:108-113 | for any fraction, wherever a bound is one replica's only and they agree below it: two genuine replicas whose merged quantile leaves their range |
| BucketBounds.MergingIsSafeIff | server/internal/serving/scraper.go:106-238 | for any fraction, 0.50, 0.95 and 0.99 among them, and any two sets of bounds: all genuine pairs of replicas over them merge within their range if and only if the finite bounds are the same |
| Reservoir.BuildReservoir | scripts/prepare_awq_calibration.py:42-79 | the loop over lines ends with the reservoir that the usable rows and the draws determine, or refuses a bad argument or too few rows |
| Reservoir.KeepAppend | scripts/prepare_awq_calibration.py:68-74 | one more usable row: appended while there is room, then put in place of the drawn one if the draw is below the size |
| Reservoir.EligibleRowsAreDistinct | scripts/prepare_awq_calibration.py:53-68 | the samples are distinct, each the usable row of the line it names |
| Reservoir.EligibleListsUsableLines | scripts/prepare_awq_calibration.py:53-68 | every usable line of the file has its row, under its own number, in the order of the file, and there are as many rows as usable lines |
| Reservoir.KeepsDistinctRows | scripts/prepare_awq_calibration.py:69-74 | for all draws the reservoir holds min(k, rows) distinct rows of the stream |
| Reservoir.AllDrawsAreAllDraws | scripts/prepare_awq_calibration.py:72 | the counted draw sequences are exactly those with each draw below the number of rows seen |
| Reservoir.RunDrawsAreCounted | scripts/prepare_awq_calibration.py:72 | the draws of any run are one of the counted sequences |
| Reservoir.CountedDrawsAreRun | scripts/prepare_awq_calibration.py:72 | and each counted sequence is the draws of some run |
| Reservoir.CountExtensions | scripts/prepare_awq_calibration.py:72 | if each prefix has c good next draws, the good extensions number c times the prefixes |
| Reservoir.RowsAreEquallyLikely | scripts/prepare_awq_calibration.py:68-74 | over all draw sequences each row is kept in exactly the fraction k / rows of them |
| Reservoir.LinesAreEquallyLikely | scripts/prepare_awq_calibration.py:53-74 | said of the file: each usable line is sampled by exactly the fraction k / usable lines of the draw sequences, and no other line by any |
| Reservoir.LeavesAfterLastDraw | scripts/prepare_awq_calibration.py:69-74 | which earlier reservoirs and last draws leave a given set |
| Reservoir.SubsetsAreEquallyLikely | scripts/prepare_awq_calibration.py:68-74 | each set of k rows is left by exactly (rows - k)! draw sequences, the same number for all |
| Archiver.NdjsonRoundTrip | server/internal/httpx/storage_archiver.go:125-127 | an archived object gives back every row's text, in order |
| Archiver.Tables.Encode | server/internal/httpx/storage_archiver.go:106-129 | the row loop yields the object text, the row count and the time range of the batch |
| Archiver.Tables.ArchiveTable | server/internal/httpx/storage_archiver.go:87-169 | which result follows from the settings and the answers of query, upload and transaction, and the exact state each leaves |
| Archiver.SweepMeans | server/internal/httpx/storage_archiver.go:87-169 | unless a sweep archives, table and list stay and, under a fresh key, no row is lost; if it archives, exactly the expired rows leave the table and the one new manifest leads to the batch, its size and its time range |
| Archiver.SweepIsARun | server/internal/httpx/storage_archiver.go:99-163 | however a sweep ends, it ends as a run of the protocol's steps does: read, upload, commit, or giving up after either of the first two |
| Archiver.MaxTsSpans | server/internal/httpx/storage_archiver.go:119-124 | the time range is the least and the greatest timestamp, the latter not before the zero time |
| Archiver.BatchCoversExpired | server/internal/httpx/storage_archiver.go:100-102 | the limited SELECT returns all expired rows if and only if they fit the limit |
| Archiver.SweepLosesNothingIff | server/internal/httpx/storage_archiver.go:100-163 | a sweep loses no row if and only if nothing had expired, or the expired rows fit the limit and no already expired row is inserted meanwhile |
| Archiver.StepLosesNothing | server/internal/httpx/storage_archiver.go:87-169 | every step of every sweep, and every insert, keeps each inserted row in the table or in a listed object |
| Archiver.ArchivingLosesNothing | server/internal/httpx/storage_archiver.go:87-169 | so it is in every interleaving of sweeps, inserts and failures |
| TameSteps.TameStepIsSafeIff | server/internal/httpx/storage_archiver.go:87-169 | in any state reached by steps that keep to the rules: whatever such steps follow a step that can happen, no row is ever lost, if and only if the step keeps to them: a read finds no more than the limit expired, an inserted row is not already expired for a sweep under way |
| SweepOverlap.StepKeepsExactlyOnce | server/internal/httpx/storage_archiver.go:87-169 | with one sweep at a time every step keeps table and listed objects a partition of the rows |
| SweepOverlap.SequentialSweepsPartitionRows | server/internal/httpx/storage_archiver.go:87-169 | then in every run each row is in exactly one of the table and the listed objects, orphan uploads notwithstanding, and the row counts add up |
| SweepOverlap.SequentialCommitCountsDeletedRows | server/internal/httpx/storage_archiver.go:144-163 | then a commit deletes exactly the rows of the object it lists, and its row_count is their number |
| SweepOverlap.ReadsOverlap | server/internal/httpx/storage_archiver.go:100-102 | a read during another sweep always takes a row that sweep has read too |
| SweepOverlap.OverlapIsSafeIff | server/internal/httpx/storage_archiver.go:87-169 | from any state in which each row is in one place: whatever follows a sweep's read, no row is ever listed twice, if and only if no other sweep was under way at the read |
| SweepOverlap.ConcurrentSweepsCanListTwice | server/internal/httpx/storage_archiver.go:144-163 | such states are reachable: a run from the start in which two overlapping sweeps list one row twice |
| RollingRate.Counter.constructor | server/internal/obs/servicegraph.go:218-222 | a new counter is all zero and has seen no second |
| RollingRate.Counter.AdvanceTo | server/internal/obs/servicegraph.go:235-256 | empties exactly the buckets of the seconds skipped, in both the full-sweep and the walking branch |
| RollingRate.Counter.ObserveAt | server/internal/obs/servicegraph.go:224-232 | advances, then counts one request, and one failure if it was one, in the second's bucket |
| RollingRate.Counter.Sum | server/internal/obs/servicegraph.go:258-265 | advances, then totals both rings |
| RollingRate.AdvanceKeepsLog | server/internal/obs/servicegraph.go:235-256 | moving the window keeps every bucket equal to its second's count in the event log |
| RollingRate.ObserveAppendsToLog | server/internal/obs/servicegraph.go:224-232 | an observation appends one event to the log, at its own second unless it lags by a window or more |
| RollingRate.BucketsSumToWindow | server/internal/obs/servicegraph.go:260-263 | the buckets' total is the number of logged events in the window |
| RollingRate.RunRepresentsCountedLog | server/internal/obs/servicegraph.go:224-265 | after any mix of calls the ring represents the log and the newest second seen |
| RollingRate.SumCountsCountedLog | server/internal/obs/servicegraph.go:224-265 | for every run, late observations included, the sums count the log of events where they were counted |
| RollingRate.SumCountsLog | server/internal/obs/servicegraph.go:224-265 | with observations lagging by under 60 seconds the sums are the requests and failures of the last 60 seconds |
| RollingRate.SumNowCountsLog | server/internal/obs/servicegraph.go:258-265 | so are those of a sum asked for at any second, for the 60 seconds up to it or to the newest second seen |
| RollingRate.SumExceedsByStrays | server/internal/obs/servicegraph.go:224-265 | for every run whatever: the sums of requests and failures exceed the true counts by exactly the observations that lagged by a window or more and are still counted at a second not their own |
| RollingRate.SumIsRightIff | server/internal/obs/servicegraph.go:224-265 | for every run: a sum is right if and only if no such observation is left in the window |
| RollingRate.LaggingObservationIsOvercounted | server/internal/obs/servicegraph.go:240-243 | after an observation the sum is right if and only if it lags by under 60 seconds and no earlier stray is left |
| ServiceGraph.ServiceGraph.TouchNode | server/internal/obs/servicegraph.go:97-104 | adds a node with zero counters if it is new and changes nothing otherwise |
| ServiceGraph.ServiceGraph.Record | server/internal/obs/servicegraph.go:72-95 | the whole new graph after one call; nothing for an empty or self call |
| ServiceGraph.ServiceGraph.Snapshot | server/internal/obs/servicegraph.go:148-155 | every ring moves on to the present and each edge is reported with its sums and totals |
| ServiceGraph.EdgeKeyInjective | server/internal/obs/servicegraph.go:84 | the separator keeps edges apart when no source contains it |
| ServiceGraph.RecordKeepsBalance | server/internal/obs/servicegraph.go:78-94 | one call keeps a node's requests and errors equal to the sums over its incoming edges |
| ServiceGraph.NodesBalanceIff | server/internal/obs/servicegraph.go:72-95 | for any set of source-target pairs: every run of calls and readings over them balances every node, if and only if the key tells the pairs apart |
| ServiceGraph.NodesBalanceEdges | server/internal/obs/servicegraph.go:72-95 | so in every run whose sources are free of NUL, as all the program forms are, each node balances its incoming edges |
| ServiceGraph.EdgeFollowsItsCalls | server/internal/obs/servicegraph.go:84-94 | an edge exists exactly if it had a call, its total is their number and its ring is the one its calls and the readings since produce |
| ServiceGraph.SnapshotCountsCalls | server/internal/obs/servicegraph.go:148-155 | what a snapshot reports for an edge: its calls and failures of the 60 seconds up to the snapshot, and all its calls |
| ServiceGraph.NodesAreEndsOfCalls | server/internal/obs/servicegraph.go:72-104 | in every run the nodes are exactly the ends, sources included, of the calls between two different named services |
| ServiceGraph.NodeKeepsFirstKind | server/internal/obs/servicegraph.go:97-104 | a node is of the kind that the first call to mention it gave it |
| ServiceGraph.NodeCountsItsCalls | server/internal/obs/servicegraph.go:78-83 | a node has counted exactly the calls into it and the failed ones among them, in every run and whatever the names |
| ServiceGraph.EdgeKeepsFirstKind | server/internal/obs/servicegraph.go:85-89 | an edge's target is of the kind that its first call named |
| ServiceGraph.SharedKeyUnbalances | server/internal/obs/servicegraph.go:84-89 | for any two countable pairs under one key, two calls after which a node no longer balances |
| SseReader.BreakAtIsFirst | apps/web/src/lib/api.ts:368 | the block separator found is the first one |
| SseReader.ParseSseBlock | apps/web/src/lib/api.ts:575-592 | the last event line names the event, the trimmed data lines are joined, other lines are ignored |
| SseBlocks.ParsedMeans | apps/web/src/lib/api.ts:575-592 | a block's name is that of its last event line, its data, split into lines, is what its data lines give, there is none without a data line, and without a name nothing is dispatched |
| SseBlocks.DataOfOne | apps/web/src/lib/api.ts:580 | a line gives data exactly if it begins with the field name: the rest of it, trimmed |
| SseBlocks.DataOfAppend | apps/web/src/lib/api.ts:578-581 | lines give their data one after another, in order |
| SseBlocks.TrimIsMiddle | apps/web/src/lib/api.ts:579-580 | trimming takes spaces off both ends, and all of them |
| SseBlocks.JoinInvertsSplit | apps/web/src/lib/api.ts:578-584 | a text split into lines and joined again is the same text |
| SseBlocks.SplitInvertsJoin | apps/web/src/lib/api.ts:584 | lines joined and split again are the same lines |
| SseReader.Drain | apps/web/src/lib/api.ts:367-392 | the inner loop dispatches all complete blocks of the buffer, a done among them or not, and keeps the rest |
| SseBlocks.BatchOfBlocks | apps/web/src/lib/api.ts:367-370 | of any blocks, each followed by an empty line, and a rest without one, the reader takes exactly these blocks and leaves exactly that rest |
| SseBlocks.AnyTextIsBlocks | apps/web/src/lib/api.ts:367-370 | every text is some blocks and such a rest |
| SseReader.StreamEvents | apps/web/src/lib/api.ts:356-406 | the callbacks in order for any chunks and any ending: the events, at most one transport error and only before a done, and onDone exactly once and last |
| SseReader.ParsePrinted | apps/ai-service/aiservice/llm.py:20-21 | parsing a printed block gives back the event |
| SseReader.BatchExtended | apps/web/src/lib/api.ts:365-370 | reading a text in two pieces is reading the first and continuing with its rest and the second |
| SseReader.DeliveredIsBatchOfChunksRead | apps/web/src/lib/api.ts:361-393 | what is dispatched is exactly the batch parse of the chunks up to the one that completes the first done |
| SseBlocks.ReadsToFirstDone | apps/web/src/lib/api.ts:361-393 | the reader reads up to the first chunk by which a done is complete, or all of them, and dispatches exactly the events of what it has read |
| SseReader.ChunkingIsInvisible | apps/web/src/lib/api.ts:361-393 | however the stream is cut, the events up to and including the first done are those of the batch parse |
| SseReader.AnyTwoChunkingsAgree | apps/web/src/lib/api.ts:361-393 | two cuts of one text agree up to the first done |
| SseReader.BatchInvertsPrint | apps/ai-service/aiservice/llm.py:20-21 | the batch parse of a printed sequence is that sequence, with nothing left over |
| SseReader.PrintedEventsAreDelivered | apps/web/src/lib/api.ts:356-406 | a printed sequence with no done before its last event is dispatched exactly, however it is cut |
| SseReader.ChunkingShowsAfterDone | apps/web/src/lib/api.ts:367-391 | past the first done the cut decides whether a further event is dispatched |
| SseReader.CutNeverShowsIff | apps/web/src/lib/api.ts:361-393 | for any text: all cuts of it dispatch the same if and only if the batch parse has nothing after its first done |
| SseReader.PrintedEventsAreDeliveredIff | apps/web/src/lib/api.ts:356-406 | a printed sequence is dispatched exactly under every cut if and only if no event follows a done |
| LoadRunner.Counters.RecordClass | server/internal/httpx/benchmark_runner.go:177-200 | the class entry, created on first use, counts the request and its error or its samples |
| LoadRunner.Counters.AddSamples | server/internal/httpx/benchmark_runner.go:188-196 | which timings and token sums a request that did not fail adds |
| LoadRunner.Counters.CountFlags | server/internal/httpx/benchmark_runner.go:201-219 | which quality counters a request that did not fail adds to |
| LoadRunner.Counters.Record | server/internal/httpx/benchmark_runner.go:176-221 | the whole critical section |
| LoadRunner.CountingKeepsBalance | server/internal/httpx/benchmark_runner.go:176-221 | it keeps ok + err, the class sums, the class errors and the numbers of samples in agreement |
| LoadRunner.TallyIsBalanced | server/internal/httpx/benchmark_runner.go:176-221 | the counters agree after any sequence of recorded requests |
| LoadCounts.CountersCountTheLog | server/internal/httpx/benchmark_runner.go:176-221 | after any log each counter is the number of requests it is there to count |
| LoadCounts.SamplesMeasureTheLog | server/internal/httpx/benchmark_runner.go:188-206 | the samples are the measurements of the requests that did not fail, in the order recorded, without times that are not positive, and the token sums add up |
| LoadCounts.ClassesMeasureTheirOwn | server/internal/httpx/benchmark_runner.go:177-200 | a class's entry is what its own requests, and no others, make of it |
| LoadCounts.CountersStandForTheLog | server/internal/httpx/benchmark_runner.go:158-245 | so it is in every reachable state of every interleaving |
| LoadRunner.StepKeepsInvariant | server/internal/httpx/benchmark_runner.go:158-245 | every step of loop, goroutines and wait group keeps the protocol's invariant |
| LoadRunner.ConcurrencyIsBounded | server/internal/httpx/benchmark_runner.go:153-168 | in every interleaving the semaphore counts exactly the requests holding a slot, at most the concurrency |
| LoadRunner.NothingIsLostAtTheEnd | server/internal/httpx/benchmark_runner.go:136-245 | after the wait every started request is recorded once, ok + err, class sums and samples agree with their number, and without cancellation that is the total |
| LoadRunner.ClassesGetTheirShare | server/internal/httpx/benchmark_runner.go:169-182 | each context length has been sent exactly its share of the rotation |
| LoadRunner.NeverStuck | server/internal/httpx/benchmark_runner.go:158-245 | with at least one slot some step can always be taken until the wait has returned |
| LoadRunner.StepUsesOneUp | server/internal/httpx/benchmark_runner.go:158-245 | every step but a cancellation uses up one of the moves that remain |
| LoadRunner.WaitReturnsInTheEnd | server/internal/httpx/benchmark_runner.go:158-245 | the wait returns: no interleaving makes more than four moves a request and two more, and with at least one slot it can make none exactly when the wait has returned |
| Percentile.Pctile | server/internal/httpx/benchmark_runner.go:535-551 | the floor-and-ceiling form computes the interpolated percentile |
| Percentile.Pct | server/internal/metrics/percentile.go:7-26 | the weighted form with its clamped neighbour computes the interpolated percentile |
| Percentile.Agree | server/internal/metrics/percentile.go:7-26 | the two implementations return the same for every input |
| Percentile.AtMonotone | server/internal/metrics/percentile.go:17-24 | the interpolated value grows with the rank, from the smallest to the largest value |
| Percentile.PercentileMonotone | server/internal/httpx/benchmark_runner.go:535-551 | a percentile lies in every range that holds the values and grows with the fraction |
| Percentile.PercentileIgnoresOrder | server/internal/httpx/benchmark_runner.go:539-540 | inputs that are permutations of each other have the same percentiles |
| Percentile.PercentileIsLinearBetweenRanks | server/internal/httpx/benchmark_runner.go:542-550 | for rank p times n between k and k + 1 the percentile of n + 1 values lies that far on the line from the k-th smallest to the next |
| Percentile.PercentileAtWholeRank | server/internal/metrics/percentile.go:14-24 | the percentile at k / n of n + 1 values is the k-th smallest, counted from zero |
| Percentile.PercentileOfFew | server/internal/metrics/percentile.go:8-13 | of one value every percentile is that value, and of none there is none |
| NgramF1.Normalize | server/internal/httpx/benchmark_runner.go:719-727 | the runes are lower-cased and filtered in order |
| NgramF1.NormalizedOne | server/internal/httpx/benchmark_runner.go:721-725 | one rune is lower-cased and then kept or dropped |
| NgramF1.NormalizedAppend | server/internal/httpx/benchmark_runner.go:719-727 | a text is normalized rune by rune, in order |
| NgramF1.CountGrams | server/internal/httpx/benchmark_runner.go:728-737 | the count map holds exactly the bag of n-grams, none if the text is too short |
| NgramF1.GramsCountOccurrences | server/internal/httpx/benchmark_runner.go:733-735 | the bag has each n-gram as often as the text has it, overlaps included, and nothing of another length |
| NgramF1.Overlap | server/internal/httpx/benchmark_runner.go:743-754 | summing over a map in any key order gives the bag's size and the size of its intersection with the other |
| NgramF1.Score | server/internal/httpx/benchmark_runner.go:740-760 | the score of two count maps is twice the overlap over the sum of the sizes |
| NgramF1.CharNgramF1 | server/internal/httpx/benchmark_runner.go:718-761 | the score of two texts is the Dice coefficient of their n-gram bags |
| NgramF1.HarmonicMean | server/internal/httpx/benchmark_runner.go:755-760 | precision and recall combined are the overlap over the average size |
| NgramF1.DiceIsHarmonicMean | server/internal/httpx/benchmark_runner.go:755-760 | the score is the harmonic mean of precision and recall, zero if nothing is shared |
| NgramF1.DiceProperties | server/internal/httpx/benchmark_runner.go:718-761 | symmetric, between 0 and 1, 1 if and only if the bags are equal and not empty, 0 if and only if they are disjoint |
| NgramF1.PerfectScore | server/internal/httpx/benchmark_runner.go:718-761 | a perfect score means the same n-grams, each as often, and a text long enough to have one |
| DockerLog.DecodeDockerLogStream | agent/inference.go:382-397 | the loop yields the chain of payloads and the remainder, in both return branches |
| DockerLog.BigEndianInvertsLengthBytes | agent/inference.go:385 | the header's four bytes give back any 32-bit length |
| DockerLog.BigEndianIsLexicographic | agent/inference.go:385 | lengths are ordered as their four bytes read from the front, so the first weighs most |
| DockerLog.HeaderIsStripped | agent/inference.go:384-391 | a header that begins with 1 or 2 is stripped off a payload of the announced length; with any other first byte all stays |
| DockerLog.CutFrameStays | agent/inference.go:384-396 | a frame cut short anywhere comes out as it is |
| DockerLog.DecodeFramesThenRest | agent/inference.go:382-397 | whole frames followed by anything that starts none decode to the payloads and that rest |
| DockerLog.DecodeInvertsEncode | agent/inference.go:382-397 | decoding any concatenation of frames gives the concatenated payloads |
| DockerLog.AnyBytesDecode | agent/inference.go:382-397 | any bytes are a maximal chain of whole frames and a remainder, and decode to its payloads and the remainder |
| DockerLog.SplitIsUnique | agent/inference.go:384-391 | that split is the only one |
| Rerank.RerankByFeedback | server/internal/httpx/rag_eval.go:198-206 | the slice is overwritten with its stable sort by boosted score |
| Rerank.RetrieveDocs | server/internal/httpx/rag_eval.go:173-195 | which documents come back, and whether re-ranked, for every outcome of search and signal |
| Rerank.RerankedTakesBest | server/internal/httpx/rag_eval.go:178-195 | a re-ranked search returns the best topK, in order, of the first three times topK by plain score, and none from further back |
| Rerank.StableSortedOrders | server/internal/httpx/rag_eval.go:203-205 | the output is a permutation, falling in boosted score, equals in the order they came |
| Rerank.SortedStays | server/internal/httpx/rag_eval.go:203-205 | an already falling input comes back unchanged |
| Rerank.LeadSurvives | server/internal/httpx/rag_eval.go:199-202 | a lead of 0.2 in raw score stays a lead whatever the votes |
| Rerank.BetterVotedStandsBefore | server/internal/httpx/rag_eval.go:198-206 | a document with at least another's score and strictly more votes stands before it |
| Rerank.MoreVotesNeverMoveBack | server/internal/httpx/rag_eval.go:198-206 | raising one document's votes alone never moves it back |
| Rerank.UpvotesPassIff | server/internal/httpx/rag_eval.go:199-202 | enough upvotes alone bring a document past another if and only if that leads it by less than 0.1 |
| Rerank.VotesPassIff | server/internal/httpx/rag_eval.go:199-202 | with downvotes for the other as well, if and only if it leads by less than 0.2 |
| Rerank.LeaderStaysAhead | server/internal/httpx/rag_eval.go:198-206 | after re-ranking a document stands before every one it led by 0.2 |
| Rerank.LeadIsSafeIff | server/internal/httpx/rag_eval.go:199-202 | for any one squashing that comes as close to -1 and 1 as one likes, as tanh does: a lead holds whatever the votes if and only if it is at least 0.2 |
| Rerank.NoVotesNoChangeIff | server/internal/httpx/rag_eval.go:173-206 | with all-zero votes re-ranking gives the plain search result if and only if the limit is positive or there are no documents |
| Routing.PickVariant | server/internal/httpx/routing_proxy.go:21-42 | both loops: the total with the machine's overflow, then the position the draw selects |
| Routing.WrapIsModular | server/internal/httpx/routing_proxy.go:22-27 | the total is the one machine int that differs from the sum by a multiple of two to the 64th |
| Routing.ChosenByStretch | server/internal/httpx/routing_proxy.go:31-40 | a draw selects position i if and only if it falls in i's stretch of the running total |
| Routing.DrawAlwaysChooses | server/internal/httpx/routing_proxy.go:28-41 | a draw below a positive total selects a position with positive weight; the last return is unreachable |
| Routing.CountDraws | server/internal/httpx/routing_proxy.go:31-40 | the number of draws below any total that select position i |
| Routing.SharesAreExact | server/internal/httpx/routing_proxy.go:21-42 | exactly weight-many of the draws select each position, none if the weight is not positive |
| Routing.SharesAreExactIff | server/internal/httpx/routing_proxy.go:21-42 | with a usable total, that is so if and only if the weights do not overflow |
| Routing.ValidateVariants | server/internal/httpx/routing_handlers.go:211-237 | the first complaint in list order, else about the total, else none |
| Routing.AcceptedIffValid | server/internal/httpx/routing_handlers.go:210-237 | accepted if and only if there is a variant, labels and endpoints are not blank, labels differ, no weight is negative and the total is positive |
| Routing.VerdictIsOnFirstFault | server/internal/httpx/routing_handlers.go:214-231 | the complaint about a faulty list is about its first faulty variant, and which one |
| Routing.VerdictWithoutFault | server/internal/httpx/routing_handlers.go:211-237 | without a faulty variant there must be one at all, and then weight |
| Routing.PromoteWeights | server/internal/httpx/routing_handlers.go:443-453 | all weight to the label, and whether the label is there |
| Routing.PromotionTakesAllDraws | server/internal/httpx/routing_handlers.go:443-453 | a promoted list is valid, its total is 100 and every draw picks the promoted label |
| Routing.PolicyTable.Create | server/internal/httpx/routing_handlers.go:240-281 | outcome and new table: a row only for a named, valid, not yet existing policy |
| Routing.PolicyTable.Update | server/internal/httpx/routing_handlers.go:330-379 | outcome and new table: absent fields keep their value, the snapshot is kept |
| Routing.PolicyTable.Promote | server/internal/httpx/routing_handlers.go:423-474 | outcome and new table: promoted weights and a snapshot of the old ones |
| Routing.PolicyTable.Rollback | server/internal/httpx/routing_handlers.go:477-517 | outcome and new table: the snapshot restored and removed, or refused |
| Routing.PolicyTable.PromoteThenRollback | server/internal/httpx/routing_handlers.go:423-517 | a rollback straight after a promotion gives back the exact variants |
| Routing.StepKeepsAllValid | server/internal/httpx/routing_handlers.go:240-517 | every step of handlers that load, validate and write separately keeps all stored lists and snapshots valid |
| Routing.EveryPolicyRoutes | server/internal/httpx/routing_handlers.go:240-517 | so in every reachable table each policy is valid and every draw finds a variant with positive weight |
| Routing.LoadThenWrite | server/internal/httpx/routing_handlers.go:330-517 | a handler's load and write with nothing in between leave the table that its write makes of the row loaded |
| PolicyOrigins.StepKeepsOrigins | server/internal/httpx/routing_handlers.go:240-517 | no step of any handler mixes variants of different lists |
| PolicyOrigins.StoredListsWereAsked | server/internal/httpx/routing_handlers.go:240-517 | in every interleaving a stored policy, and its snapshot, has the labels, endpoints and models of one list that some request brought; only weights may differ |
| Rollout.Cluster.PatchDeploymentImage | server/internal/k8s/client.go:435-453 | the first container's image changed and the earlier one returned, or an error, with or without effect |
| Rollout.PatchSetsOnlyImage | server/internal/k8s/client.go:435-453 | a patch sets the first container's image and nothing else, and makes a new generation exactly if that was another image |
| Rollout.Cluster.RolloutStatus | server/internal/k8s/client.go:468-498 | complete if and only if the current generation is observed and fully rolled out; failed if and only if some Progressing condition reports the deadline |
| Rollout.LastProgressingIsLast | server/internal/k8s/client.go:481-490 | reason and message are those of the last Progressing condition |
| Rollout.Runner.RollbackRollout | server/internal/httpx/deploy_runner.go:89-106 | patches back a known earlier image, and records exactly one failure whether or not that works |
| Rollout.Runner.RunDeploymentRollout | server/internal/httpx/deploy_runner.go:32-86 | for any controller and any readings: the final Deployment, the last phase, and exactly one finish once a poll decides |
| Rollout.WatchedIsDecided | server/internal/httpx/deploy_runner.go:58-85 | the loop's outcome is settled by the first poll that decides |
| Rollout.EndsAtFirst | server/internal/httpx/deploy_runner.go:58-85 | the deciding poll is the first that is complete, failed or past the deadline |
| Rollout.EndsByFirstPollPastDeadline | server/internal/httpx/deploy_runner.go:55-85 | the run ends no later than the first poll after the deadline |
| Rollout.FinishesOnceIff | server/internal/httpx/deploy_runner.go:43-85 | at most one finish, written if and only if the patch was not made or some poll is complete, failed or past the deadline |
| Rollout.FirstSettlingPollDecides | server/internal/httpx/deploy_runner.go:58-85 | after a successful patch a run goes on until a poll is past the deadline or was read and shows the rollout complete or its deadline exceeded; the first such poll ends it, in success exactly if it was read and complete |
| Rollout.UnreadPollsDoNotMatter | server/internal/httpx/deploy_runner.go:60-69 | polls that could not be read before the deadline leave the outcome as if they had not happened |
| Rollout.SuccessIsSound | server/internal/httpx/deploy_runner.go:70-75 | success is recorded only when the patched generation or a later one is observed and all desired replicas are updated, ready and available |
| Rollout.FailureRestoresIff | server/internal/httpx/deploy_runner.go:76-93 | with no other writer, a failure restores the containers if and only if an earlier image is known and the rollback patch takes effect, or nothing had changed |
| Rollout.FailureIsNeverStaleIff | server/internal/httpx/deploy_runner.go:76-78 | no run is given up on a condition from before its patch if and only if the Deployment reported no exceeded deadline then, or the patched generation was observed already because the image was in place |
| Rollout.FailedPatchIsHarmlessIff | server/internal/httpx/deploy_runner.go:43-50 | however the first patch fails, the run leaves the containers as they were, if and only if there are none or the image was already the asked one |

## Left out

- Floating-point rounding, NaN and the fourteen digits Lua's `tostring` keeps: numbers are `real`.
- UTF-8, the browser's TextDecoder and JSON: texts are characters, an event's data is the joined text before decoding, and what each handler picks out of the decoded data is not modelled.
- `streamChatSession` in `api.ts:497-566` has the same loops over more event names and is not repeated.
- Transports and SQL (Redis, MinIO, Postgres, Kubernetes, Docker, HTTP): only their effect on the state, as steps or calls that may fail.
- The script's arguments are taken as the Go wrapper passes them; a stored hash is only ever one the script wrote.
- The rates, means and per-pod statistics of `compute`, and the parsing of the Prometheus text.
- Library sorts (`sort.Float64s`, `sort.SliceStable`) stand as functions proved to sort; the update in place is kept only where a caller sees it (`RerankByFeedback`).
- The rate an edge of the call graph keeps is a ring value; that the in-place counter refines it is stated on `RollingRate.Counter`.
- `classifyClientTarget`, `hostFromSpan`, and a node's label, which repeats its id.
- Shuffling and writing the finished reservoir, reading JSON lines and rendering chat templates: a line is usable or not and has a text.
- Retention configuration, auditing and the list of tables of the archiver: one table with its cutoff. Object keys carry a nanosecond clock and are taken as fresh.
- Archiver.ArchivingLosesNothing: for runs in which every read finds at most the limit expired and no row already older than a running sweep's cutoff is inserted, because without these the code does lose rows; TameStepIsSafeIff shows that each of the two is needed, SweepLosesNothingIff has the exact condition for one sweep.
- Archiver.Tables.ArchiveTable: does not say what a caller can do about a transaction whose commit is reported lost; the step model's Commit covers it, whether or not the sweep learns of it.
- BucketBounds.MergedQuantileStaysWithin: for positive bounds and counts that do not fall as the bound grows, which is what a Prometheus histogram of latencies has; that the finite bounds must agree, those of a replica that counts without exporting buckets included, is MergingIsSafeIff.
- RollingRate.SumCountsLog: for positive seconds; a counter that has seen second 0 cannot tell it from having seen none.
- ServiceGraph.NodesBalanceEdges: for sources without NUL, which are all the program has; NodesBalanceIff is the statement for any.
- ServiceGraph.ServiceGraph.Snapshot: the edges' lines only, without the order they are sorted in and without the nodes' lines, which copy the counters.
- TokenBucket.WindowBoundByClockIff: for windows that begin with the first request, when the bucket is full; those that begin later are bounded by WindowBound, and by WindowBoundByClock if the clock does not step back within them.
- SseReader.PrintedEventsAreDelivered: for names and data that are one line with nothing to trim, as event names and JSON objects are.
- What the reader follows of section 9.2.6 of the WHATWG HTML standard is a subset: comments, `id`, `retry` and carriage returns are as the code treats them.
- LoadRunner.NeverStuck: for at least one slot, like the second half of WaitReturnsInTheEnd; with none the loop waits for a cancellation.
- The benchmark's request itself, its events and traces, the GPU snapshots and the summary after the wait.
- Percentile.Pctile: for p between 0 and 100, and Percentile.Pct for p between 0 and 1; outside, the code indexes out of range.
- `Mean`, a plain average.
- NgramF1.Normalize: takes the Unicode lower-casing and letter-or-number tables as parameters, one character to one character.
- Rerank.LeadIsSafeIff: takes the squashing as a parameter that is bounded by 1 and comes arbitrarily close, and UpvotesPassIff and VotesPassIff as one that also grows; that `math.Tanh` of half the balance does is not proved here.
- Rerank.MoreVotesNeverMoveBack: for documents that are all different, as their ids are; equal ones cannot be told apart in the output.
- Rerank.RetrieveDocs: for a limit that is not negative; slicing to a negative one panics.
- A routing variant's label is called `tag` in the model, since `label` is a reserved word. Shadow traffic, samples and deployment records are not modelled.
- Routing.PolicyTable.Create: takes the name already trimmed; a database error other than a duplicate leaves the table as it was and is a Fail step in the interleaved model.
- Rollout messages, progress percentages, metadata, audits and the recovery from a panic.
- The read and the patch inside `PatchDeploymentImage` are one step; another writer may act before and after, not between.
