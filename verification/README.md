# FIDB planner and lane verification

The factory builds libraries of function signatures over many compilers and
options. This project models its planning algorithms, the compaction of a lane
database, and the small protocols around them, and proves what they keep.

* **Scheduling** (`ListScheduling`, `GrahamBound`, `IdleTail`, `EqualBlocks`,
  `TailFill`). The benchmark's loop over a heap of worker slots is proved equal
  to a schedule on sorted slots. That schedule meets Graham's bound, which is
  shown to be tight, it has no anomalies, and merging two blocks is never slower
  than running them one after the other. It costs nothing when the successor
  fits on idle workers; for blocks of equal jobs the merged time has a closed
  form.
* **Planning** (`BlockPacking`, `FirstFit`, `PackingBounds`, `RouteBundles`,
  `RoutePacking`, `ChunkPlans`, `QueuePartition`, `ResolvedQueue`, `WidthAxes`).
  Work items become time blocks, at most half again as many, rounded up, as any
  packing needs. They become route bundles, greedy chunks and matrices without
  losing a cell, an hour or an execution; exactly when the chunks are the fewest
  possible is stated too. The resolved queue is accepted exactly when the chunks
  partition it, and a queue that holds every planned cell once always is.
* **Lane compaction** (`LaneCompaction`, `LaneChecks`, `Publication`,
  `PublicationHistory`). Joining the compact tables rebuilds the raw table. What
  the two verification queries establish, and what they leave open, is stated
  exactly. Publication is a protocol of any number of publishers with a failure
  possible at every step; what it publishes is traced back to the moments at
  which the publisher read the source.
* **Comparing runs** (`CellPayload`, `PayloadReader`, `BackendComparison`,
  `BackendDigests`, `SignatureStream`). What the field-by-field comparison reports, when two
  digests are equal, and exactly when the two notions part. The stream fed to a
  cell's signature digest determines the records.
* **Event feed** (`EventWindow`, `EventFeed`). The window of 500 entries that is
  updated page by page is the window of everything fetched, and against a
  coordinator that goes on appending no refresh leaves a gap.
* **Printers and policies** (`TomlPrinter`, `MesonPrinter`, `ShellWords`,
  `ShellGrammar`, `JvmPolicy`). Printed values read back, the JVM policy accepts its own options
  without change, exactly which options survive being printed, and exactly which
  texts the policy prints unchanged.

`Results`, `Sequences`, `Sorting`, `Sums`, `Aggregates`, `Lexicographic`,
`Grouping`, `Decimals` and `JsonText` hold what several of these share.

The main operations are also stated in terms of their inputs alone, without the
functions that compute them: which names a chunk owns, which routes an item is
split over, which value a field has, which block is closest.

Durations and hours are reals. The tolerances that the code adds to its
comparisons are parameters. Digests are modelled by what they are taken of.

Eight results say where the code falls short of what one might expect, or where
a side condition matters:

* The block packer's docstring and its plan field speak of first fit
  (`src/fidb_poc/batch_time_model.py:106` and 426). The code takes the fitting
  block closest to the target, the first of equals; items of 6, 5 and 3 hours
  separate the two (`FirstFit.NotFirstFit`). For different items both give the
  same packing exactly when, at every item, no later block with room comes
  closer to the target than the first (`FirstFit.PackingsAgreeIff`).
* Bundles without duration can cost the route packer a chunk, and never more
  than one. With target and maximum the same, or no chunk above the target, its
  chunks are the fewest exactly when there is at most one or the last one takes
  time (`RoutePacking.FewestIff`); in any case it is enough that the last bundle,
  or the last item of the queue, takes time (`ChunkPlans.PlanHasFewestChunks`).
  The hours of an item that splits are a sum of positive costs over a positive
  rate, so only their rounding to six decimals
  (`src/fidb_poc/batch_time_model.py:360`) makes such a bundle.
* The lane verification queries compare signature columns only: tables with a
  renamed function pass both (`LaneChecks.RenamingPasses`). With the schema
  they mean losslessness exactly when every occurrence keeps its provenance.
* The source digest check misses a source that is changed and changed back
  between the two digests (`PublicationHistory.DigestCheckMissesReversion`). The
  published tables are those of the source that the file records exactly when
  the source held the same rows at the moment it was compacted as at the first
  digest (`PublicationHistory.RecordedTablesIff`). A source that does not return
  to an earlier state between the two digests always meets this. A temporary
  file is left behind exactly when closing it or the cleanup itself fails.
* The number of signatures that a published file records is compared with
  nothing. It is right exactly when the source held as many distinct signatures
  at the preview as when it was compacted (`PublicationHistory.RecordedCounts`).
  A run in which the source is another one at the preview only succeeds with a
  wrong number (`PublicationHistory.NoCheckOfTheSignatureCount`).
* A run that lists one cell twice shows no field mismatch against the run that
  lists it once (`BackendDigests.RepeatedCellsEscapeTheDiff`). Nothing is
  reported although the digests differ exactly when the runs agree on the last
  cell under every key and differ on an earlier one under some key. With unique
  keys in the reference, equal digests mean no mismatch and as many cells.
* `_toml_value` prints U+007F bare, which TOML forbids: a value reads back
  exactly when it does not hold that character.
* `java_options` splits quoted text and prints it without quotes: one quoted
  option with a blank in it can come back as two, the second a heap
  (`JvmPolicy.QuotedOptionSetsAHeap`). The printed options read back as they
  were exactly when every inherited token is not empty and free of blanks,
  quotes and backslashes, and the text neither begins nor ends with a character
  that stripping removes (`ShellWords.ReadsBackIff`). Text is printed
  unchanged exactly when it has no quoting, no loose blanks, and bounds that are
  accepted with nothing to add (`JvmPolicy.PrintsItselfIff`).

## Model

| member | source | states |
|---|---|---|
| TailFill.SlotHeap.constructor | scripts/benchmark_tail_fill_scheduler.py:12-13 | The heap starts with one idle slot for each worker. |
| TailFill.SlotHeap.Pop | scripts/benchmark_tail_fill_scheduler.py:15 | Removes one earliest slot and nothing else. |
| TailFill.SlotHeap.Push | scripts/benchmark_tail_fill_scheduler.py:16 | Adds one slot and nothing else. |
| TailFill.SlotHeap.Latest | scripts/benchmark_tail_fill_scheduler.py:17 | The largest slot time held. |
| TailFill.HeldAfterJob | scripts/benchmark_tail_fill_scheduler.py:14-16 | Popping any earliest slot and pushing the job's end is one step of the schedule on sorted slots, whatever the heap's layout. |
| TailFill.Makespan | scripts/benchmark_tail_fill_scheduler.py:11-17 | The loop returns the span of the sorted-slot schedule; without workers it raises, from the pop or, if there are no jobs, from the maximum. |
| TailFill.Compare | scripts/benchmark_tail_fill_scheduler.py:25-28 | For any two blocks: serial and merged spans, and an improvement that lies between 0 and 50 percent; without a worker it raises what the loop raises, and it divides by zero exactly when the serial time is zero. |
| TailFill.Benchmark | scripts/benchmark_tail_fill_scheduler.py:20-38 | The shipped blocks for every worker count, both times in closed form; from 14 workers on the merged time is one long cell; at the default of 32 workers 140 minutes become 120, a saving of one seventh. |
| IdleTail.IdleWorkersAbsorb | scripts/benchmark_tail_fill_scheduler.py:21-27 | If a successor alone, on the workers the primary block leaves idle, ends no later than the primary, then the merged blocks end exactly when the primary does. |
| IdleTail.RunScale | scripts/benchmark_tail_fill_scheduler.py:14-16 | Multiplying all durations by a positive factor multiplies the whole schedule. |
| IdleTail.EqualJobsSpan | scripts/benchmark_tail_fill_scheduler.py:23-26 | Equal jobs take as long as their rounds, for any count, duration and number of workers. |
| EqualBlocks.FilledSpan | scripts/benchmark_tail_fill_scheduler.py:23-26 | Equal long jobs merged with equal short ones, of which k make a long one: the time in closed form for any counts and workers; the idle part of the last long round is used up before a further round begins. |
| EqualBlocks.RunBelow | scripts/benchmark_tail_fill_scheduler.py:14-16 | As long as jobs end no later than the late workers become free, only the early workers run. |
| TailFill.JobEndsBySpan | scripts/benchmark_tail_fill_scheduler.py:14-17 | Every job has ended when the schedule ends. |
| ListScheduling.RunConcat | scripts/benchmark_tail_fill_scheduler.py:27 | Scheduling a merged list is scheduling the second block on the slots the first one leaves. |
| ListScheduling.RunMonotone | scripts/benchmark_tail_fill_scheduler.py:14-16 | Slot-by-slot dominance survives a whole run, for earlier slots and shorter jobs. |
| ListScheduling.RunShift | scripts/benchmark_tail_fill_scheduler.py:14-16 | Delaying all workers alike shifts the whole schedule. |
| ListScheduling.TailFillNeverWorse | scripts/benchmark_tail_fill_scheduler.py:25-28 | For all blocks and worker counts the merged span is at most the sum of the two spans. |
| ListScheduling.TailFillNoFreeLunch | scripts/benchmark_tail_fill_scheduler.py:25-28 | The merged span is at least the span of either block alone. |
| ListScheduling.ExtraWorkerAhead | scripts/benchmark_tail_fill_scheduler.py:11-17 | With one more worker, the slots without the earliest one still dominate those of the smaller pool, after any jobs. |
| ListScheduling.MoreWorkersNeverHurt | scripts/benchmark_tail_fill_scheduler.py:11-17 | With more workers no job starts later and the span does not grow. |
| ListScheduling.NoAnomalies | scripts/benchmark_tail_fill_scheduler.py:11-17 | More workers and shorter jobs together delay no job's start and never lengthen the span. |
| GrahamBound.RunSum | scripts/benchmark_tail_fill_scheduler.py:14-16 | The slots add up to the work scheduled. |
| GrahamBound.StartAtMostMean | scripts/benchmark_tail_fill_scheduler.py:14-16 | A job starts no later than the mean of the work before it. |
| GrahamBound.LastToEnd | scripts/benchmark_tail_fill_scheduler.py:14-17 | Some job ends exactly at the span. |
| GrahamBound.Graham | scripts/benchmark_tail_fill_scheduler.py:11-17 | m times the span is at most 2m-1 times the largest load of any assignment of the jobs to m workers. |
| GrahamBound.GreedySpanIsAchieved | scripts/benchmark_tail_fill_scheduler.py:11-17 | The span is itself the largest load of an assignment, so it is never below the optimum. |
| GrahamBound.GrahamIsTight | scripts/benchmark_tail_fill_scheduler.py:11-17 | For every m there are jobs that an assignment finishes in m while the loop needs 2m-1. |
| BlockPacking.BestTarget | src/fidb_poc/batch_time_model.py:119-125 | Nothing is chosen exactly when no block has room; otherwise the first among the fitting blocks closest to the target. |
| BlockPacking.BestTargetIff | src/fidb_poc/batch_time_model.py:119-125 | Closest, without naming a distance: no other block with room would come to lie strictly between the chosen one's new total and its mirror image at the target, and one that comes to either of the two is listed later. |
| BlockPacking.LargestFirst | src/fidb_poc/batch_time_model.py:110-118 | The first item placed is the longest, by rank among equals, so an oversized item is met before anything is placed. |
| BlockPacking.PackBlocks | src/fidb_poc/batch_time_model.py:103-131 | The loop fails exactly when an item exceeds the ceiling, naming the longest item, by rank among equals; otherwise its blocks arise from placing the items longest first, by rank among equals, one after the other: each joins the block with room that comes closest to the target, the first of equally close ones, or opens a block if none has room. |
| FirstFit.ChoiceIsFirstFitIff | src/fidb_poc/batch_time_model.py:106-125 | The block chosen is the first with room exactly when no later block with room comes closer to the target. |
| FirstFit.ChoiceIsFullest | src/fidb_poc/batch_time_model.py:119-125 | Where no block with room would exceed the target, and so for any target at or above the ceiling, the choice is the fullest block with room, the first of equals. |
| FirstFit.PackingsAgreeIff | src/fidb_poc/batch_time_model.py:103-131 | For different items, the packing is that of first fit decreasing exactly when, at every item, no later block with room comes closer to the target than the first. |
| FirstFit.NotFirstFit | src/fidb_poc/batch_time_model.py:103-131 | Items of 6, 5 and 3 hours with target 8 and ceiling 10 are packed differently from first fit decreasing. |
| PackingBounds.PlaceAllInvariant | src/fidb_poc/batch_time_model.py:110-130 | Every placement keeps the items, the ceiling, non-empty blocks, and that each block was opened by an item that fits no earlier block even among the items at least as long. |
| PackingBounds.PackInvariant | src/fidb_poc/batch_time_model.py:103-131 | The same for the whole packing: exactly the given items, no block above the ceiling. |
| PackingBounds.NoTwoBlocksMerge | src/fidb_poc/batch_time_model.py:119-130 | No two blocks of the result fit into one. |
| PackingBounds.BlockTotalsConserved | src/fidb_poc/batch_time_model.py:366-386 | Any per-item figure (hours, executions, Android executions) totals the same over the blocks as over the items. |
| PackingBounds.CrowdedTakesTwoSlots | src/fidb_poc/batch_time_model.py:119-130 | A block with no room for y is charged two slots, with one slot room for y remains. |
| PackingBounds.FeasibleTakesTwoSlots | src/fidb_poc/batch_time_model.py:119-130 | If three y exceed the ceiling, a block within the ceiling is charged at most two slots. |
| PackingBounds.OptimalForLongItems | src/fidb_poc/batch_time_model.py:103-131 | When the item that opened the last block exceeds a third of the ceiling, no packing has fewer blocks. |
| PackingBounds.ShortOpenersFillBlocks | src/fidb_poc/batch_time_model.py:103-131 | Otherwise all blocks but the last are fewer than one and a half times any packing's. |
| PackingBounds.AtMostHalfAgain | src/fidb_poc/batch_time_model.py:103-131 | Twice the number of blocks is at most three times that of any packing, plus one; from two blocks on it is less than twice any packing's. |
| RouteBundles.SplitRoutes | src/fidb_poc/auto_batch_builder.py:67-123 | The loop fails exactly when some item does not split, with the error of the first such item by rank and source, and says why; otherwise the items are split in that order, and each one's bundles are, in listed order and with everything else taken from item, library and authority, one for every listed route that applies to the one library of its id and version. |
| RouteBundles.SplitIff | src/fidb_poc/auto_batch_builder.py:88-122 | Exactly what an item is split into, by its authority's libraries, routes and treatments. |
| RouteBundles.BundledIff | src/fidb_poc/auto_batch_builder.py:97-98 | A route has a bundle exactly when the authority lists it and the library applies to it. |
| RouteBundles.SplitTotals | src/fidb_poc/auto_batch_builder.py:101-122 | The bundles of an item carry exactly its hours and executions. |
| RouteBundles.SplitAllTotals | src/fidb_poc/auto_batch_builder.py:79-123 | The same for a whole plan. |
| RoutePacking.PackRouteBundles | src/fidb_poc/auto_batch_builder.py:126-156 | Fails exactly when a bundle exceeds the maximum, with the first one; otherwise the chunks are non-empty, within the maximum, concatenate to the input, never reach the target before their end, and end only when full or when the next bundle does not fit. |
| RoutePacking.GreedyIsUnique | src/fidb_poc/auto_batch_builder.py:126-156 | That contract leaves one outcome: any two such partitions are equal. |
| RoutePacking.StaysAhead | src/fidb_poc/auto_batch_builder.py:138-153 | After every chunk the packer has consumed every bundle that takes time among those that any order-preserving partition within the target has consumed. |
| RoutePacking.FewestChunks | src/fidb_poc/auto_batch_builder.py:126-156 | Whatever the bundles' hours, there is at most one chunk more than in any order-preserving partition within a positive target, and that one only if the last chunk takes no time. |
| RoutePacking.FewestIfLastTakesTime | src/fidb_poc/auto_batch_builder.py:126-156 | If the last bundle takes time, there are no more chunks than in any order-preserving partition within the target. |
| RoutePacking.FewestIff | src/fidb_poc/auto_batch_builder.py:126-156 | If target and maximum, tolerance included, are the same, or no chunk exceeds the target: the chunks are the fewest possible exactly when there is at most one or the last one takes time. |
| RoutePacking.IdleBundleCostsAChunk | src/fidb_poc/auto_batch_builder.py:149-153 | The smallest lists that miss the condition: behind a bundle that fills a chunk, a last one of no duration costs a chunk that another partition saves. |
| Grouping.GroupRows | src/fidb_poc/batch_materializer.py:257-270 | The insertion-ordered dictionary loop yields one group per key in order of first appearance, with the key's values in row order. |
| Grouping.FirstAppearancesDistinct | src/fidb_poc/auto_batch_builder.py:162-181 | Group keys are unique and are exactly the keys that occur. |
| Grouping.FirstAppearancesInOrder | src/fidb_poc/auto_batch_builder.py:162-181 | A group listed earlier has appeared before every row of a group listed later. |
| Grouping.GroupsConserveRows | src/fidb_poc/auto_batch_builder.py:165-181 | The groups hold every row, as often as it was given. |
| ChunkPlans.MatrixGroups | src/fidb_poc/auto_batch_builder.py:159-181 | A chunk's matrices are its bundles grouped by batch, recipe and treatments: every bundle in one of them, routes in bundle order, matrices in the order in which their keys appear. |
| ChunkPlans.MatrixCellsAre | src/fidb_poc/plan_request.py:783-812 | The cells of a matrix are its routes, each with each of its treatments. |
| ChunkPlans.ItemCellsAre | src/fidb_poc/auto_batch_builder.py:88-100 | The cells of an item are the listed routes that its library applies to, each with each listed treatment. |
| ChunkPlans.SplitAllCells | src/fidb_poc/auto_batch_builder.py:79-123 | Splitting keeps the build cells of the plan, in order. |
| ChunkPlans.MatricesKeepCells | src/fidb_poc/auto_batch_builder.py:159-181 | Routes times treatments of a chunk's matrices are exactly the cells of its bundles, each as often. |
| ChunkPlans.PlansConserve | src/fidb_poc/auto_batch_builder.py:506-524 | Splitting, packing and regrouping keep the multiset of cells, the hours and the executions. |
| ChunkPlans.CompileChunks | src/fidb_poc/auto_batch_builder.py:480-524 | The whole pipeline: its plans are those of the greedy chunks of all bundles, numbered from 1, within the maximum, each with the hours and the matrices of its bundles; each expects as many executions as it has cells; together they hold exactly the plan's cells, hours and executions. |
| ChunkPlans.PlanHasFewestChunks | src/fidb_poc/auto_batch_builder.py:480-500 | If every item without duration comes, in queue order, before one that takes time, no order-preserving partition of the plan's bundles within the target has fewer chunks. |
| Decimals.PaddedValue | src/fidb_poc/auto_batch_builder.py:507 | A zero-padded number denotes the number, however many digits it has. |
| Decimals.PaddedIff | src/fidb_poc/auto_batch_builder.py:507 | The padded numeral is the only one that denotes the number with at least so many digits and no needless leading zero. |
| QueuePartition.PrefixesAreFree | src/fidb_poc/auto_batch_builder.py:552-555 | A name begins with at most one matrix prefix of a campaign, for any number of chunks and matrices. |
| QueuePartition.OneOwner | src/fidb_poc/auto_batch_builder.py:556-558 | No name belongs to two chunks. |
| QueuePartition.InChunkIff | src/fidb_poc/auto_batch_builder.py:552-558 | A chunk owns exactly the names that begin with the campaign, its own number in three digits or more, and the number of one of its matrices in two digits or more. |
| QueuePartition.ClaimedAll | src/fidb_poc/auto_batch_builder.py:580-581 | The final count check holds exactly when all base cells are distinct and each is owned by some chunk. |
| QueuePartition.MatchQueue | src/fidb_poc/auto_batch_builder.py:549-581 | The checks succeed exactly when every chunk has as many rows to its name as it expects, the total is right, no name repeats and every name belongs to a chunk; each chunk's rows are then those, in queue order, renumbered from 1; and for each error exactly when it is raised, the duplicate-cells error never. |
| QueuePartition.EveryRowInOneChunk | src/fidb_poc/auto_batch_builder.py:549-581 | After success every queue row belongs to exactly one chunk. |
| ResolvedQueue.PlansCoverExecutions | src/fidb_poc/auto_batch_builder.py:574-579 | The plans expect as many executions as the items have, so the total is never wrong against the plan's own. |
| ResolvedQueue.CellNamesApart | src/fidb_poc/plan_request.py:811 | Library, route and treatment name the cells of a recipe apart if no route has a colon in its id. |
| ResolvedQueue.PlanNamesDistinct | src/fidb_poc/auto_batch_builder.py:549-572 | No two planned cells share a name, over all chunks and matrices. |
| ResolvedQueue.ResolvedQueuePasses | src/fidb_poc/auto_batch_builder.py:506-581 | A queue that holds every planned cell once, in any order, each named by the prefix of its matrix, its library, route and treatment, passes all checks. |
| WidthAxes.RectangularIffSwapClosed | src/fidb_poc/batch_materializer.py:77-101 | The rectangularity check accepts exactly the non-empty sets of listed pairs closed under swapping treatments between routes. |
| WidthAxes.AxesAcceptedIff | src/fidb_poc/batch_materializer.py:65-107 | Exactly when a width's axes are accepted, availability and execution count included. |
| WidthAxes.OutcomeIff | src/fidb_poc/batch_materializer.py:65-107 | The outcome by the rows alone: unavailable rows, all of whose routes are named, come before everything else, then the shape of the executable rows, then their number against the executions. |
| WidthAxes.AcceptedAxesRun | src/fidb_poc/batch_materializer.py:77-91 | Accepted axes are the listed routes and treatments of executable rows, in listed order, and hold a route and a treatment together exactly when a row says that it is executable. |
| WidthAxes.AxesEnumeratePairs | src/fidb_poc/batch_materializer.py:80-108 | With distinct listed ids, routes times treatments enumerates every selected pair once, by the authority's order of routes and then of treatments, and their number is the executions of one library. |
| WidthAxes.AxesKeepOrder | src/fidb_poc/batch_materializer.py:80-91 | The axes are order-preserving subsequences of the authority's lists. |
| LaneCompaction.KeyIsAnOrder | scripts/deduplicate_lane_db.py:133 | ORDER BY the eight signature columns is a total order. |
| LaneCompaction.KeysAreDistinct | scripts/deduplicate_lane_db.py:130-133 | The signature table holds no key twice, and only keys of observations. |
| LaneCompaction.SignaturesAscend | scripts/deduplicate_lane_db.py:130-133 | Signatures are numbered from 1 in the order of the eight columns, the first one that differs deciding; they hold each key of an observation once and no other. |
| LaneCompaction.JoinsOnce | scripts/deduplicate_lane_db.py:135-154 | The join finds exactly one signature for every observation, the one with its key. |
| LaneCompaction.TablesAre | scripts/deduplicate_lane_db.py:135-168 | Occurrences are the observations by id, each with its build, path, name and the number of its signature; relationships are copied by id; every signature has one unreviewed admission. |
| LaneCompaction.CompactionIsLossless | scripts/deduplicate_lane_db.py:122-169 | Joining occurrences to signatures by id rebuilds the raw observations in id order; relationships keep ids and endpoints; there is one occurrence per observation. |
| LaneChecks.CompactionPasses | scripts/deduplicate_lane_db.py:320-342 | Both verification queries succeed on the algorithm's output. |
| LaneChecks.RawSchemaIs | src/fidb_poc/lane_database.py:107-128 | What the raw schema asks of observations and relationships, column by column. |
| LaneChecks.CompactSchemaIs | scripts/deduplicate_lane_db.py:69-109 | What the compact schema asks of its tables, column by column. |
| LaneChecks.CompactionKeepsConstraints | scripts/deduplicate_lane_db.py:69-109 | The output meets every primary, unique and foreign key and every CHECK of the compact schema exactly when the raw tables meet those of theirs; occurrence ids are exactly the observation ids. |
| LaneChecks.LosslessIffVerifiedAndProvenance | scripts/deduplicate_lane_db.py:320-342 | For any tables that meet the schema: they rebuild the raw observations exactly when both queries pass and every occurrence keeps its build, path and function name. |
| LaneChecks.RenamingPasses | scripts/deduplicate_lane_db.py:327-342 | Renaming one function in tables that pass yields tables that pass and are not lossless. |
| LaneChecks.PreviewAgrees | scripts/deduplicate_lane_db.py:211-252 | The preview's counts are the sizes of the tables that the compaction builds. |
| LaneChecks.PreviewIs | scripts/deduplicate_lane_db.py:211-252 | The preview counts the rows, the different keys among them and the rows that repeat one; it is refused exactly without just one generation. |
| LaneChecks.LookupsAgree | scripts/deduplicate_lane_db.py:111-115 | A lookup by any condition on the signature columns and the build returns the same occurrences from the compact tables as from the raw table. |
| LaneChecks.RowOrderDoesNotMatter | scripts/deduplicate_lane_db.py:130-168 | Permuting the raw rows yields the same compact tables, ids included. |
| LaneChecks.SameTablesIffSameRows | scripts/deduplicate_lane_db.py:130-168 | Two raw tables compact to the same tables exactly when they hold the same rows. |
| Publication.StepKeepsInvariant | scripts/deduplicate_lane_db.py:278-365 | Every step of any publisher, every failure and every outside event keeps the protocol's invariant. |
| Publication.RunKeepsInvariant | scripts/deduplicate_lane_db.py:278-365 | The invariant holds in every reachable state, for any number of publishers. |
| Publication.OutputNeverReplaced | scripts/deduplicate_lane_db.py:354-359 | An existing output stays what it is over any run. |
| Publication.NobodyPublishesOverExisting | scripts/deduplicate_lane_db.py:278-279 | If the output exists at the start, no publisher publishes. |
| Publication.NobodyBuildsOverExisting | scripts/deduplicate_lane_db.py:278-289 | Nor does any publisher then begin a file. |
| Publication.PublishedIsSound | scripts/deduplicate_lane_db.py:320-356 | What is published meets the schema, holds as many occurrences as its recorded preview announces, is frozen and intact, and records the digest taken first. |
| Publication.TemporaryLeftIffCleanupFailed | scripts/deduplicate_lane_db.py:286-289 | A finished publisher leaves its temporary file exactly when its closing of the new file or its own cleanup failed. |
| Publication.FailedYetPublishedIff | scripts/deduplicate_lane_db.py:354-365 | A publisher that raises has nevertheless published exactly when it failed after its link, in removing the temporary name or inspecting the output. |
| PublicationHistory.MomentsInOrder | scripts/deduplicate_lane_db.py:282-365 | A publisher comes through its stages in order, and through each at most once. |
| PublicationHistory.PublishedHistory | scripts/deduplicate_lane_db.py:282-356 | Whoever publishes took the digest, previewed, compacted, verified, found the same digest and linked, in this order; the output is what was read at these moments: both digests, the preview, the compaction of the source as it then was, which passes both queries against the source at the verification, and the linked file itself. |
| PublicationHistory.RecordedTablesIff | scripts/deduplicate_lane_db.py:282-353 | The published tables rebuild the observations the source held when it was compacted; they are those of the source that the file records exactly when the source held the same rows then as at the first digest. |
| PublicationHistory.PublishedFromRecordedSource | scripts/deduplicate_lane_db.py:282-353 | If the source does not return to an earlier state between the two digests, the published tables are those of the recorded source and rebuild its observations. |
| PublicationHistory.RecordedCounts | scripts/deduplicate_lane_db.py:303-326 | The recorded number of observations is that of the tables; the recorded number of signatures is so exactly when the source held as many distinct ones at the preview as when compacted. |
| PublicationHistory.AtMostOneSucceeds | scripts/deduplicate_lane_db.py:354-365 | At most one publisher succeeds, and the output is the file that it linked. |
| PublicationHistory.LeftAlone | scripts/deduplicate_lane_db.py:278-365 | A publisher that nothing disturbs succeeds exactly when there is no output yet, one generation, and rows that meet the schema; the output is then the compaction of its source, and otherwise unchanged; no temporary file is left. |
| PublicationHistory.DigestCheckMissesReversion | scripts/deduplicate_lane_db.py:352-353 | A publisher left alone with a source that meets its schema succeeds; if the source is any other one between the two digests, the same run publishes that one's tables under the recorded digest. |
| PublicationHistory.ThereAndBackSucceeds | scripts/deduplicate_lane_db.py:278-365 | A lone publisher whose source is one at the preview and another, equally large, while it compacts succeeds, with the counts of the one beside the tables of the other under the digest of the original. |
| PublicationHistory.NoCheckOfTheSignatureCount | scripts/deduplicate_lane_db.py:303-342 | A publisher whose source is another, equally large one at the preview only succeeds with the original's tables beside the other's counts; the recorded number of signatures is right exactly when both hold as many distinct ones. |
| PublicationHistory.SignatureCountCanBeWrong | scripts/deduplicate_lane_db.py:211-252 | Such a pair of sources, with two distinct signatures against one. |
| SignatureStream.StreamRecords | src/fidb_poc/backend_benchmark.py:117-132 | The loop feeds the digest the sorted records, each behind its length, and counts them; it fails exactly when a record is 2^64 bytes or longer, with such a record. |
| SignatureStream.RecordsAscend | src/fidb_poc/backend_benchmark.py:128 | The records are fed in the order of their characters: a prefix first, otherwise by the first character that differs. |
| SignatureStream.FrameBytes | src/fidb_poc/backend_benchmark.py:129-131 | A record's length stands in eight bytes before it, the most significant one first. |
| SignatureStream.FramesUnique | src/fidb_poc/backend_benchmark.py:128-131 | The length-prefixed stream determines the list of records. |
| SignatureStream.StreamIffSameRecords | src/fidb_poc/backend_benchmark.py:117-132 | Two ledgers feed the same stream exactly when they hold the same multiset of records. |
| CellPayload.PayloadUnique | src/fidb_poc/backend_benchmark.py:162-164 | The JSON text that is digested determines the cells, field by field. |
| PayloadReader.PayloadReads | src/fidb_poc/backend_benchmark.py:162-163 | Read as JSON, the text is an array of the cells in order, each of the eight fields under its own name. |
| BackendComparison.CompareRuns | src/fidb_poc/backend_benchmark.py:186-269 | The whole comparison: authority match, number of distinct keys, mismatches, artifact mismatches and differences in key order, and both digests' texts; the runs match semantically exactly when their authorities do and the last cells under every key mean the same. |
| BackendComparison.ReportedIff | src/fidb_poc/backend_benchmark.py:204-245 | Exactly what each report holds: a missing cell if one run only holds the key, a field with both values if both hold the key and it differs. |
| BackendComparison.ArtifactReportedIff | src/fidb_poc/backend_benchmark.py:218-225 | A key is reported for its artifact exactly when both runs hold it with different artifacts. |
| BackendComparison.ReportedFields | src/fidb_poc/backend_benchmark.py:186-245 | For each of the nine fields, exactly when and with which values it is reported of the last cells under a key. |
| BackendComparison.ReportedOtherwise | src/fidb_poc/backend_benchmark.py:204-245 | Exactly which missing cells are reported; which fields each report can hold, and that it holds them of keys in both runs only. |
| BackendComparison.LookupIff | src/fidb_poc/backend_benchmark.py:180-185 | Of several cells under one key the last one counts. |
| BackendComparison.SameLastIff | src/fidb_poc/backend_benchmark.py:186-235 | When the last cells of both runs mean the same, field by field. |
| BackendComparison.ReportsInOrder | src/fidb_poc/backend_benchmark.py:204-245 | Each report lists every entry once, by key and within a key by field. |
| BackendComparison.ReportedByKey | src/fidb_poc/backend_benchmark.py:204 | Each report is ordered by route and, within a route, by treatment. |
| BackendComparison.CanonicalOrder | src/fidb_poc/backend_benchmark.py:148 | A run is digested by route and treatment, cells of one key as they were listed. |
| BackendComparison.NoMismatchesIffAgree | src/fidb_poc/backend_benchmark.py:203-228 | Nothing is reported exactly when, under every key, the last cells of both runs mean the same. |
| Sorting.SortStable | src/fidb_poc/backend_benchmark.py:148 | Sorting keeps elements that tie in the order in which they were given. |
| BackendDigests.DigestsAgreeIff | src/fidb_poc/backend_benchmark.py:148-164 | For all runs, the digests are taken of the same text exactly when, under every key, both runs list the same meanings in the same order. |
| BackendDigests.DigestReadsBack | src/fidb_poc/backend_benchmark.py:148-164 | The text that a run is digested as reads back as its cells in that order, with every field under its own name. |
| BackendDigests.EqualDigestsNoMismatches | src/fidb_poc/backend_benchmark.py:148-235 | For all runs, equal digests leave nothing to report. |
| BackendDigests.MissedByTheReport | src/fidb_poc/backend_benchmark.py:180-235 | Nothing is reported although the digests differ exactly when the last versions agree under every key and an earlier one differs under some key. |
| BackendDigests.DiffAndDigestAgree | src/fidb_poc/backend_benchmark.py:148-235 | With unique keys in the reference, the digests are equal exactly when nothing is reported and the candidate has as many cells. |
| BackendDigests.UniqueRunsAgree | src/fidb_poc/backend_benchmark.py:148-235 | With unique keys in both runs, nothing is reported exactly when the digests are equal. |
| BackendDigests.RepeatedCellsEscapeTheDiff | src/fidb_poc/backend_benchmark.py:180-185 | A cell listed twice changes the digest and is not reported. |
| EventWindow.SortIsLatest | control-panel/app/use-factory-api.ts:154-157 | Merging a page in the insertion-ordered map and sorting by id keeps the latest version of every id. |
| EventWindow.MergeRefinesWindow | control-panel/app/use-factory-api.ts:153-159 | Merging a page into the window of what was fetched gives the window of everything fetched; a window is strictly increasing in id and holds at most 500 entries. |
| EventWindow.WindowContents | control-panel/app/use-factory-api.ts:153-159 | The window holds exactly the last versions of all fetched ids, without the oldest beyond 500. |
| EventFeed.Feed.constructor | control-panel/app/use-factory-api.ts:96-97 | A feed starts with cursor 0 and no history. |
| EventFeed.Feed.Reset | control-panel/app/use-factory-api.ts:123-127 | A reset empties cursor, history and what is shown. |
| EventFeed.Feed.Refresh | control-panel/app/use-factory-api.ts:129-169 | The history is the window of everything fetched since it was last emptied; a failed refresh changes nothing; an empty history or a cursor above the last id starts over 500 ids before it; the cursor and the events read are those of draining at most four pages; the cursor falls only on a reset or when starting over. |
| EventFeed.ReadingIff | control-panel/app/use-factory-api.ts:144-164 | Draining four pages succeeds exactly when the answers to one cursor after the other can be read that far, and yields what they hold. |
| EventFeed.HistoryIsNewest | control-panel/app/use-factory-api.ts:153-159 | A feed shows the last version of every id fetched, oldest first, without the oldest beyond 500. |
| EventFeed.PageIs | src/fidb_poc/local_api.py:268-300 | A page holds the oldest 200 events behind the cursor, or all, and says whether there are more. |
| EventFeed.FaithfulStep | src/fidb_poc/local_api.py:268-300 | A page continues right behind the cursor, however the ledger has grown since the snapshot; if it says that no more is pending, it reaches the snapshot's last id. |
| EventFeed.DrainReadsOn | control-panel/app/use-factory-api.ts:145-164 | Against a coordinator that goes on appending, a refresh succeeds; it reads a prefix of what is pending and ends right behind it; unless all pages are used it has reached the snapshot's last id, and it reads no page more than that takes. |
| EventFeed.DrainCatchesUpIff | control-panel/app/use-factory-api.ts:145-164 | A refresh reads every pending event up to the snapshot's last id exactly when the first one beyond its page budget, if any, is newer. |
| EventFeed.StartingOverCatchesUp | control-panel/app/use-factory-api.ts:141-164 | Starting over reaches the snapshot's last id in one refresh of at most three pages, with every ledger event among the 500 ids up to it. |
| EventFeed.StartingOverIsCompleteIff | control-panel/app/use-factory-api.ts:141-164 | Starting over leaves the newest 500 events of the whole ledger up to the cursor exactly when it reads at least 500, or when every event of the ledger has an id above the one it starts behind. |
| EventFeed.RefreshLeavesNoGap | control-panel/app/use-factory-api.ts:135-168 | Every refresh keeps it that what was fetched is one stretch of the ledger up to the cursor, without gap or repetition, and that the history is the newest part of it. |
| EventFeed.HistoryIsNewestIff | control-panel/app/use-factory-api.ts:153-164 | The same for whatever stretch of the ledger was fetched over any number of refreshes. |
| JsonText.StringRoundTrip | src/fidb_poc/auto_batch_builder.py:49-50 | A printed string literal reads back, and reading stops behind it; only TOML's refusal of U+007F gets in the way. |
| JsonText.PrintedAs | src/fidb_poc/auto_batch_builder.py:49-50 | How each character of a string is printed, in TOML and in the digested JSON. |
| TomlPrinter.RenderableValue | src/fidb_poc/auto_batch_builder.py:42-53 | Rendering raises exactly for values that contain an unsupported type or a number that is not finite. |
| TomlPrinter.OneItemMore | src/fidb_poc/auto_batch_builder.py:51-52 | Items of a list are printed in order with a comma and a blank between them. |
| TomlPrinter.NumberRoundTrip | src/fidb_poc/auto_batch_builder.py:45-48 | A printed integer or float reads back, and reading stops behind it. |
| TomlPrinter.ValueRoundTrip | src/fidb_poc/auto_batch_builder.py:42-53 | Inside any text, a rendered value reads back as itself, or not at all if it holds U+007F. |
| TomlPrinter.RoundTripIffNoDelete | src/fidb_poc/auto_batch_builder.py:42-53 | A rendered value reads back exactly when it holds no U+007F. |
| MesonPrinter.EscapeFirst | src/fidb_poc/adapters.py:203 | The two replacements together escape character by character. |
| MesonPrinter.OneStringMore | src/fidb_poc/adapters.py:204 | Strings are printed in order, in single quotes, with a comma and a blank between them. |
| MesonPrinter.MesonRoundTrip | src/fidb_poc/adapters.py:202-204 | Every list of strings reads back as printed. |
| MesonPrinter.QuotesFirstReadsIffNoQuote | src/fidb_poc/adapters.py:203 | With the replacements in the other order, a string reads back exactly when it holds no quote. |
| JvmPolicy.HeapSpelling | src/fidb_poc/jvm_policy.py:14-30 | Which options are heap sizes, and how many bytes each stands for: digits without a leading zero, and a letter of a unit or none. |
| JvmPolicy.HeapMibIffBytes | src/fidb_poc/jvm_policy.py:17-30 | A heap option equals a number of MiB exactly when it stands for as many bytes, in any allowed unit; it is refused exactly when they make no whole MiB. |
| JvmPolicy.TokenKinds | src/fidb_poc/jvm_policy.py:50-78 | Which tokens count as heaps and which, under two names, as core limits. |
| JvmPolicy.CoreSpelling | src/fidb_poc/jvm_policy.py:84-90 | A core limit says the integer behind either name. |
| JvmPolicy.IntSpelling | src/fidb_poc/jvm_policy.py:86 | Which texts are integers, and which integer: blanks at the ends, a sign or none, and digits with single underscores between them. |
| JvmPolicy.BoundTokens | src/fidb_poc/jvm_policy.py:50-99 | Succeeds exactly when both bounds are accepted, with the inherited tokens in order and the missing bounds behind them; and for each error exactly when it is raised and what it reports. |
| JvmPolicy.JavaOptions | src/fidb_poc/jvm_policy.py:47-100 | The same from text to text, errors included: the inherited text is stripped and split as a shell does, the options are joined with blanks. |
| JvmPolicy.HeapTokenDenotes | src/fidb_poc/jvm_policy.py:71 | The added heap token stands for the requested MiB. |
| JvmPolicy.CoreTokenDenotes | src/fidb_poc/jvm_policy.py:99 | The added core limit reads back as the requested limit. |
| JvmPolicy.OptionsAreAFixedPoint | src/fidb_poc/jvm_policy.py:47-100 | The options are accepted again under the same bounds with nothing added, and exactly one token carries each requested bound. |
| ShellWords.JoinSplitIff | src/fidb_poc/jvm_policy.py:49-100 | Words joined with blanks split into the same words exactly when each is non-empty and free of blanks, quotes and backslashes. |
| ShellGrammar.LineSplits | src/fidb_poc/jvm_policy.py:49 | Every line written by the rules of bare, escaped, singly and doubly quoted parts splits into the words that it means. |
| ShellGrammar.OpenLineRefused | src/fidb_poc/jvm_policy.py:49 | A quote that is not closed and a backslash at the very end are refused, each with its own error. |
| ShellWords.ReadsBackIff | src/fidb_poc/jvm_policy.py:48-100 | With the ends stripped first: exactly when, in addition, no character that is stripped stands at either end. |
| ShellWords.RejoinsIff | src/fidb_poc/jvm_policy.py:48-100 | Text is the words read in it, joined, exactly when it has no quoting, nothing to strip, and single blanks between words. |
| ShellWords.StripBetween | src/fidb_poc/jvm_policy.py:48 | Stripping removes exactly the characters to be stripped at either end. |
| ShellWords.StrippedAre | src/fidb_poc/jvm_policy.py:48 | Which characters are stripped, by code point. |
| JvmPolicy.OptionsReadBackIff | src/fidb_poc/jvm_policy.py:47-100 | For any inherited text that is accepted: the printed options read back as the same options exactly when they survive being printed, and applying the bounds to the options again prints the same text. |
| JvmPolicy.PrintsItselfIff | src/fidb_poc/jvm_policy.py:47-100 | Exactly which texts, the policy's own output among them, are printed unchanged: those without quoting and loose blanks whose words are accepted with nothing to add. |
| JvmPolicy.OptionsSurviveIff | src/fidb_poc/jvm_policy.py:47-100 | Which options survive, by the inherited tokens alone. |
| JvmPolicy.UnquotedOptionsSurvive | src/fidb_poc/jvm_policy.py:48-49 | Text without quotes and backslashes always leads to options that survive. |
| JvmPolicy.QuotedOptionSetsAHeap | src/fidb_poc/jvm_policy.py:49-100 | A concrete quoted option that is printed as two, of which the second sets a heap. |

## Left out

- Floating-point rounding, `round(…, 6)` and the display forms of hours: hours are reals.
- The internals of heapq, SHA-256, SQLite, the JSON and TOML parsers and the file system. `TailFill.SlotHeap` searches for its earliest slot; only the order of removal is promised, not heapq's layout.
- Stable `sorted` and SQL's ORDER BY are an insertion sort on values.
- TailFill.Compare: the rounding of the improvement to two decimals is not modelled.
- TailFill.Benchmark: the other fields of the printed document are constants and are not modelled.
- BlockPacking.PackBlocks: blocks are reassigned sequence values, so appending in place to a shared inner list is not modelled.
- The estimation of a work item's hours, executions and uncertainty interval from evidence and performance profiles.
- Loading of width authorities, recipes and batches: they are a parameter of `RouteBundles.SplitRoutes`. Label fields are dropped.
- Qualification gates, rendered plan files, their digests and the manifest line format; of how the rendered plan resolves into queue rows, only the names of the rows are.
- `_queue_identity` copies rows and raises for a blocked one; it would only add an easy member.
- WidthAxes.AxesAcceptedIff: the width, the treatments and the execution count are parameters; the coordinator's resolution of a width is not modelled.
- The copied dimension tables, the rationale column of admissions, of the generation row all but the digest and the preview's counts, and the triggers of `freeze` and the integrity check beyond a flag in `Publication`.
- PublicationHistory.PublishedHistory: the source is read at one moment in each stage; that the statements of one compaction could see different states of a file that is written meanwhile is not modelled.
- Publication.TemporaryLeftIffCleanupFailed: a killed process, a crash of the machine and other processes that remove or rename the temporary file are not modelled.
- SignatureStream.StreamRecords: reading JSON lines and re-serialising them is not modelled; records are the canonical ASCII texts.
- BackendComparison.CompareRuns: the paths and schema labels of the result; authority values are compared as texts.
- EventFeed.Feed.Refresh: requests are answered by a function of the cursor, no cursor being asked for twice in one refresh, and refreshes do not overlap. React state, the other panels and polling are left out.
- TomlPrinter.RoundTripIffNoDelete: a float is its printed decimal form, so the conversion from binary is not modelled; the reader knows no comments, no underscores in numbers and no dates.
- MesonPrinter.MesonRoundTrip: the reader refuses numeric and named escapes, and Meson's warning about raw newlines is not modelled.
- JvmPolicy.BoundTokens: digits outside ASCII in a core limit, and the interpreter's refusal of numerals of more than 4300 digits, are not modelled.
- Leases, the coordinator ledger, schedule windows and retention.
