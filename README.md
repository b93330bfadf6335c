# TupleBPS planning and post-processing, modelled in Dafny

InfiniDB's batch-primitive step (`TupleBPS`) plans and post-processes a
column scan. Its work falls into the parts below, and each part has a module
here.

- **Extent bookkeeping.** It sorts the scanned column's extents, keeps one
  "last usable extent" marker and one last LBID per DB root, and relabels
  single-extent segment files whose HWM is 0. It also checks that every
  column has the same number of extents, and maps an LBID or row id back to
  an extent index. Modules `Extents` and `TupleBpsStep`.
- **Casual-partition (CP) pruning.** Per-extent scan flags are combined by
  AND from three sources: the column filters' cached ranges, runtime
  predicates fed back from joins, and the rule that system-catalog columns
  are always scanned. Module `Pruning`.
- **Job construction.** It chooses the extents to scan, counts their LBIDs
  and logical blocks, and splits them into jobs of at least 16 blocks
  (`Jobs`). It then deals the jobs out round-robin over the connections
  (`Interleave`).
- **Row-batch helpers.** These cover the second function-expression filter
  over returned row groups, with its 8192-row batches, and the cross
  product that builds joined rows (`RowBatches`). They also cover the
  per-row combine of the small-side join results (`JoinCombine`) and the
  copying of duplicate output columns.
- **Life cycle.** `run` runs once. Its extent-count retry loop is modelled
  as written, off-by-one included (see Findings below). The evidently
  intended loop is kept beside it as a reference, and the two are proved to
  differ only when the loop reaches its last permitted reload (`Lifecycle`,
  `TupleBpsStep`). `join` also runs once, and `abort` is covered too.
- **Job-step base types.** From `jobstep.h`: the positional-insert output
  list, `ErrorInfo`, the status/cancel/abort state and the delayed-run
  counter (`JobSteps`).

Parts that change state in place are classes whose methods carry
`modifies` clauses:

- `TupleBpsStep.TupleBps` holds the step's member vectors and flags.
- `JobSteps.JobStep`, `JobSteps.ErrorInfo` and
  `JobSteps.JobStepAssociation` are the job-step base types.

Each method is proved against a specification function. The properties are
proved about those functions.

Several things come from code that is not part of this model, so they are
function-typed parameters:

- the `LBIDList` range tests (`CasualPartitionPredicate`,
  `checkRangeOverlap`, `checkSingleValue`, `GetMinMax`);
- the function-expression `evaluate`;
- the joiner's `match` and `evaluateFilter`;
- the extent-map reloads;
- the system-catalog extent lookup.

Rows are values of a type parameter.

## Model

| member | source | states |
|---|---|---|
| `JobSteps.InsertAt` | dbcon/joblist/jobstep.h:69-74 | inserting at `pos` keeps the entries before `pos`, puts the inserted ones at `pos`…, shifts the later ones by the inserted count, and grows the length by that count |
| `JobSteps.InsertAtEndIsAppend` | dbcon/joblist/jobstep.h:68-71 | inserting one entry at the end is the same as `push_back` |
| `JobSteps.InsertAtConsecutive` | dbcon/joblist/jobstep.h:69-74 | inserting u at pos and then v right after it equals inserting u+v at pos |
| `JobSteps.JobStepAssociation.constructor` | dbcon/joblist/jobstep.h:64 | a new association has no outputs |
| `JobSteps.JobStepAssociation.OutAdd` | dbcon/joblist/jobstep.h:68 | appends: the old entries are unchanged and the new one is last |
| `JobSteps.JobStepAssociation.OutAddAt` | dbcon/joblist/jobstep.h:69-71 | fails with logic_error iff pos > size, leaving the list alone; otherwise the list is the insertion and the element sits at pos |
| `JobSteps.JobStepAssociation.OutAddAllAt` | dbcon/joblist/jobstep.h:72-74 | same bound check; otherwise inserts the vector contiguously at pos, the size growing by its length |
| `JobSteps.JobStepAssociation.OutAt` | dbcon/joblist/jobstep.h:78-79 | bounds-checked access: the i-th entry iff i < size, otherwise out_of_range |
| `JobSteps.ErrorInfo.constructor` | dbcon/joblist/jobstep.h:92 | code 0 and an empty message |
| `JobSteps.ErrorInfo.FromCode` | dbcon/joblist/jobstep.h:96 | code v and an empty message |
| `JobSteps.ErrorInfo.Assign` | dbcon/joblist/jobstep.h:97 | assigning a code sets it and clears the message |
| `JobSteps.JobStep.SetStatus` | dbcon/joblist/jobstep.h:227 | overwrites the code whatever it was, keeps the message; a non-zero code cancels the step |
| `JobSteps.JobStep.SetErrorMessage` | dbcon/joblist/jobstep.h:229 | sets the message, keeps the code |
| `JobSteps.JobStep.SetStatusPtr` | dbcon/joblist/jobstep.h:232 | the step now shares the given error record; nothing else changes |
| `JobSteps.JobStep.Abort` | dbcon/joblist/jobstep.h:123 | sets the die flag, so the step is cancelled; nothing else changes |
| `JobSteps.JobStep.IncWaitToRunStepCnt` | dbcon/joblist/jobstep.h:185-187 | sets the delayed flag and adds one to the 32-bit counter |
| `JobSteps.JobStep.DecWaitToRunStepCnt` | dbcon/joblist/jobstep.h:188-190 | subtracts one from the 32-bit counter and returns the new value as a signed int: -1 from 0, n-1 from a small n |
| `JobSteps.JobStep.ResetDelayedRun` | dbcon/joblist/jobstep.h:191 | clears both the flag and the counter |
| `JobSteps.JobStep.constructor` | dbcon/joblist/jobstep.h:116-262 | a new step holds the given error record, is not dying, and has no delayed run |
| `JobSteps.SharedStatusCancelsBoth` | dbcon/joblist/jobstep.h:226-234 | two steps that share an error record are both cancelled when one of them sets a non-zero status |
| `Extents.SortExtentsFacts` | dbcon/joblist/tuple-bps.cpp:844 | the sorted extent list is ordered and is a permutation of the map's extents |
| `Extents.FileCountPositive` | dbcon/joblist/tuple-bps.cpp:836-841 | every extent's segment file counts at least that extent |
| `Extents.Relabel` | dbcon/joblist/tuple-bps.cpp:872-878 | the status becomes EXTENTSTATUSMAX+1 exactly for an HWM-0 extent alone in its file when files hold several extents; every other field is kept |
| `Extents.RelabelKeepsOrderAndAvailability` | dbcon/joblist/tuple-bps.cpp:844-878 | relabelling keeps the list sorted, changes no field but the status, and never makes an extent available |
| `Extents.LastAvailableBefore` | dbcon/joblist/tuple-bps.cpp:866-867 | the marker is -1 iff no extent of the prefix is available on the root; otherwise it is the largest such index |
| `Extents.RootCount` | dbcon/joblist/tuple-bps.cpp:818-864 | the root count is at least the configured one, covers every extent's root, and is the configured one or some extent's root |
| `Extents.FindStart` | dbcon/joblist/tuple-bps.cpp:936-937 | finds an entry with the given first LBID, or -1 when there is none |
| `Extents.KeyedByStartFacts` | dbcon/joblist/tuple-bps.cpp:936-937 | the hash map built from a list has distinct first LBIDs, holds only extents of the list, and has an entry for each of its first LBIDs |
| `Extents.UpsertFacts` | dbcon/joblist/tuple-bps.cpp:937 | `mref[start] = e` replaces the entry with that first LBID or adds one, and keeps the keys distinct |
| `Extents.KeyedByStartLastWins` | dbcon/joblist/tuple-bps.cpp:936-937 | the last extent with a given first LBID is the one the map keeps |
| `Extents.KeyedByStartOfDistinct` | dbcon/joblist/tuple-bps.cpp:936-937 | a list with distinct first LBIDs keys to itself |
| `Extents.FirstHolding` | dbcon/joblist/tuple-bps.cpp:2360-2365 | the first extent whose LBID range holds the LBID, or -1 iff none does |
| `Extents.FboSplitsBack` | dbcon/joblist/tuple-bps.cpp:2341-2365 | shifting the FBO that `getFBO` builds right by divShift gives the extent index back, and its low bits are the offset in the extent |
| `Extents.RidFindsExtent` | dbcon/joblist/tuple-bps.cpp:2341-2365 | every row id of a block whose FBO `getFBO` returned maps, in `scanit`, to the extent holding that block |
| `Jobs.LoneZeroHwmScansOneLbid` | dbcon/joblist/tuple-bps.cpp:1560-1565 | a relabelled single-extent file with HWM 0 scans one LBID, not the whole extent |
| `Jobs.BlocksToScan` | dbcon/joblist/tuple-bps.cpp:1589-1593 | the block count is the ceiling of LBIDs / column width: enough blocks, one fewer is not enough, 0 exactly for 0 LBIDs |
| `Jobs.BlocksPerJob` | dbcon/joblist/tuple-bps.cpp:1596-1600 | at least 16 blocks per job, and blocks/threads rounded down when that is larger |
| `Jobs.TotalBlocksAppend` | dbcon/joblist/tuple-bps.cpp:1605-1618 | block counts add up over concatenated job lists |
| `Jobs.SplitExtentCovers` | dbcon/joblist/tuple-bps.cpp:1605-1618 | an extent's job block counts sum to its block count |
| `Jobs.SplitExtentCount` | dbcon/joblist/tuple-bps.cpp:1605-1618 | the number of jobs is the block count divided by the blocks per job, rounded up |
| `Jobs.SplitExtentJob` | dbcon/joblist/tuple-bps.cpp:1605-1618 | job k has the extent's root and connection and between 1 and the per-job count of blocks, exactly that count unless it is last; its first LBID is start + colWidth·perJob·k |
| `Jobs.PlanErrSticks` | dbcon/joblist/tuple-bps.cpp:1580-1581 | once ERR_DATA_OFFLINE is thrown, later extents change nothing |
| `Jobs.BuildJobs` | dbcon/joblist/tuple-bps.cpp:1555-1620 | the extent loop of `makeJobs` returns the planned jobs, or the throw, and the skipped LBID count of the plan |
| `Jobs.SplitIntoJobs` | dbcon/joblist/tuple-bps.cpp:1589-1618 | the inner job loop yields the extent's jobs |
| `Jobs.EmitJobs` | dbcon/joblist/tuple-bps.cpp:1603-1618 | the job loop over one extent emits `SplitExtent`'s jobs: pieces of at most blocks-per-job blocks, each LBID advanced by column width times the previous piece |
| `Jobs.PlanFailsIffOffline` | dbcon/joblist/tuple-bps.cpp:1570-1581 | `makeJobs` throws exactly when a selected extent's DB root has no connection, and then with ERR_DATA_OFFLINE |
| `Jobs.ExtentJobsFacts` | dbcon/joblist/tuple-bps.cpp:1589-1618 | a selected extent's jobs go to its root's connection, their blocks add up to its block count, and it yields jobs iff it has LBIDs to scan |
| `Jobs.PlanAccounting` | dbcon/joblist/tuple-bps.cpp:1570-1618 | the jobs cover exactly the selected extents' blocks, and skipped + selected LBIDs = LBIDs of the extents at or before their root's marker |
| `Jobs.ExtentYieldsJobsIffSelected` | dbcon/joblist/tuple-bps.cpp:1570-1574 | extent i adds jobs iff its scan flag is set, i ≤ its root's marker, and it has LBIDs to scan |
| `Jobs.PlanGroupedByRoot` | dbcon/joblist/tuple-bps.cpp:1555-1618 | over extents sorted by root, the job list is ordered by DB root, as interleaving expects |
| `Interleave.InterleaveJobs` | dbcon/joblist/tuple-bps.cpp:1460-1517 | the loop of `interleaveJobs` returns the round-robin interleaving of the jobs' per-connection bins |
| `Interleave.CountPms` | dbcon/joblist/tuple-bps.cpp:1472-1475 | the PM count exceeds every job's connection number, and is 0 with no jobs |
| `Interleave.Bucket` | dbcon/joblist/tuple-bps.cpp:1477-1481 | bin c holds the jobs of connection c in input order |
| `Interleave.EmitRound` | dbcon/joblist/tuple-bps.cpp:1484-1494 | one pass emits the front of every non-empty bin in connection order, pops them, and reports no work done iff nothing was emitted |
| `Interleave.InterleavedIsPermutation` | dbcon/joblist/tuple-bps.cpp:1483-1512 | the result is a permutation of the input, of the same length |
| `Interleave.InterleavedKeepsConnectionOrder` | dbcon/joblist/tuple-bps.cpp:1477-1495 | jobs of one connection keep their relative order |
| `Interleave.SingleConnectionUnchanged` | dbcon/joblist/tuple-bps.cpp:1467-1495 | with a single connection the order is unchanged, which is what the early return meant to give |
| `Interleave.InterleavedByRounds` | dbcon/joblist/tuple-bps.cpp:1483-1495 | the result is round 0, round 1, …: round r holds the r-th job of every bin that has one, in ascending connection order |
| `Pruning.CpColumnsMembers` | dbcon/joblist/tuple-bps.cpp:677-692 | `cpColVec` holds exactly the column filters that are no function column and have a CP type |
| `Pruning.CollectCpColumns` | dbcon/joblist/tuple-bps.cpp:677-692 | the loop builds that list in filter order |
| `Pruning.ExtentKept` | dbcon/joblist/tuple-bps.cpp:708-728 | the inner loop, stopping at the first column that rules the extent out, gives the AND over all CP columns |
| `Pruning.IgnoredCpKeepsAll` | dbcon/joblist/tuple-bps.cpp:705-717 | with IGNORE_CP every extent is kept |
| `Pruning.CpFlagFalseIff` | dbcon/joblist/tuple-bps.cpp:716-724 | an extent is dropped iff CP is not ignored and some CP column has a valid range that its predicate rules out |
| `Pruning.MoreColumnsPruneMore` | dbcon/joblist/tuple-bps.cpp:710-728 | each further CP column can only drop more extents |
| `Pruning.StoredFlagsFacts` | dbcon/joblist/tuple-bps.cpp:668-730 | a second evaluation changes nothing; the first overwrites each flag with the AND over CP columns, or leaves the flags when there is no CP column |
| `Pruning.FirstColumn` | dbcon/joblist/tuple-bps.cpp:2802-2804 | the first column command on the OID, or -1 iff there is none |
| `Pruning.FindColumn` | dbcon/joblist/tuple-bps.cpp:2802-2846 | the search loop finds that first command |
| `Pruning.PrepFlagFacts` | dbcon/joblist/tuple-bps.cpp:789-801 | for a user column the flag becomes scan AND runtime, so it never turns on; for a system-catalog column it is set |
| `Pruning.Intersects` | dbcon/joblist/tuple-bps.cpp:2838-2841 | the OR of the single-value tests: some value may lie in the extent's range |
| `Pruning.RuntimeFlagOnlyClears` | dbcon/joblist/tuple-bps.cpp:2832-2843 | the runtime flag never turns on, and turns off only for a valid range that fails the range or every value test |
| `Pruning.UpdateRuntimeFlags` | dbcon/joblist/tuple-bps.cpp:2830-2845 | the extent loop updates flag j from extent j's range test, and only when that range is valid |
| `Pruning.RuntimeFlagsOnlyClear` | dbcon/joblist/tuple-bps.cpp:2830-2845 | across the vector, no flag turns on and flags past the column's extents are untouched |
| `Pruning.AddCpList` | dbcon/joblist/tuple-bps.cpp:2812-2818 | the list the runtime flags follow is sorted and is a permutation of the catalog's list |
| `Pruning.AddCpListAsWrittenFacts` | dbcon/joblist/tuple-bps.cpp:2812-2831 | the list walked holds the catalog's extents, and with the column already in the map it is the sorted list |
| `Pruning.AddCpAsWrittenMisplacesFlag` | dbcon/joblist/tuple-bps.cpp:2812-2843 | counterexample: for a column missing from the map, the list as written clears the flag of the wrong extent |
| `Lifecycle.RetryAsWritten` | dbcon/joblist/tuple-bps.cpp:960-995 | the retry loop as written ends as `AsWrittenFrom` says |
| `Lifecycle.AsWrittenErrorIff` | dbcon/joblist/tuple-bps.cpp:970-987 | as written, the count error is reported iff the counts first agree after exactly retryMax reloads |
| `Lifecycle.AsWrittenProceedsWhenNeverConsistent` | dbcon/joblist/tuple-bps.cpp:970-987 | as written, counts that never agree end with retryCounter = retryMax+1, and `run` goes on |
| `Lifecycle.AsWrittenCounterexamples` | dbcon/joblist/tuple-bps.cpp:970-987 | concrete runs: never consistent goes on; consistent only at the last reload reports an error |
| `Lifecycle.CorrectedIsSound` | dbcon/joblist/tuple-bps.cpp:968-993 | the intended loop does at most retryMax reloads, goes on only with agreeing counts, and reports the count error iff they never agree |
| `Lifecycle.CorrectedOnCounterexamples` | dbcon/joblist/tuple-bps.cpp:970-987 | on the same two runs the intended loop reports the error, then goes on |
| `Lifecycle.AsWrittenVsCorrected` | dbcon/joblist/tuple-bps.cpp:970-987 | the two loops reload equally often and differ only at the last permitted reload, where each goes on exactly when the other reports the count error |
| `RowBatches.PassingFacts` | dbcon/joblist/tuple-bps.cpp:2627-2637 | the passing rows are exactly the projected input rows that `evaluate` accepts, no more than the input |
| `RowBatches.ProcessFE2OneRG` | dbcon/joblist/tuple-bps.cpp:2618-2638 | the output keeps the input's base rid and DB root and holds the passing rows in order |
| `RowBatches.ProcessFE2` | dbcon/joblist/tuple-bps.cpp:2640-2689 | the loop of `processFE2` as written computes `ProcessFE2AsWritten` |
| `RowBatches.ProcessFE2Fixed` | dbcon/joblist/tuple-bps.cpp:2640-2689 | the loop with the batch closed before the row computes `ProcessFE2Corrected` |
| `RowBatches.Fe2ScanGroup` | dbcon/joblist/tuple-bps.cpp:2659-2680 | the row loop over one input group follows `Fe2Rows` |
| `RowBatches.ProcessFE2Facts` | dbcon/joblist/tuple-bps.cpp:2653-2688 | both versions output exactly the passing rows in input order, in batches of 1 to 8192 rows, with no trailing empty batch |
| `RowBatches.ProcessFE2CorrectedKeepsTags` | dbcon/joblist/tuple-bps.cpp:2653-2688 | corrected: every output row carries the base rid and DB root of the group it came from |
| `RowBatches.ProcessFE2MisTagsRow` | dbcon/joblist/tuple-bps.cpp:2664-2677 | counterexample: as written, a row of the second group is output under the first group's base rid |
| `RowBatches.ProcessFE2CorrectedSplitsGroups` | dbcon/joblist/tuple-bps.cpp:2669-2677 | corrected, the same input gives one batch per group |
| `RowBatches.ProcessFE2OfOneGroup` | dbcon/joblist/tuple-bps.cpp:2640-2689 | a single group of at most 8192 passing rows gives one batch, as `processFE2_oneRG` does, or nothing |
| `RowBatches.JoinPrefixCount` | dbcon/joblist/tuple-bps.cpp:2457-2465 | the recursion produces the product over depths of the match counts |
| `RowBatches.AddRowsFacts` | dbcon/joblist/tuple-bps.cpp:2467-2486 | appending rows pushes a batch exactly when it holds 8192 rows and keeps every row, in order |
| `RowBatches.GenerateJoinResultSet` | dbcon/joblist/tuple-bps.cpp:2449-2489 | the recursive method appends the joined rows of its depth to the batches and leaves the base row as the recursion does |
| `RowBatches.JoinResultFacts` | dbcon/joblist/tuple-bps.cpp:2449-2489 | from depth 0, exactly Π\|joinerOutput[d]\| rows are added, no batch exceeds 8192 rows, and the rows are kept in order |
| `RowBatches.FirstIndex` | dbcon/joblist/tuple-bps.cpp:2538-2540 | the index of a key's first column |
| `RowBatches.DupPairsIff` | dbcon/joblist/tuple-bps.cpp:2533-2543 | (i, j) is listed iff column i repeats a key whose first column is j < i |
| `RowBatches.DupPairsBound` | dbcon/joblist/tuple-bps.cpp:2533-2543 | each pair has source < destination < number of columns |
| `RowBatches.DupColumnsAgree` | dbcon/joblist/tuple-bps.cpp:2552-2564 | after the copy, each column holds the value of its key's first column |
| `RowBatches.DupOutputColumns` | dbcon/joblist/tuple-bps.cpp:2552-2564 | every row of the group is rewritten in place by copying the listed fields |
| `RowBatches.CopyRowFields` | dbcon/joblist/tuple-bps.cpp:2559-2561 | the pairs are copied in order, field by field |
| `JoinCombine.FilterFacts` | dbcon/joblist/tuple-bps.cpp:1946-1960 | the filter keeps the passing matches in order and counts the failures, or stops at the first pass for anti and non-scalar semi joins |
| `JoinCombine.SideAntiJoin` | dbcon/joblist/tuple-bps.cpp:1946-1984 | an anti-join side drops the row iff a match passes, and otherwise yields the null row |
| `JoinCombine.SideSemiJoin` | dbcon/joblist/tuple-bps.cpp:1946-1984 | a semi-join side keeps the row iff a match passes, and then yields the null row once |
| `JoinCombine.SideInnerJoin` | dbcon/joblist/tuple-bps.cpp:1946-1992 | a filtered inner-join side drops the row iff no match passes, otherwise keeps the passing ones; a scalar side errs iff more than one passes |
| `JoinCombine.SideLargeOuterJoin` | dbcon/joblist/tuple-bps.cpp:1962-1966 | a large-outer side whose filter removes every match joins with the null row |
| `JoinCombine.JoinSides` | dbcon/joblist/tuple-bps.cpp:1934-2001 | one output per side; a stopped row has no matches |
| `JoinCombine.JoinSidesStopped` | dbcon/joblist/tuple-bps.cpp:1980-1988 | after the break, later sides change nothing |
| `JoinCombine.JoinRow` | dbcon/joblist/tuple-bps.cpp:1934-2006 | the per-row loop over small sides computes `JoinSides`: each side's output, the final match count, the stop, the scalar check failure and the matches marked for small outer joins |
| `JoinCombine.MarksFollowOutputs` | dbcon/joblist/tuple-bps.cpp:1934-2006 | until the loop stops, each small-outer-join side it reached has marked exactly its joiner output, and no other side has marked anything |
| `JoinCombine.JoinRowsEach` | dbcon/joblist/tuple-bps.cpp:1929-2006 | the rows the row loop joins are the first rows of the group, each joined on its own |
| `JoinCombine.JoinRowsStop` | dbcon/joblist/tuple-bps.cpp:1929-2000 | the abort after a failed scalar check stops the row loop after that row: every earlier row passed the check, and rows are left unjoined only when the step is cancelled |
| `JoinCombine.JoinRowGroup` | dbcon/joblist/tuple-bps.cpp:1929-2006 | the row loop, which tests `cancelled()` before each row, computes `JoinRows` |
| `JoinCombine.InnerJoinsNeedEveryMatch` | dbcon/joblist/tuple-bps.cpp:1986-2002 | with only inner joins and no UM filter, the row is emitted iff every side has a match |
| `JoinCombine.DroppedRowEmitsNothing` | dbcon/joblist/tuple-bps.cpp:1980-2002 | a side that drops the row leaves no match, so no joined row is generated |
| `TupleBpsStep.ExtentsMapOfKeys` | dbcon/joblist/tuple-bps.cpp:926-951 | the rebuilt map has an entry for exactly the OIDs of the column commands |
| `TupleBpsStep.ExtentsMapOfLastWins` | dbcon/joblist/tuple-bps.cpp:926-951 | a column's entry is keyed from the last command on that OID |
| `TupleBpsStep.ReloadedTwice` | dbcon/joblist/tuple-bps.cpp:910-922 | a second reload replaces the first one's lists completely |
| `TupleBpsStep.RebuildExtentsMap` | dbcon/joblist/tuple-bps.cpp:924-951 | the two loops rebuild the map from the filter and then the projection commands |
| `TupleBpsStep.KeyExtents` | dbcon/joblist/tuple-bps.cpp:936-937 | the keying loop builds the hash map of the list |
| `TupleBpsStep.RetryFromIsAsWritten` | dbcon/joblist/tuple-bps.cpp:968-993 | the step's retry loop over its actual reloads is the loop as written, `Lifecycle.AsWrittenFrom` |
| `TupleBpsStep.RetryFromVsCorrected` | dbcon/joblist/tuple-bps.cpp:968-993 | against the intended loop on the same reloads: as many reloads, the same outcome when the loop stops before the last permitted reload, and the opposite outcome (go on versus count error) when it reaches it |
| `TupleBpsStep.RetryFromSkips` | dbcon/joblist/tuple-bps.cpp:968-973 | rounds where the counts disagree and the reload succeeds do not change where the retry loop ends |
| `TupleBpsStep.RetryEndsAt` | dbcon/joblist/tuple-bps.cpp:968-993 | once the counts agree, the counter test fails or a reload throws, the loop ends there with the counter incremented by a failing test: agreeing counts go on unless they agree only after the last reload, a failed counter test goes on, and a throwing reload is reported |
| `TupleBpsStep.PreppedFlagsMeaning` | dbcon/joblist/tuple-bps.cpp:789-801 | a prepared flag is set iff the column is a system-catalog column or both the scan flag and the runtime flag are set |
| `TupleBpsStep.PrepFlags` | dbcon/joblist/tuple-bps.cpp:789-801 | the loop computes the prepared flags |
| `TupleBpsStep.CountPerFile` | dbcon/joblist/tuple-bps.cpp:830-842 | every file of the list has its extent count |
| `TupleBpsStep.MarkersForFacts` | dbcon/joblist/tuple-bps.cpp:846-888 | one extent per input extent, one marker and one LBID per root, at least the configured roots, each marker -1 or an index |
| `TupleBpsStep.MarkersCoverRoots` | dbcon/joblist/tuple-bps.cpp:857-864 | every scanned extent's root has a marker |
| `TupleBpsStep.MarkedLayoutValid` | dbcon/joblist/tuple-bps.cpp:816-889 | the layout `initExtentMarkers` builds is consistent |
| `TupleBpsStep.Markers` | dbcon/joblist/tuple-bps.cpp:829-888 | the computation of `initExtentMarkers` yields `MarkersFor` |
| `TupleBpsStep.ScanExtents` | dbcon/joblist/tuple-bps.cpp:854-879 | the main loop yields the relabelled list, the widened root count, and each root's last available extent |
| `TupleBpsStep.ScanEnds` | dbcon/joblist/tuple-bps.cpp:854-879 | the scan invariant over the whole sorted list gives the relabelled list, the widened root count and each root's last extent |
| `TupleBpsStep.AdvanceMarkers` | dbcon/joblist/tuple-bps.cpp:857-867 | one step widens the roots and moves the marker of an available extent's root |
| `TupleBpsStep.RelabelOne` | dbcon/joblist/tuple-bps.cpp:872-878 | one extent is relabelled from the per-file counts |
| `TupleBpsStep.ScannedLbids` | dbcon/joblist/tuple-bps.cpp:882-888 | each root's last LBID is start + HWM - blockOffset of its marker's extent, or -1 |
| `TupleBpsStep.TupleBps.FromScan` | dbcon/joblist/tuple-bps.cpp:816-889 | a step built from a column scan holds the keyed extents and the markers `initExtentMarkers` derives, and has not run |
| `TupleBpsStep.TupleBps.InitExtentMarkers` | dbcon/joblist/tuple-bps.cpp:816-889 | the layout becomes the sorted, relabelled extents with all flags set, and each root's marker and last LBID |
| `TupleBpsStep.TupleBps.GoodExtentCount` | dbcon/joblist/tuple-bps.cpp:804-814 | true iff every column in the map has as many extents as the first |
| `TupleBpsStep.TupleBps.ReloadExtentLists` | dbcon/joblist/tuple-bps.cpp:891-954 | every command takes its reloaded list, the map is rebuilt from them, and the markers are recomputed |
| `TupleBpsStep.TupleBps.RetryStep` | dbcon/joblist/tuple-bps.cpp:970-973 | one reload, after which the counts are tested again |
| `TupleBpsStep.TupleBps.RetryReloads` | dbcon/joblist/tuple-bps.cpp:968-993 | the retry loop ends with the counter, reload count and outcome of the loop as written, the state being that of the last reload |
| `TupleBpsStep.TupleBps.RetryLoop` | dbcon/joblist/tuple-bps.cpp:968-993 | reloads while the counts disagree and the post-incremented counter test passes, leaves on a throwing reload, and ends with the counter, reload count and outcome of `RetryFrom` |
| `TupleBpsStep.TupleBps.FailRun` | dbcon/joblist/tuple-bps.cpp:981-1061 | ERR_TUPLE_BPS is set unless a status is already set, and the output ends |
| `TupleBpsStep.TupleBps.PrepCasualPartitioning` | dbcon/joblist/tuple-bps.cpp:783-802 | the scan flags become the prepared flags; nothing else changes |
| `TupleBpsStep.TupleBps.Run` | dbcon/joblist/tuple-bps.cpp:956-1063 | runs once: a second call changes nothing; otherwise the retry loop as written (so counts that never agree go on to start the processor), then the processor is allocated once sent, the flags are prepared, and a failure ends the output with ERR_TUPLE_BPS |
| `TupleBpsStep.TupleBps.StartAfterRetry` | dbcon/joblist/tuple-bps.cpp:987-1062 | after the retry loop: a failed loop ends the output with an error; a proceeding loop starts the processor, which succeeds exactly when nothing faults |
| `TupleBpsStep.TupleBps.StartProcessor` | dbcon/joblist/tuple-bps.cpp:1034-1061 | the processor counts as allocated after it is sent; a throw at any point takes the failure path |
| `TupleBpsStep.TupleBps.StoreCasualPartitionInfo` | dbcon/joblist/tuple-bps.cpp:661-730 | evaluated at most once; the first call leaves the flags `StoredFlags` describes |
| `TupleBpsStep.TupleBps.MakeJobs` | dbcon/joblist/tuple-bps.cpp:1540-1623 | CP flags are evaluated first for a user column with AND; the result is the plan's jobs or ERR_DATA_OFFLINE, and the skipped count grows by the plan's skipped LBIDs |
| `TupleBpsStep.TupleBps.SetBop` | dbcon/joblist/tuple-bps.cpp:2508-2512 | the filter operator becomes the one given, which decides whether `makeJobs` evaluates the CP flags |
| `TupleBpsStep.TupleBps.GetFbo` | dbcon/joblist/tuple-bps.cpp:2355-2367 | the offset in the first extent holding the LBID plus the shifted extent index, or logic_error |
| `TupleBpsStep.TupleBps.Scanit` | dbcon/joblist/tuple-bps.cpp:2341-2353 | system-catalog rows are always scanned; a user row is scanned exactly when both flags of its extent (the 32-bit index of the row's block) are set, which is the flag `prepCasualPartitioning` derives |
| `TupleBpsStep.TupleBps.AddCPPredicates` | dbcon/joblist/tuple-bps.cpp:2775-2850 | does nothing unless it applies; fails for a column with no extents; otherwise adds a missing map entry keyed from the catalog's list and ANDs runtime flag j with the test of extent j of the list walked: the sorted list when the column is in the map, the catalog's order otherwise |
| `TupleBpsStep.TupleBps.ApplyRuntimePredicates` | dbcon/joblist/tuple-bps.cpp:2820-2845 | adds the column's start-keyed entry only when missing, and each runtime flag becomes the AND of itself with its extent's range or value test |
| `TupleBpsStep.TupleBps.CheckDupOutputColumns` | dbcon/joblist/tuple-bps.cpp:2530-2544 | the duplicate list is the (column, first column of its key) pairs in column order |
| `TupleBpsStep.TupleBps.Join` | dbcon/joblist/tuple-bps.cpp:1065-1112 | runs once; a step that has run releases its processor |
| `TupleBpsStep.TupleBps.Abort` | dbcon/joblist/tuple-bps.cpp:2883-2904 | a step not already dying aborts and becomes cancelled; a dying one is left alone |

## Left out

- Threads, condition variables and flow control are left out, because
  they are concurrency. This covers `sendJobs`, `startPrimitiveThread`,
  `startAggregationThreads` and `receiveMultiPrimitiveMessages`.
- Messaging and the primitive processor are left out, because they are
  network I/O and foreign calls. This covers `fDec` writes and queues,
  `createBPP`, `runBPP`, `destroyBPP` and `serializeJoiner`. `Run` and
  `StartProcessor` take the point where an exception is thrown as a
  parameter instead.
- `LBIDList`, `RowEstimator`, `FuncExpWrapper::evaluate`,
  `TupleJoiner::match`/`evaluateFilter`, `applyMapping` and `copyRow` are
  defined elsewhere, so they are parameters or abstract row values. The
  row-count estimate that `storeCasualPartitionInfo(true)` updates is not
  modelled.
- `ExtentSorter`'s definition is not part of this model. The order is
  assumed to be DB root, then partition, then block offset, then segment
  (`Extents.ExtentLe`).
- The numeric values of EXTENTAVAILABLE, EXTENTSTATUSMAX, ERR_TUPLE_BPS,
  ERR_DATA_OFFLINE and ERR_MORE_THAN_1_ROW are defined in headers that are
  not part of this model. The model fixes values that keep the properties
  that matter: the error codes are non-zero and distinct, and
  EXTENTSTATUSMAX + 1 is not a valid status.
- LBIDs, FBOs and row ids are unbounded integers, not 64-bit. The only
  explicit wrap-arounds modelled are those of the 32-bit values that make
  a difference: `lbidsToScan`, the shifted extent index in `getFBO`, the
  `extentIndex` of `scanit`, and the delayed-run counter.
- `TupleBpsStep.TupleBps.FromScan`, `TupleBpsStep.TupleBps.InitExtentMarkers`,
  `TupleBpsStep.TupleBps.ReloadExtentLists`, `TupleBpsStep.TupleBps.RetryStep`,
  `TupleBpsStep.TupleBps.RetryReloads`, `TupleBpsStep.TupleBps.RetryLoop`,
  `TupleBpsStep.TupleBps.Run`, `TupleBpsStep.Markers`, `TupleBpsStep.ScanExtents`,
  `TupleBpsStep.MarkersCoverRoots` and `TupleBpsStep.MarkedLayoutValid`
  require every extent to lie on a DB root numbered from 1
  (`RootsFromOne`, `ListsFromOne`, `ReloadFits`). The source indexes
  `lastExtent` by `dbRoot - 1` without a check, in `initExtentMarkers`
  and `makeJobs`, so an extent on root 0 would index out of range there.
- `Jobs.WellFormed`, `TupleBpsStep.TupleBps.Valid` and the methods that
  keep it require a non-zero column width and threads per scan. The source
  divides by both in `makeJobs` without a check; the step's configuration
  never sets them to zero, and a zero there is a division by zero.
- `JoinCombine.JoinRowGroup` models the step's `cancelled()` as a flag the
  loop starts from and sets by the scalar check's `abort()`. It does not
  write ERR_MORE_THAN_1_ROW into the step's error record, and does not
  model another thread cancelling the step during the loop.
- `JoinCombine.JoinRow` records the matches `markMatches` marks per row
  and side. The joiner's own mark state, kept across rows and threads, is
  the joiner's and is not modelled.
- `JobSteps.JobStep.DecWaitToRunStepCnt` assumes that
  `atomicops::atomicDec` returns the decremented value, as an atomic
  decrement-and-fetch does. `atomicops` is not part of this model.
- `JobSteps.JobStep.constructor`: the constructor's body lives in
  `jobstep.cpp`, which is not part of this model. The model starts the
  step not dying, with no delayed run.
- `TupleBpsStep.TupleBps.AddCPPredicates` requires that the column has no
  more extents than there are runtime flags, and that `vals` has two
  entries for a range. The source indexes past the end otherwise, which
  is undefined behaviour.
- `AddCPPredicates` does not model a second extent lookup that fails. The
  source then dereferences a null map pointer, so the model treats both
  lookups as returning the same list.
- `TupleBpsStep.TupleBps.StoreCasualPartitionInfo` and
  `TupleBpsStep.TupleBps.MakeJobs` require each CP column to have an
  extent at every index the loop reads.
- `TupleBpsStep.TupleBps.Scanit` requires the extent index to be in range,
  for the same reason.
- `TupleBpsStep.TupleBps.GoodExtentCount` requires a non-empty map, since
  the source reads `begin()` of the map.
- `TupleBpsStep.TupleBps.ReloadExtentLists` and
  `TupleBpsStep.TupleBps.RetryStep` treat a reload as all or nothing: a
  reload that throws keeps every previous list. In the source, the
  commands reloaded before the throwing one already hold their new lists.
  `run` fails straight after the throw, so nothing reads those lists.
- The usleep between reloads and all trace, stats and logging output are
  left out. So are the `#if 0` connection round-robin in `interleaveJobs`,
  `toString` and the timing helpers.
- `TupleBpsStep.TupleBps.Join` does not model the threads it joins or the
  messages it sends. It keeps only the once-flag and the release of the
  processor.
- The receive thread can also release the processor when the scan ends.
  That release is not modelled.
- `TupleBpsStep.TupleBps.Abort` keeps only the once-check and
  `JobStep::abort`. The abort message, queue shutdown and wake-ups are
  messaging.
- The constructors and `setBPP`/`setProjectBPP` are configuration
  plumbing.
  `TupleBpsStep.TupleBps.FromScan` stands for one constructor path only.
- `interleaveJobs`'s `pmCount == 1` early return can never fire, since
  `pmCount` is still 0 there, so `Interleave.InterleaveJobs` omits it.
  `Interleave.SingleConnectionUnchanged` shows that its intended effect
  holds anyway.

## Findings

The step class `TupleBpsStep.TupleBps` follows the code as written for the
retry loop and for `addCPPredicates`. The corrected definitions are proved
beside it: `TupleBpsStep.RetryFromVsCorrected` relates the two retry loops,
and `Pruning.AddCpListAsWrittenFacts` relates the two extent lists.

| source | as written | input that shows it | evidently intended | confidence | as-written member | corrected member |
|---|---|---|---|---|---|---|
| dbcon/joblist/tuple-bps.cpp:970-987 | `retryCounter++ < retryMax` also increments on the failing test, so after retryMax failed reloads the counter is retryMax+1 and the `== retryMax` error test does not fire | counts never agree (no reload throws): `run` goes on with inconsistent extent counts; counts that agree only after the 1000th reload report an error | report the error exactly when the counts still disagree after retryMax reloads | high (proved on the model; not executed) | `Lifecycle.AsWrittenCounterexamples` | `Lifecycle.CorrectedIsSound` |
| dbcon/joblist/tuple-bps.cpp:2664-2677 | a passing row is appended before the test for a different DB root or base rid, so it is emitted in the previous group's batch | two input groups (base rid 0 and 8192, DB root 1) with one passing row each: one batch with base rid 0 holding both rows | close the batch when the group changes, then append the row, so each row keeps its group's base rid | medium (latent if callers never mix groups; not executed) | `RowBatches.ProcessFE2MisTagsRow` | `RowBatches.ProcessFE2CorrectedKeepsTags` |
| dbcon/joblist/tuple-bps.cpp:2812-2843 | for a column not yet in the map, the second `getExtents` overwrites the sorted list with the catalog's order, and runtime flag j follows the catalog's j-th extent | catalog lists an extent on root 2 before one on root 1, and the predicate range meets only the root-1 extent: flag 0 is cleared instead of flag 1 | flag j follows the j-th extent in `ExtentSorter` order, as `scanFlags` does | medium (depends on the catalog's order; not executed) | `Pruning.AddCpAsWrittenMisplacesFlag` | `Pruning.AddCpList` |
