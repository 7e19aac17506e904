# TiDB online schema change, auto-IDs and plan bindings: a verified model

This project models five cooperating parts of TiDB and proves what they promise over whole runs.

- **Backfill** (`Keys`, `BackfillWorker`, `BackfillRanges`, `BackfillProtocol`, `BackfillPool`, `BackfillCheckpoint`,
  `BackfillJob`, `ReorgElements`). A master splits a key range into tasks, workers run them in batches, results come
  back in any order and a checkpoint is saved. Keys are byte strings in lexicographic order; a row is a position in the
  sorted snapshot. The channels and goroutines are a step machine whose state holds the rows filled so far and whose
  finishing step does what the worker's method is proved to do; the worker's batches, the split loop, the keeper and the
  job around them are imperative.
- **Auto-ID service** (`AutoIDArithmetic`, `AutoIDService`, `AutoIDUniqueness`, `AutoIDRebase`, `AutoIDClose`).
  Instances cache segments of one stored counter. 64-bit wrap-around and Go's truncating division are written out. Each
  transaction on the counter is one step.
- **Column jobs** (`ColumnOrder`, `TableInfo`, `ColumnJobs`, `ModifyColumn`, `ModifyRuns`, `JobResults`,
  `ModifyInPlace`, `ColumnMethods`, `ChangingNames`, `SchemaSync`, `SchemaProgress`, `FailedWaits`, `VersionLock`).
  Table metadata, the edits that add, drop and modify column make to it round by round, the waiting for other servers
  between rounds, and the re-entrant lock on the schema version.
- **Binding cache** (`BindRecords`, `BindCache`, `BindRemoval`, `BindUpdate`). An LRU with its own memory accounting and
  the fold of `mysql.bind_info` rows into it, in full and incrementally.
- **Dependency and range algorithms** (`UsedColumns`, `GeneratedColumns`, `Flashback`), and the first-match search that
  all lookups by name or ID share (`Search`).

Methods with loops are proved against functions on values; what those functions promise is proved as lemmas. A
transaction, a lookup or a request that can fail is a parameter that says whether it does.

## What turned out not to hold, and the exact condition

- The saved checkpoint can lie above a row that was never backfilled: `getNextKey` returns the successor of the end key
  also when the task excludes that key. `CheckpointSafety` gives the condition, `CheckpointCanSkipARow` an instance, and
  `ResumeDecides` says what a restarted job then leaves.
- The row at the end of the whole range can be left out when a round stops at the limit on ranges:
  `EndRowAlwaysCovered` gives the condition on the region boundaries, `LimitedSplitMissesEndRow` an instance.
- An allocation whose computed size wraps hands out IDs again or goes backwards: `ForwardExact` gives the condition on
  count, increment, offset and base for both signednesses; `UnsignedOverflowRepeatsIds`, `LargeCountRepeatsIds` and
  `SignedSizeGoesBackwards` are instances.
- Closing an instance lowers the counter; IDs can then be repeated exactly when one above its base was handed out or is
  cached elsewhere: `CloseExact`, `GuardDecides`, `CloseWithoutGuardRepeatsIds`. An instance used on after its own close can
  take a rebase as done and still hand out lower IDs: `RebaseHolds` is about instances not closed, `ClosedInstanceForgets`
  is the instance.
- Versions below the newest are undecided exactly when the holder of the version lock has generated more than one in its
  open transaction: `OlderVersionsAreDecided`, `ReenteringLeavesTwoPending`.
- Renaming a column to the very name a modify-column job picks for its internal column makes the second round cancel the
  job without removing what the first round added: `RestoresUnlessClash`, `RenameToTheInternalName`.
- `waitSchemaChanged` goes on when the wait fails. Servers can then drift two states apart exactly when the next round's
  state does not fit a version that some server still has: `FailedWaitExact`, `FailedWaitBreaksIt`. A job cancelled around a
  crash also skips a wait, but there the states still fit: `AtMostOneStateApart`, `NextOwnerDoesNotWait`.
- Rule 2 for generated columns refuses one legal move, the tie described at `RuleTwoIsExact`; `RuleTwoRefusesALegalMove`
  is an instance.
- `bindCache.set` reports its memory error also when it succeeds, and `Copy` turns the recency order around: `Cache.Set`,
  `CopyReversesRecency`.

## Model

| member | source | states |
|---|---|---|
| `Keys.NextIsSuccessor` | kv/key.go:33-38 | Next is the immediate successor in byte order: below it are exactly the keys at or below the argument |
| `Keys.PrefixNextGreater` | kv/key.go:51-68 | PrefixNext is above its argument for every key, all-255 keys included |
| `Keys.PrefixInterval` | kv/key.go:75-78 | a key between two keys with a prefix has the prefix |
| `BackfillWorker.CoversByPosition` | ddl/backfilling.go:152-166 | a task covers exactly the snapshot rows from its first to its end position |
| `BackfillWorker.FetchRowColVals` | ddl/column.go:1222-1263 | one batch returns exactly the rows without the new column up to its stop, in order; it is done only at the end of the task; a batch that is not done is full or has reached the last row of the task; it fails only on a row that cannot be converted |
| `BackfillWorker.Table.BackfillDataInTxn` | ddl/column.go:1366-1427 | a batch fills exactly its records or nothing |
| `BackfillWorker.Table.RunBatch` | ddl/backfilling.go:233-305 | one round keeps the progress invariant under concurrent statements, and moves on unless it fails |
| `BackfillWorker.Table.HandleBackfillTask` | ddl/backfilling.go:233-305 | ends on every task; success means every row of the task is filled, failure that exactly a prefix is committed and its next key reported; without concurrent statements each missing row is written once, in key order; it fails only for a stopped worker, a failed commit or a row that cannot be converted |
| `BackfillRanges.RangeEndKeyIs` | ddl/backfilling.go:975-997 | the looked-up key is the range's end key, or the end key is not stored and both have the same rows below |
| `BackfillRanges.RangeEndKeyIsGreatest` | ddl/backfilling.go:975-997 | the looked-up key is the greatest stored key from the start key to the end key, and the start key itself when none is stored there |
| `BackfillRanges.BuildTasks` | ddl/backfilling.go:491-549 | one task per range, at most as many as the channel holds, each with the end key and inclusion flag of its range |
| `BackfillRanges.LookedUpTask` | ddl/backfilling.go:507-531 | with a successful lookup a task covers its range, including the end key only for the last range |
| `BackfillRanges.FailedLookupTask` | ddl/backfilling.go:507-531 | with a failed lookup a task covers at least its range |
| `BackfillRanges.BatchCoverage` | ddl/backfilling.go:491-549 | the first m tasks of a batch cover each row of their ranges exactly once when lookups succeed, at least once otherwise |
| `BackfillRanges.LastEndIs` | ddl/backfilling.go:801-885 | the rounds end at EndKey, or at a boundary whose successor EndKey is |
| `BackfillRanges.EndRowAlwaysCovered` | ddl/backfilling.go:839-880 | the rounds end at EndKey for every way the regions can be split if and only if no boundary lies immediately below EndKey with as many boundaries up to it as a round may have ranges |
| `BackfillRanges.EndRowCovered` | ddl/backfilling.go:839-880 | the row at EndKey is covered once when the rounds end there and not at all otherwise |
| `BackfillRanges.LimitedSplitMissesEndRow` | ddl/backfilling.go:839-880 | two full ranges that end just below EndKey end the rounds there |
| `BackfillProtocol.ConservationTheorem` | ddl/backfilling.go:307-435 | in every run, for every selection of tasks, queued, in flight, unread, received and drained ones add up to those sent |
| `BackfillProtocol.QuiescentAtExit` | ddl/backfilling.go:389-426 | when the master stops waiting both channels are empty and no worker is busy, also after errors |
| `BackfillProtocol.NoDeadlock` | ddl/backfilling.go:389-435 | until it is finished some step towards the end is possible |
| `BackfillProtocol.RunsAreBounded` | ddl/backfilling.go:439-488 | every run takes at most four steps towards the end per task |
| `BackfillProtocol.ResultsAreDistinct` | ddl/backfilling.go:389-426 | the master never reads two results of one task |
| `BackfillProtocol.ErrorFreeMeansAllDone` | ddl/backfilling.go:439-488 | the master ends without an error if and only if every task reported success |
| `BackfillProtocol.FinishedRun` | ddl/backfilling.go:307-435 | in every finished run each success the master has read is of a task whose rows are all filled, results and drained tasks add up to those sent, and without concurrent statements nothing else was filled |
| `BackfillProtocol.CanFinish` | ddl/backfilling.go:389-488 | every run from every start can be brought to its end |
| `BackfillPool.PoolFollows` | ddl/backfilling.go:676-740 | in every run the pool has grown by the workers added, a worker is cancelled exactly when the pool was lowered below its place while it was in it, and gone exactly when it has left or ended with an error |
| `BackfillPool.GoneTakesNothing` | ddl/backfilling.go:307-387 | in every run a worker that is gone takes no task |
| `BackfillCheckpoint.CheckpointUnique` | ddl/backfilling.go:1021-1034 | the longest finished prefix and its key are determined by the set of finished tasks |
| `BackfillCheckpoint.DoneTaskKeeper.UpdateNextKey` | ddl/backfilling.go:1036-1052 | whatever the order of arrival, the kept key is the next key of the longest finished prefix |
| `BackfillCheckpoint.WaitTaskResults` | ddl/backfilling.go:389-426 | for every arrival order and every set of failures the returned key is that checkpoint, and an error is reported exactly when some result has one; `SendTasksAndWait` gives it what a run has read and drained |
| `BackfillCheckpoint.CheckpointSafety` | ddl/column.go:1212-1220 | every row below the checkpoint is filled if and only if the last task of the finished prefix includes its end key, or that key is not stored or filled already |
| `BackfillCheckpoint.CheckpointCanSkipARow` | ddl/column.go:1212-1220 | two tasks and three rows with a checkpoint above an unfilled row |
| `BackfillJob.SendTasksAndWait` | ddl/backfilling.go:439-488 | the master's part, with the results read and the tasks drained, is the function of the run that `BatchMeans` is about |
| `BackfillJob.BatchMeans` | ddl/backfilling.go:439-488 | for every interleaving of master and workers the returned key is the checkpoint of exactly the tasks whose success the master has read, those have their rows filled, and there is an error if and only if some task is not among them or the job is not runnable |
| `BackfillJob.HandleRangeTasks` | ddl/backfilling.go:491-549 | one task is built per range and the batch is run as one |
| `BackfillJob.RangesMean` | ddl/backfilling.go:491-549 | the tasks taken as done are exactly those read as successful, the saved key is their checkpoint from the start key, and below it only the boundary row can be missing; there is an error if and only if some task is not done or the job is not runnable; without one every row of the ranges is filled |
| `BackfillJob.WritePhysicalTableRecord` | ddl/backfilling.go:801-885 | the loop over splits and batches ends for every region split and is the recursion that `WriteMeans` is about |
| `BackfillJob.WriteMeans` | ddl/backfilling.go:801-885 | for every split, interleaving and failure: an error is that of a split or of the last batch, whose tasks taken as done are exactly those read as successful and whose saved key is their checkpoint; every row below the saved key is filled if and only if its boundary row is |
| `BackfillJob.WriteCovers` | ddl/backfilling.go:801-885 | without an error every row from StartKey through the last end is filled, and covered exactly once when lookups succeed, at least once otherwise |
| `BackfillJob.ResumeDecides` | ddl/backfilling.go:801-885 | a second run of the whole loop from the saved key fills the table if and only if the boundary row below that key is filled, which without concurrent statements was decided when the first run stopped |
| `ReorgElements.Reorg.FindElement` | ddl/column.go:1113-1123 | the loop resumes with the saved index, or with the first one |
| `ReorgElements.Reorg.UpdateCurrentElement` | ddl/column.go:1078-1155 | from every saved element and key, wherever it stops and whichever save fails, it backfills the saved element from the saved key and then each later one from the start, in order, up to where it stops; the saved information stays true of what is done; a return without an error means all of them were backfilled and are done over the whole range |
| `ReorgElements.Reorg.RunToTheEnd` | ddl/column.go:1078-1155 | over any number of workers, each stopped somewhere, the first to get through leaves every element done |
| `AutoIDArithmetic.NeededOne` | autoid_service/autoid.go:351-366 | the shortcut for increment 1 agrees with the general formula |
| `AutoIDArithmetic.SizeIsRaw` | autoid_service/autoid.go:337-366 | for every request and base the wrapped 64-bit computation is n increments less the remainder of the wrapped base + increment - offset, cut to an int64 |
| `AutoIDArithmetic.NeededUnsigned` | autoid_service/autoid.go:345-366 | the unsigned size before the cut is exact while base + increment - offset fits, and above n - 1 and at most n increments for every base |
| `AutoIDArithmetic.NeededSigned` | autoid_service/autoid.go:338-366 | the signed size before the cut is exact while base + increment - offset fits, and otherwise too large for what is left |
| `AutoIDArithmetic.NeededBounds` | autoid_service/autoid.go:351-366 | n values take between (n-1)*increment+1 and n*increment IDs |
| `AutoIDArithmetic.NeededHoldsExactlyN` | autoid_service/autoid.go:338-366 | an interval of that length holds exactly n IDs congruent to offset, the last one included |
| `AutoIDService.AutoIDValue.RebaseTo` | autoid_service/autoid.go:175-241 | both rebase forms as a function of segment and counter, with the failing transaction |
| `AutoIDRebase.RebaseReaches` | autoid_service/autoid.go:175-241 | for every segment, counter and value: a rebase fails only with its transaction; otherwise the base is at or above the value, in the cached segment if that reaches it, else at the larger of value and counter with a new batch behind it |
| `AutoIDService.AutoIDValue.AllocN` | autoid_service/autoid.go:62-173 | a whole allocation: the offset rebase, then the allocation |
| `AutoIDService.AutoIDValue.AllocFromSegment` | autoid_service/autoid.go:121-172 | allocation from the cached segment or from a new one, with every failure and 64-bit wrap |
| `AutoIDService.AutoIDValue.Close` | autoid_service/autoid.go:319-335 | closing puts a positive base back into the counter and empties the segment |
| `AutoIDUniqueness.ForwardExact` | autoid_service/autoid.go:62-173 | for every request, both signednesses and every segment and counter: the call fails or hands out a non-empty interval at or below the new counter if and only if the sizes it computes do not wrap |
| `AutoIDUniqueness.FitsMeansNoWrap` | autoid_service/autoid.go:62-173 | sizes and sums that fit the 64-bit range are enough for that |
| `AutoIDUniqueness.StepKeeps` | autoid_service/autoid.go:62-241 | every step of every instance keeps segments and handed-out intervals disjoint and at or below the counter |
| `AutoIDUniqueness.UniqueIds` | autoid_service/autoid.go:62-241 | over every run of any number of instances, with every request that does not wrap, no ID is handed out twice |
| `AutoIDUniqueness.AllocIsTwoSteps` | autoid_service/autoid.go:115-173 | a whole allocation is its rebase step followed by its allocation step, between which others may act |
| `AutoIDUniqueness.AllocExact` | autoid_service/autoid.go:115-173 | an allocation that does not wrap holds exactly n IDs congruent to offset and ends on one if and only if the size before the cut is the needed one and fits 64 bits |
| `AutoIDRebase.AllocTakes` | autoid_service/autoid.go:62-173 | an allocation that does not wrap uses the cached segment exactly when it is large enough; else it fails exactly when its transaction does or the counter has no room, and otherwise fetches one batch, the size it needs, or what is left |
| `AutoIDRebase.WholeAllocExact` | autoid_service/autoid.go:62-173 | a whole allocation hands out nothing below the offset, and exactly n IDs congruent to it if and only if the size before the cut is the needed one and fits 64 bits |
| `AutoIDRebase.RebaseHolds` | autoid_service/autoid.go:175-241 | in every run, once a rebase of an instance to a value has succeeded, that instance hands out nothing at or below the value as long as it is not closed |
| `AutoIDRebase.ClosedInstanceForgets` | autoid_service/autoid.go:319-335 | a run in which an instance used on after its own close takes a rebase to 3000 as done and hands out 101 |
| `AutoIDUniqueness.SizeIsNeeded` | autoid_service/autoid.go:337-366 | it is the needed one while base + increment - offset fits, and for a signed size within what is left |
| `AutoIDUniqueness.UnsignedOverflowRepeatsIds` | autoid_service/autoid.go:62-113 | four calls after which an ID is handed out again |
| `AutoIDUniqueness.LargeCountRepeatsIds` | autoid_service/autoid.go:62-113 | a count of 2^63 passes the counter, and the next ID handed out lies in that interval |
| `AutoIDUniqueness.SignedSizeGoesBackwards` | autoid_service/autoid.go:115-173 | a signed request whose size with increment 2 wraps returns an interval that ends below its start |
| `AutoIDClose.CloseExact` | autoid_service/autoid.go:319-335 | after closing an instance some continuation hands out an ID twice if and only if its base is stored and an ID above it was handed out or is cached elsewhere; a base that is not positive as an int64 is not stored |
| `AutoIDClose.GuardDecides` | autoid_service/autoid.go:319-335 | an instance whose end is the counter can close safely, and when the counter's last ID is taken only such a one can |
| `AutoIDClose.FreshInstanceContinues` | autoid_service/autoid.go:62-173 | after a close a whole allocation by a fresh instance continues at the closed base if and only if the size fits: above the base without an offset, in the segment of the offset rebase with one |
| `AutoIDClose.CloseWithoutGuardRepeatsIds` | autoid_service/autoid.go:319-335 | two instances, an unguarded close, and an ID handed out twice |
| `ColumnOrder.MoveAt` | parser/model/model.go:877-898 | after a move every element is at its new index and every index holds the element of its old index |
| `ColumnOrder.LocateIsRight` | ddl/column.go:1035-1057 | the located offset puts the column first, right behind the named one, or leaves it in place |
| `TableInfo.Info.MoveColumnInfo` | parser/model/model.go:877-907 | the shifting loops and the offset rewriting are the move on columns and index columns |
| `TableInfo.MoveKeepsLinks` | parser/model/model.go:877-907 | a move keeps columns numbered and distinct and every index column on the column of its name |
| `TableInfo.SameLookup` | parser/model/model.go:1463-1470 | in a linked index, looking a column up by offset, by name or by ID is the same |
| `ColumnMethods.IsDroppable` | ddl/ddl_api.go:6762-6780 | the checks on indexes and on the last column refuse exactly the only column and those in a primary or composite index |
| `ColumnMethods.OnDropColumn` | ddl/column.go:231-314 | one round of the drop, refusals and invalid states included |
| `ColumnMethods.OnAddColumn` | ddl/column.go:105-191 | one round of the add-column job, forward or rolling back |
| `ColumnJobs.AddRuns` | ddl/column.go:105-191 | over every run with failures and cancellations: offsets equal positions, public columns are a prefix, index columns point at their columns; ending without the column restores columns and indexes exactly; ending with it gives the old table with the column at its place |
| `ColumnJobs.AddCompletes` | ddl/column.go:105-191 | four rounds without errors complete the job if and only if the column is new, its place exists and the table has room |
| `JobResults.AddRunTables` | ddl/column.go:105-191 | in every run: until it is done the new column is last, as the statement defines it and not public; then it stands where the clause asks for it; no index changes but in offsets, and no public index is on a column that is not public |
| `ColumnJobs.RollbackCompletes` | ddl/rollingback.go:154-176 | once a rollback has begun, two rounds complete it |
| `ColumnJobs.DropExtended` | ddl/column.go:279-306 | dropping the column just added takes two rounds and leaves the table as it was |
| `ColumnJobs.LaterDropRound` | ddl/column.go:264-306 | every later round of a drop finds the column last and moves on |
| `ColumnJobs.DropRuns` | ddl/column.go:231-314 | over every run the invariant holds; a finished drop has removed exactly the column and its single-column indexes, with offsets adjusted; a cancelled one nothing |
| `ColumnJobs.DropCompletes` | ddl/column.go:231-314 | four rounds without errors complete the drop if and only if it is allowed and the column exists and can be dropped |
| `JobResults.DropRunTables` | ddl/column.go:231-314 | in every run: the column is last and not public once the job has begun; while it is write-only every index on it is write-only and every other one keeps its state; after that exactly the indexes on it are gone; no public index is ever on a column that is not public |
| `ColumnJobs.NothingMentions` | ddl/column.go:1745-1753 | once the single-column indexes are gone no index mentions the dropped column |
| `ModifyColumn.RelatedAtFacts` | ddl/index.go:1967-1996 | the positions found are exactly those of the indexes on the column, in order |
| `ColumnMethods.SetUpChanging` | ddl/column.go:561-602 | the set-up appends the changing column and one temporary index per index on the old column |
| `ColumnMethods.AddTempIndexes` | ddl/column.go:583-594 | the loop gives each temporary index the next ID, an unused name and the changing column |
| `ColumnMethods.RemoveChangingColAndIdxs` | ddl/column.go:656-672 | the indexes on the changing column and the column itself are removed, the rest is kept in order |
| `ColumnMethods.ReplaceOldIndexes` | ddl/column.go:913-942 | the temporary indexes are taken out and each is put where its origin name is found |
| `ModifyRuns.TempsAt` | ddl/column.go:583-594 | each temporary index is its original on the changing column, under a new ID and a name that leads back |
| `ModifyRuns.TempsDistinct` | ddl/column.go:583-594 | temporary indexes clash neither with the others nor with each other |
| `ModifyRuns.WhoHasIt` | ddl/column.go:1014-1022 | while the job runs exactly the temporary indexes are on the changing column |
| `ModifyRuns.RollbackMiddle` | ddl/column.go:631-672 | rolling back from any state gives the original columns, flags and indexes |
| `ModifyRuns.ReplaceOldAt` | ddl/column.go:913-942 | each temporary index ends where its original was and the others stay |
| `ModifyRuns.AdjustMiddle` | ddl/column.go:879-902 | completing the job puts the new column in place of the old one and moves it where the clause says, with every index on the old column replaced by one of the same name on the new column |
| `ModifyRuns.DoneWellFormed` | ddl/column.go:879-954 | the completed table satisfies the invariant |
| `JobResults.ModifyRunTables` | ddl/column.go:509-628 | in every run: while it runs the changing column is last and not public, with one temporary index per index on the old column; when it is done the new column is where the clause says in place of the old one, and every index column that was on it has its old length where the new type takes a prefix that long and no length otherwise; no public index is on a column that is not public |
| `JobResults.ModifyStateSteps` | ddl/column.go:674-794 | one more step of any run takes the changing column at most one state further |
| `ModifyRuns.ModifyRunsFine` | ddl/column.go:509-613 | over every run the invariant holds, a rolled-back job has restored columns and indexes exactly, a completed one leaves the described table |
| `ModifyRuns.AdjustSucceeds` | ddl/column.go:879-902 | completing fails if and only if the place asked for does not exist or is the modified column itself |
| `ModifyRuns.ModifyCompletes` | ddl/column.go:674-794 | four rounds without errors complete the job if and only if its names and its place fit |
| `ModifyRuns.RestoresUnlessClash` | ddl/column.go:524-530 | every run that ends without success restores the table if and only if the new name is not the job's own internal name |
| `ModifyRuns.RenameToTheInternalName` | ddl/column.go:524-530 | a table of one column for which it does not |
| `ModifyInPlace.ReplaceKeeps` | ddl/column.go:1496-1515 | a change without data keeps the invariant, the column's ID and every index, and renames the index columns on it |
| `ModifyInPlace.ReplaceMeans` | ddl/column.go:1496-1515 | it fails exactly when the clause names no other column; otherwise the column has its old ID and the new definition and stands where the clause says among the others, and every index keeps ID, name and state, its columns carried over with their lengths |
| `ChangingNames.Pigeonhole` | ddl/column.go:1895-1909 | suffixes are distinct, so no more of them can be taken than there are names |
| `ChangingNames.FirstFree` | ddl/column.go:1895-1909 | the loop ends for every finite set of names with the least free suffix |
| `ChangingNames.GenChangingUniqueName` | ddl/column.go:1895-1925 | the generated column or index name is unused, whatever the case of its letters |
| `ChangingNames.OriginRoundTrip` | ddl/column.go:1927-1944 | the origin name of a generated name is the name it was made from, for every name |
| `ChangingNames.LowerFolds` | ddl/column.go:1895-1909 | two names are taken for one exactly when they differ in case only |
| `ChangingNames.TrimPrefixUndoes` | ddl/column.go:1927-1944 | the prefix is taken off once, and only where it is |
| `SchemaSync.AddFirstAgrees` | ddl/column.go:131-151 | the first round of the protocol, and a cancellation before it, leave column and job as the first round of the add-column job on the table does |
| `SchemaSync.AddRoundsAgree` | ddl/column.go:140-169 | so do the middle rounds |
| `SchemaSync.AddFinishAgrees` | ddl/column.go:170-188 | so does the last round, and a cancellation that finds the column public |
| `SchemaSync.AddCancelAgrees` | ddl/rollingback.go:154-176 | so does the start of a rollback |
| `SchemaSync.RollbackAgrees` | ddl/column.go:279-306 | so do the rounds of a rollback |
| `SchemaSync.DropFirstAgrees` | ddl/column.go:247-263 | so do the first round of the drop-column job and a cancellation before it |
| `SchemaSync.DropRoundsAgree` | ddl/column.go:264-306 | so do the later rounds of the drop-column job, the last one included |
| `SchemaSync.DropCancelAgrees` | ddl/rollingback.go:178-208 | so does a cancellation of a drop that has begun, which goes on |
| `SchemaSync.AtMostOneVersionApart` | ddl/ddl_worker.go:929-1072 | over every run that skips no wait, with crashes and elections, servers are at most one version apart |
| `SchemaSync.AtMostOneStateApart` | ddl/ddl_worker.go:1433-1459 | over every run in which no wait fails, with crashes, elections and cancellations at any moment, any two servers see the column in the same state or in states joined by an edge of the state diagram |
| `SchemaProgress.WaitComesFirst` | ddl/ddl_worker.go:1360-1459 | after a crash, an election or a round that stores a version, no round runs before a wait has ended |
| `SchemaProgress.NeverStuck` | ddl/ddl_worker.go:929-1072 | whatever has happened, failed waits, crashes and cancellations included, some continuation that skips no wait brings the job to its end |
| `FailedWaits.HarmlessRunsStayClose` | ddl/ddl_worker.go:1360-1399 | over every run, with any number of failed waits each harmless when it happens, any two servers see states at most one edge apart |
| `FailedWaits.FailedWaitExact` | ddl/ddl_worker.go:1360-1399 | in every such situation, for every kind and job state, one failed wait lets servers drift more than one state apart with no further failure if and only if the next round's state does not fit some version a server has or can still load |
| `FailedWaits.ServerBehindDecides` | ddl/ddl_worker.go:1360-1399 | after a run that skipped nothing, any one server that is behind decides this by its own state |
| `SchemaSync.FailedWaitBreaksIt` | ddl/ddl_worker.go:1384-1393 | a failed wait lets one server write a column another does not know |
| `SchemaSync.NextOwnerDoesNotWait` | ddl/ddl_worker.go:1433-1436 | a job cancelled after a crash makes the next owner skip the wait: two versions lie between servers |
| `VersionLock.MutualExclusion` | ddl/ddl.go:385-414 | in every run of any number of jobs the lock has at most one holder |
| `VersionLock.OnlyTheHolderActs` | ddl/ddl_worker.go:856-898 | only the holder unlocks or generates a version, and a job that has returned does not hold the lock |
| `VersionLock.HolderIsNeverBlocked` | ddl/ddl.go:397-406 | the holder can always take a step: it never waits for itself |
| `VersionLock.OneJobIsPending` | ddl/ddl.go:385-395 | undecided versions belong to one job, which holds the lock, and are the newest |
| `VersionLock.TransactionDecides` | ddl/ddl_worker.go:856-898 | in every run an undecided version is written if the next end of its job's transaction is a commit and dropped if it is not, whatever the other jobs do, and a decided one never changes |
| `VersionLock.UndecidedAreGenerated` | ddl/ddl.go:385-414 | in every run a job's undecided versions are as many as it has generated since its last transaction ended |
| `VersionLock.OlderVersionsAreDecided` | meta/meta.go:378-407 | in every run everything below the newest version is decided if and only if the holder of the lock has generated at most one version in its open transaction |
| `VersionLock.ReenteringLeavesTwoPending` | ddl/ddl.go:397-406 | a run with two undecided versions |
| `BindRecords.Merge` | bindinfo/bind_record.go:201-226 | the nested loops are the fold that replaces the first same binding when newer and appends otherwise |
| `BindRecords.MergeMeans` | bindinfo/bind_record.go:201-226 | each binding of the left record stays in its place, replaced by the same one of the right record unless that is older, and the other bindings of the right record follow in order |
| `BindRecords.RemoveBindings` | bindinfo/bind_record.go:228-244 | the nested loops take out the first same binding for each given one; no binding given takes out all |
| `BindRecords.RemoveAllFilters` | bindinfo/bind_record.go:228-244 | what is left is exactly the bindings that are the same as none of the given ones, in their order |
| `BindRecords.RemoveDeletedBindings` | bindinfo/bind_record.go:246-254 | the loop drops the bindings marked deleted |
| `BindRecords.NotDeletedFilters` | bindinfo/bind_record.go:246-254 | exactly the bindings not marked deleted stay, in order |
| `BindRecords.RemoveShrinks` | bindinfo/bind_record.go:272-278 | removing bindings never makes a record larger |
| `BindCache.EvictToIsLongest` | bindinfo/bind_cache.go:96-119 | eviction keeps the most recent entries, as many as fit |
| `BindCache.Cache.Get` | bindinfo/bind_cache.go:68-75 | a hit returns the value and moves the entry to the front, a miss changes nothing |
| `BindRemoval.PromoteIsRecent` | util/kvcache/simple_lru.go:89-97 | a hit makes its entry the most recent and leaves the others in their order |
| `BindCache.Cache.RemoveOldest` | util/kvcache/simple_lru.go:221-230 | the least recent entry goes, and its memory with it |
| `BindCache.Cache.Evict` | bindinfo/bind_cache.go:105-114 | the loop keeps the replaced entry, evicts the least recent others only as far as needed and never runs out of entries |
| `BindCache.Cache.Set` | bindinfo/bind_cache.go:96-119 | a value whose own size fits is always stored and usage ends within capacity; the error is reported exactly when something was evicted or the value is too large |
| `BindCache.Cache.Delete` | bindinfo/bind_cache.go:123-132 | the entry and its memory go |
| `BindCache.Cache.SetMemCapacity` | bindinfo/bind_cache.go:226-231 | lowering the capacity evicts nothing |
| `BindCache.Cache.GetBindRecord` | bindinfo/bind_cache.go:137-147 | the first record of that SQL text under the digest, if any |
| `BindCache.Cache.SetBindRecord` | bindinfo/bind_cache.go:183-195 | the record becomes the only one under its digest, or nothing changes |
| `BindCache.Cache.RemoveBindRecord` | bindinfo/bind_cache.go:199-222 | the bindings are removed, an empty list deletes the entry, and a list that does not fit leaves everything |
| `BindCache.RemoveTakesEffect` | bindinfo/bind_cache.go:199-222 | while usage is within capacity a removal takes effect and evicts nothing |
| `BindRemoval.LeftMeans` | bindinfo/bind_cache.go:207-218 | a record of another statement stays; of this one the bindings that are the same as none of the given ones stay in order, and a record without any goes |
| `BindRemoval.RemovedIsGone` | bindinfo/bind_cache.go:199-222 | while usage is within capacity: afterwards no record of that statement holds a binding that is the same as a given one, every other binding is still held, and records of other statements are untouched |
| `BindRemoval.WithoutKeepsOrder` | bindinfo/bind_cache.go:123-132 | taking an entry out keeps the others in their order of recency |
| `BindCache.Cache.Copy` | bindinfo/bind_cache.go:251-269 | a copy that fits holds the same entries in reverse order of recency, a copy that does not fit a part of them with an error |
| `BindRemoval.CopyReversesRecency` | bindinfo/bind_cache.go:251-269 | the order of recency is turned around: the entry used last becomes the next to be evicted |
| `BindUpdate.LoadInParts` | bindinfo/handle.go:157-197 | loading rows in two parts is loading them at once |
| `BindUpdate.FullLoad` | bindinfo/handle.go:157-197 | for each SQL the load holds exactly the bindings whose last row is not deleted, without twins |
| `BindUpdate.IncrementalIsFull` | bindinfo/handle.go:136-205 | an incremental update gives the bindings a fresh load of the table would give, with superseded rows deleted or not |
| `BindUpdate.KeptIs` | bindinfo/handle.go:136-205 | the rows kept are exactly those not deleted, in their order |
| `BindUpdate.UpdateRow` | bindinfo/handle.go:164-196 | one round of the loop on the cache is one step of the fold |
| `BindUpdate.BindHandle.Update` | bindinfo/handle.go:136-205 | unless memory is exceeded the published cache holds the fold of all rows over the old contents, and the last update time is the newest of the rows; memory is reported as exceeded only if the old contents or some prefix of the rows needs more than the quota |
| `UsedColumns.PopMarked` | ddl/index_cop.go:348-369 | popping a marked column makes the queue position of the first unmarked one smaller |
| `UsedColumns.QueueDependencies` | ddl/index_cop.go:357-366 | the unmarked dependencies are queued in any order, and a missing one is an error |
| `UsedColumns.FillUsedColumns` | ddl/index_cop.go:348-369 | the worklist ends on every graph, cycles and duplicates included; from a closed start set it succeeds if and only if all reachable dependencies exist and marks exactly the start set and the reachable columns |
| `UsedColumns.ResolveIndices` | ddl/index_cop.go:371-396 | the loops resolve the given IDs one by one, missing ones skipped |
| `UsedColumns.ResolveExact` | ddl/index_cop.go:371-396 | exactly the IDs that are present are resolved, in order, each to the first position of its column |
| `UsedColumns.NewCopContext` | ddl/index_cop.go:277-346 | exactly the needed columns are read, in table order, and every index and handle column resolves to its own offset |
| `UsedColumns.SelectedInOrder` | ddl/index_cop.go:277-346 | the columns read are the marked ones in table order |
| `GeneratedColumns.VerifyColumnGeneration` | ddl/generated_column.go:40-58 | accepts if and only if every dependency exists and generated ones are earlier; each error names its reason |
| `GeneratedColumns.FindPositionRelativeColumn` | ddl/generated_column.go:96-121 | the position of the clause, or an error exactly when the named column is missing |
| `GeneratedColumns.CheckModifyRuleTwo` | ddl/generated_column.go:203-246 | building the map and verifying every column decides rule 2 |
| `GeneratedColumns.RuleTwoIsExact` | ddl/generated_column.go:203-246 | rule 2 accepts if and only if the columns after the actual move are in a legal order and the tie does not occur |
| `GeneratedColumns.RuleTwoRefusesALegalMove` | ddl/generated_column.go:203-246 | the tie on three columns |
| `GeneratedColumns.NoCycles` | ddl/generated_column.go:40-58 | in a legal order no chain of generated columns of any length returns to its start |
| `GeneratedColumns.CheckDependedColExist` | ddl/generated_column.go:81-93 | accepts if and only if every dependency is a visible column |
| `GeneratedColumns.VerifyColumnGenerationSingle` | ddl/generated_column.go:61-77 | accepts if and only if the position exists and generated dependencies are before it |
| `GeneratedColumns.AddKeepsLegal` | ddl/generated_column.go:61-77 | adding a generated column keeps the order legal if and only if its dependencies exist and the generated ones are before it; adding any other column always does |
| `GeneratedColumns.CheckAddGenerated` | ddl/ddl_api.go:3667-3699 | the two checks together accept if and only if the position exists, the order with the new column is legal and no dependency is hidden |
| `GeneratedColumns.CreateIsExact` | ddl/generated_column.go:40-58 | verifying every column of a new table is exactly a legal order |
| `Flashback.PrefixOrder` | tablecodec/tablecodec.go:968-973 | table prefixes are ordered as the signed IDs are |
| `Flashback.GetFlashbackKeyRanges` | ddl/cluster.go:281-301 | the ranges are ascending and disjoint; an ID of the list is in one if and only if it is not excluded; and any ID is in one if and only if it lies between two listed ones with no excluded one from the first to the second |
| `Flashback.RangesOnKeys` | ddl/cluster.go:256-304 | every key of a table that is not excluded is in exactly one range, no key of an excluded table in any |
| `Flashback.SendToRegions` | ddl/cluster.go:308-376 | for every region layout the walk ends; a successful one sends requests that tile the range, each inside one region; one that fails does so at a request that fails, and those sent before tile the range up to it |
| `Flashback.TilesOnce` | ddl/cluster.go:308-376 | tiling requests hold every key of the range exactly once and no other key |

## Left out

- Backfill: rows inserted or deleted while a task runs (the key set of a snapshot is fixed; which rows hold the new
  column may change), key ranges without a start or end key, and rows of other tables between the row keys.
- Backfill: the worker pool's resizing is a step that adds or removes idle workers; `drainTasks` is one atomic step, and
  the coprocessor request pool is not modelled.
- BackfillJob.WritePhysicalTableRecord: saving the key after a batch always succeeds; a save that fails leaves an older key.
- ReorgElements.Reorg.UpdateCurrentElement: a saved checkpoint is taken to be safe in the sense of `CheckpointSafety`, and
  the original range to stay the same between attempts.
- Auto-IDs: requests for zero IDs, forced rebase to a lower value, and leader election. Concurrent calls on one instance
  are atomic steps.
- Column jobs: several modify-column sub-jobs in one statement, so no temporary index exists before the job; foreign keys,
  TTL, partitions, hidden columns, auto-random bits and original default values; lower-casing is ASCII in the table model.
- Column jobs: the job queue, metadata locks, and a lease of zero, for which nothing waits.
- SchemaSync.AtMostOneStateApart: the rollback's short cut from write-reorganization to delete-only counts as an edge,
  because the code takes it in one version.
- Bindings: sizes are integers where the code adds floating-point numbers; hint preparation is a flag of the row; the
  writing side (create, drop, evolve, garbage collection) and the session-level bindings are not modelled.
- BindRecords.RemoveAllFilters, BindRecords.MergeMeans, BindRemoval.RemovedIsGone: the bindings of a record are taken to be
  without twins and being the same binding to be transitive among them and the given ones; with twins only the first goes.
- BindUpdate.IncrementalIsFull: needs digests to be distinct and being the same binding to be transitive among the rows
  of a statement, which two-way identity by text or digest does not give by itself.
- Flashback: collecting and sorting the IDs, retries of a request, and regions that split or merge during a walk.
- Flashback.GetFlashbackKeyRanges: starts from the sorted list of distinct IDs.
- SQL execution, etcd, PD and TiKV calls, metrics, logging, failpoints and sleeps appear only as steps or outcomes.
