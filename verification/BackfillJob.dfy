/** A whole backfill: rounds of batches run by the master and its workers on one table, and a restart (ddl/backfilling.go). */
module BackfillJob {
  import opened Keys
  import opened BackfillWorker
  import opened BackfillRanges
  import opened BackfillProtocol
  import opened BackfillCheckpoint

  /** A batch and how master and workers go through it. */
  datatype Batch = Batch(start: State, steps: seq<Step>)

  /** Master and workers go on until the master is finished, whatever else they do. */
  ghost predicate Finishes(batch: Batch) {
    match batch
    case Batch(start, steps) => ValidRun(start, steps) && Finished(RunState(start, steps))
  }

  predicate Pool(workers: seq<Worker>) {
    |workers| >= 1 && !workers[0].cancelled && forall i :: 0 <= i < |workers| ==> workers[i].phase.Idle?
  }

  /**
    What surrounds one attempt, round by round: the region splits, whether a split and an end-key lookup succeed, the
    worker pool, the interleaving of master and workers, and whether the job may go on after the batch.
   */
  datatype Attempt = Attempt(split: (nat, Key) -> seq<KeyRange>, splitOk: nat -> bool, found: (nat, nat) -> bool,
                             pool: nat -> seq<Worker>, schedule: (nat, State) -> seq<Step>, runnable: nat -> bool)

  function FoundIn(a: Attempt, n: nat): nat -> bool {
    (i: nat) => a.found(n, i)
  }

  function ScheduleOf(a: Attempt, n: nat): State -> seq<Step> {
    (s: State) => a.schedule(n, s)
  }

  ghost predicate Possible(a: Attempt, endKey: Key, bounds: set<Key>, limit: nat) {
    && Splits(a.split, endKey, bounds, limit)
    && (forall n: nat :: Pool(a.pool(n)))
    && (forall n: nat, s :: Init(s) ==> Finishes(Batch(s, a.schedule(n, s))))
  }

  lemma FinishingRun(s: State)
    requires Init(s)
    ensures exists steps :: Finishes(Batch(s, steps))
  {
    var steps := CanFinish(s, []);
    assert Finishes(Batch(s, steps));
  }

  /** There is an interleaving for every start, so a schedule as above exists. */
  ghost function SomeSchedule(s: State): (steps: seq<Step>)
    ensures Init(s) ==> Finishes(Batch(s, steps))
  {
    if Init(s) then
      FinishingRun(s);
      var steps :| Finishes(Batch(s, steps)); steps
    else []
  }

  // ----- One batch -----

  lemma {:induction false} DoneMapValue(rs: seq<Report>, id: nat)
    requires id in DoneMap(rs)
    ensures exists i :: 0 <= i < |rs| && rs[i].id == id && rs[i].ok && rs[i].nextKey == DoneMap(rs)[id]
    decreases |rs|
  {
    var n := |rs| - 1;
    if rs[n].ok && rs[n].id == id {
      assert DoneMap(rs)[id] == rs[n].nextKey;
    } else {
      DoneMapValue(rs[..n], id);
      var i :| 0 <= i < n && rs[..n][i].id == id && rs[..n][i].ok && rs[..n][i].nextKey == DoneMap(rs[..n])[id];
      assert rs[i] == rs[..n][i];
    }
  }

  /** Every task the master counts as done has its rows filled and its own next key. */
  ghost predicate Accounted(keys: seq<Key>, tasks: seq<Task>, done: map<nat, Key>, filled: set<Key>) {
    forall id: nat :: id in done ==> id < |tasks| && done[id] == Next(tasks[id].endKey) && TaskFilled(keys, tasks[id], filled)
  }

  lemma GotIsAccounted(s: State, before: set<Key>)
    requires FilledInv(s, before)
    ensures Accounted(s.job.keys, s.job.tasks, DoneMap(s.got), s.filled)
  {
    forall id: nat | id in DoneMap(s.got)
      ensures && id < |s.job.tasks| && DoneMap(s.got)[id] == Next(s.job.tasks[id].endKey)
              && TaskFilled(s.job.keys, s.job.tasks[id], s.filled)
    {
      DoneMapValue(s.got, id);
      var i :| 0 <= i < |s.got| && s.got[i].id == id && s.got[i].ok && s.got[i].nextKey == DoneMap(s.got)[id];
      assert Truthful(s, s.got[i]);
    }
  }

  /** The start of a batch: nothing sent yet. */
  function BatchStart(keys: seq<Key>, tasks: seq<Task>, quiet: bool, filled: set<Key>, workers: seq<Worker>): State {
    State(Job(keys, tasks, quiet), filled, |tasks|, 0, [], workers, [], [], [], |tasks|, [])
  }

  /** `done` are exactly the tasks whose success the master has read in the batch, and `filled` the rows filled by its end. */
  ghost predicate ReadIn(batch: Batch, done: map<nat, Key>, filled: set<Key>) {
    match batch
    case Batch(start, steps) =>
      && Finishes(batch) && RunState(start, steps).filled == filled
      && forall id: nat :: id in done <==> DoneOk(RunState(start, steps).got, id)
  }

  /** How many tasks from number i on are done without a gap. */
  function PrefixLength(done: map<nat, Key>, i: nat, total: nat): (p: nat)
    requires i <= total
    ensures i <= p <= total && (forall k: nat :: i <= k < p ==> k in done) && (p < total ==> p !in done)
    decreases total - i
  {
    if i < total && i in done then PrefixLength(done, i + 1, total) else i
  }

  /** What a batch leaves: the rows filled, whether there was an error, the next keys of the tasks done, the length of the
      finished prefix, and the key saved. */
  datatype BatchResult = BatchResult(filled: set<Key>, err: bool, done: map<nat, Key>, p: nat, saved: Key)

  /** A batch, run as its steps say; `runnable` says whether the job may go on after it. */
  function RunBatch(batch: Batch, runnable: bool): BatchResult
    requires Finishes(batch) && batch.start.job.tasks != []
  {
    var end, tasks := RunState(batch.start, batch.steps), batch.start.job.tasks;
    var done := DoneMap(end.got);
    var p := PrefixLength(done, 0, |tasks|);
    BatchResult(end.filled, AnyError(end.got) || !runnable, done, p, if p == 0 then tasks[0].startKey else done[p - 1])
  }

  /** The finished prefix is determined by the tasks that are done. */
  lemma PrefixIs(done: map<nat, Key>, total: nat, p: nat)
    requires LongestPrefix(done, p) && forall id: nat :: id in done ==> id < total
    ensures PrefixLength(done, 0, total) == p
  {
    var q := PrefixLength(done, 0, total);
    if p > 0 { assert p - 1 in done; }
  }

  /** sendTasksAndWait: the workers run the batch in any interleaving, the master reads the results. */
  method SendTasksAndWait(batch: Batch, runnable: bool) returns (r: BatchResult)
    requires Init(batch.start) && batch.start.job.tasks != [] && Finishes(batch)
    ensures r == RunBatch(batch, runnable)
  {
    var end, tasks := RunState(batch.start, batch.steps), batch.start.job.tasks;
    FinishedRun(batch.start, batch.steps);
    GotIsAccounted(end, batch.start.filled);
    var nextKey, failed, p := WaitTaskResults(tasks[0].startKey, |tasks|, end.got, end.drains);
    PrefixIs(DoneMap(end.got), |tasks|, p);
    r := BatchResult(end.filled, failed || !runnable, DoneMap(end.got), p, nextKey);
  }

  /**
    What a batch means. The key saved is the checkpoint of exactly the tasks whose success was read, and those have their
    rows filled; there is an error exactly when some task has not reported success or the job may not go on.
   */
  lemma BatchMeans(batch: Batch, runnable: bool)
    requires Init(batch.start) && batch.start.job.tasks != [] && Finishes(batch)
    ensures var r, job := RunBatch(batch, runnable), batch.start.job;
            && batch.start.filled <= r.filled && ReadIn(batch, r.done, r.filled)
            && IsCheckpoint(job.tasks[0].startKey, r.done, r.p, r.saved) && Accounted(job.keys, job.tasks, r.done, r.filled)
            && (r.err <==> !runnable || exists id: nat :: id < |job.tasks| && id !in r.done)
            && (job.quiet ==> forall k :: k in r.filled ==> k in batch.start.filled || InSomeTask(job, k))
  {
    var end := RunState(batch.start, batch.steps);
    FinishedRun(batch.start, batch.steps);
    GotIsAccounted(end, batch.start.filled);
    forall id: nat ensures id in DoneMap(end.got) <==> DoneOk(end.got, id) { DoneMapKeys(end.got, id); }
  }

  /** The tasks handleRangeTasks builds for a split that keeps to the limit: one per range. */
  ghost predicate TasksFor(keys: seq<Key>, prefix: Key, ranges: seq<KeyRange>, found: nat -> bool, tasks: seq<Task>) {
    |tasks| == |ranges| && forall i :: 0 <= i < |tasks| ==> tasks[i] == RangeTask(keys, prefix, ranges, i, found(i))
  }

  /** What the last batch has saved: the key of its finished prefix of p tasks. */
  ghost predicate Saved(keys: seq<Key>, startKey: Key, tasks: seq<Task>, p: nat, key: Key, filled: set<Key>) {
    p <= |tasks| && Le(startKey, key) && AllButBoundary(keys, startKey, key, tasks, p, filled)
  }

  /** Only rows from `startKey` on have been filled. */
  ghost predicate OnlyFrom(startKey: Key, before: set<Key>, after: set<Key>) {
    forall k :: k in after && k !in before ==> Le(startKey, k)
  }

  lemma TaskRowsFrom(keys: seq<Key>, prefix: Key, ranges: seq<KeyRange>, startKey: Key, endKey: Key, bounds: set<Key>,
                     found: nat -> bool, tasks: seq<Task>, quiet: bool, k: Key)
    requires Sorted(keys) && ValidSplit(ranges, startKey, endKey, bounds) && TasksFor(keys, prefix, ranges, found, tasks)
    requires HasPrefix(startKey, prefix) && HasPrefix(endKey, prefix) && InSomeTask(Job(keys, tasks, quiet), k)
    ensures Le(startKey, k)
  {
    var id, i :| 0 <= id < |tasks| && 0 <= i < |keys| && RowOf(keys, tasks[id], i) && keys[i] == k;
    RangePrefixes(ranges, startKey, endKey, bounds, prefix, id);
    RankMonotone(keys, startKey, ranges[id].startKey);
    RankCounts(keys, startKey);
    LtTotal(startKey, k);
  }

  /** All tasks of a batch done: every row up to and including the end of its last range is filled. */
  lemma WholeBatchFilled(keys: seq<Key>, prefix: Key, ranges: seq<KeyRange>, startKey: Key, endKey: Key, bounds: set<Key>,
                         found: nat -> bool, tasks: seq<Task>, done: map<nat, Key>, filled: set<Key>)
    requires Sorted(keys) && ValidSplit(ranges, startKey, endKey, bounds) && TasksFor(keys, prefix, ranges, found, tasks)
    requires HasPrefix(startKey, prefix) && HasPrefix(endKey, prefix)
    requires Accounted(keys, tasks, done, filled) && forall id: nat :: id < |tasks| ==> id in done
    ensures FilledBelow(keys, startKey, Next(ranges[|ranges| - 1].endKey), filled)
  {
    var m := |tasks|;
    BatchCoverage(keys, prefix, ranges, startKey, endKey, bounds, tasks, found, m);
    assert tasks[..m] == tasks;
    forall t | t in tasks ensures TaskFilled(keys, t, filled) {
      var id :| 0 <= id < m && tasks[id] == t;
      assert id in done;
    }
    forall i | Rank(keys, startKey) <= i < Rank(keys, Next(ranges[m - 1].endKey)) ensures keys[i] in filled {
      CoveredRowIsFilled(tasks, keys, filled, i);
    }
  }

  lemma SavedKey(keys: seq<Key>, prefix: Key, ranges: seq<KeyRange>, startKey: Key, endKey: Key, bounds: set<Key>,
                 found: nat -> bool, tasks: seq<Task>, done: map<nat, Key>, filled: set<Key>, p: nat, key: Key)
    requires Sorted(keys) && ValidSplit(ranges, startKey, endKey, bounds) && TasksFor(keys, prefix, ranges, found, tasks)
    requires HasPrefix(startKey, prefix) && HasPrefix(endKey, prefix)
    requires Accounted(keys, tasks, done, filled) && IsCheckpoint(startKey, done, p, key)
    ensures Saved(keys, startKey, tasks, p, key, filled) && HasPrefix(key, prefix)
    ensures p == |tasks| ==> BoundarySafe(keys, tasks, p, filled)
  {
    if p > 0 { assert p - 1 in done; }
    CheckpointPrefix(keys, prefix, ranges, startKey, endKey, bounds, tasks, found, done, filled, p, key);
    if p > 0 { KeyBehindTask(keys, prefix, ranges, startKey, endKey, bounds, p - 1, found(p - 1)); }
  }

  /** The key behind a task is above the start of the split. */
  lemma KeyBehindTask(keys: seq<Key>, prefix: Key, ranges: seq<KeyRange>, startKey: Key, endKey: Key, bounds: set<Key>,
                      i: nat, found: bool)
    requires ValidSplit(ranges, startKey, endKey, bounds) && i < |ranges|
    requires HasPrefix(startKey, prefix) && HasPrefix(endKey, prefix)
    ensures var key := Next(RangeTask(keys, prefix, ranges, i, found).endKey); Le(startKey, key) && HasPrefix(key, prefix)
  {
    var t := RangeTask(keys, prefix, ranges, i, found);
    RangePrefixes(ranges, startKey, endKey, bounds, prefix, i);
    TaskEndsAfterStart(keys, prefix, ranges, i, found);
    EndHasPrefix(keys, prefix, ranges, i, found);
    NextIsSuccessor(t.startKey, t.endKey);
    if Lt(startKey, t.startKey) { LtTransitive(startKey, t.startKey, Next(t.endKey)); }
    assert Next(t.endKey)[..|prefix|] == t.endKey[..|prefix|];
  }

  lemma EndHasPrefix(keys: seq<Key>, prefix: Key, ranges: seq<KeyRange>, i: nat, found: bool)
    requires i < |ranges| && HasPrefix(ranges[i].startKey, prefix) && HasPrefix(ranges[i].endKey, prefix)
    ensures HasPrefix(RangeTask(keys, prefix, ranges, i, found).endKey, prefix)
  {
  }

  /** The tasks of a split, one per range. */
  function RangeTasks(keys: seq<Key>, prefix: Key, ranges: seq<KeyRange>, found: nat -> bool): seq<Task> {
    seq(|ranges|, (i: nat) requires i < |ranges| => RangeTask(keys, prefix, ranges, i, found(i)))
  }

  /** handleRangeTasks: build the tasks of the split and run them. */
  method HandleRangeTasks(keys: seq<Key>, prefix: Key, before: set<Key>, ranges: seq<KeyRange>, limit: nat, found: nat -> bool,
                          workers: seq<Worker>, quiet: bool, schedule: State -> seq<Step>, runnable: bool)
    returns (r: BatchResult)
    requires 1 <= |ranges| <= limit && Pool(workers)
    requires var s0 := BatchStart(keys, RangeTasks(keys, prefix, ranges, found), quiet, before, workers); Finishes(Batch(s0, schedule(s0)))
    ensures var s0 := BatchStart(keys, RangeTasks(keys, prefix, ranges, found), quiet, before, workers);
            r == RunBatch(Batch(s0, schedule(s0)), runnable)
  {
    var tasks := BuildTasks(keys, prefix, ranges, found, limit);
    assert tasks == RangeTasks(keys, prefix, ranges, found);
    var s0 := BatchStart(keys, tasks, quiet, before, workers);
    r := SendTasksAndWait(Batch(s0, schedule(s0)), runnable);
  }

  /**
    What a batch of a split means. Whatever fails, the saved key is that of the finished prefix, and only its boundary row
    may be missing below it; without an error every row of the split is filled.
   */
  lemma RangesMean(keys: seq<Key>, prefix: Key, before: set<Key>, ranges: seq<KeyRange>, startKey: Key, endKey: Key, bounds: set<Key>,
                   found: nat -> bool, quiet: bool, batch: Batch, runnable: bool)
    requires Sorted(keys) && ValidSplit(ranges, startKey, endKey, bounds) && HasPrefix(startKey, prefix) && HasPrefix(endKey, prefix)
    requires Init(batch.start) && Finishes(batch) && batch.start.filled == before
    requires batch.start.job == Job(keys, RangeTasks(keys, prefix, ranges, found), quiet)
    ensures var r, tasks := RunBatch(batch, runnable), RangeTasks(keys, prefix, ranges, found);
            && Grown(startKey, quiet, before, r.filled) && ReadIn(batch, r.done, r.filled) && IsCheckpoint(startKey, r.done, r.p, r.saved)
            && Saved(keys, startKey, tasks, r.p, r.saved, r.filled) && HasPrefix(r.saved, prefix)
            && (r.err <==> !runnable || r.p < |tasks|)
            && (!r.err ==> FilledBelow(keys, startKey, Next(ranges[|ranges| - 1].endKey), r.filled))
  {
    var r, tasks := RunBatch(batch, runnable), RangeTasks(keys, prefix, ranges, found);
    BatchMeans(batch, runnable);
    SavedKey(keys, prefix, ranges, startKey, endKey, bounds, found, tasks, r.done, r.filled, r.p, r.saved);
    if !r.err {
      WholeBatchFilled(keys, prefix, ranges, startKey, endKey, bounds, found, tasks, r.done, r.filled);
    }
    if quiet {
      forall k | k in r.filled && k !in before ensures Le(startKey, k) {
        TaskRowsFrom(keys, prefix, ranges, startKey, endKey, bounds, found, tasks, quiet, k);
      }
    }
  }

  /** Rows are only added, and without interfering statements only from `startKey` on. */
  ghost predicate Grown(startKey: Key, quiet: bool, first: set<Key>, filled: set<Key>) {
    first <= filled && (quiet ==> OnlyFrom(startKey, first, filled))
  }

  // ----- Whole runs -----

  /** Rows up to `mid`, then rows up to `end`. */
  lemma FilledJoin(keys: seq<Key>, startKey: Key, mid: Key, end: Key, filled: set<Key>)
    requires FilledBelow(keys, startKey, mid, filled)
    ensures FilledBelow(keys, mid, end, filled) ==> FilledBelow(keys, startKey, end, filled)
    ensures Rank(keys, startKey) <= Rank(keys, mid) ==> (FilledBelow(keys, startKey, end, filled) <==> FilledBelow(keys, mid, end, filled))
  {
  }

  lemma FilledGrows(keys: seq<Key>, startKey: Key, key: Key, before: set<Key>, after: set<Key>)
    requires FilledBelow(keys, startKey, key, before) && before <= after && Sorted(keys)
    ensures FilledBelow(keys, startKey, key, after)
  {
  }

  /** A later batch that starts at `mid` saves a key for the whole range. */
  lemma SavedFrom(keys: seq<Key>, startKey: Key, mid: Key, tasks: seq<Task>, p: nat, key: Key, filled: set<Key>)
    requires Sorted(keys) && Le(startKey, mid) && FilledBelow(keys, startKey, mid, filled) && Saved(keys, mid, tasks, p, key, filled)
    ensures Saved(keys, startKey, tasks, p, key, filled)
  {
    RankMonotone(keys, startKey, mid);
    if Lt(startKey, mid) && Lt(mid, key) { LtTransitive(startKey, mid, key); }
  }

  lemma OnlyFromLater(startKey: Key, mid: Key, a: set<Key>, b: set<Key>, c: set<Key>)
    requires Le(startKey, mid) && OnlyFrom(startKey, a, b) && OnlyFrom(mid, b, c)
    ensures OnlyFrom(startKey, a, c)
  {
    forall k | k in c && k !in b ensures Le(startKey, k) {
      if Lt(startKey, mid) && Lt(mid, k) { LtTransitive(startKey, mid, k); }
    }
  }

  /** The start of the next round: behind everything this round has filled. */
  lemma NextRound(keys: seq<Key>, ranges: seq<KeyRange>, startKey: Key, start: Key, endKey: Key, bounds: set<Key>, prefix: Key,
                  filled: set<Key>)
    requires Sorted(keys) && ValidSplit(ranges, start, endKey, bounds) && Le(startKey, start)
    requires HasPrefix(start, prefix) && HasPrefix(endKey, prefix)
    requires FilledBelow(keys, startKey, start, filled) && FilledBelow(keys, start, Next(ranges[|ranges| - 1].endKey), filled)
    ensures var next := NextStart(ranges, |ranges|);
            && FilledBelow(keys, startKey, next, filled) && Le(startKey, next) && HasPrefix(next, prefix)
            && (Lt(next, endKey) ==> BoundsAbove(bounds, endKey, next) < BoundsAbove(bounds, endKey, start))
  {
    var e, next := ranges[|ranges| - 1].endKey, NextStart(ranges, |ranges|);
    NextStartIsProgress(ranges, start, endKey, bounds, prefix, |ranges|);
    FilledJoin(keys, startKey, start, next, filled);
    RangePrefixes(ranges, start, endKey, bounds, prefix, |ranges| - 1);
    var s := ranges[|ranges| - 1].startKey;
    NextIsSuccessor(s, e);
    if Lt(start, s) { LtTransitive(start, s, next); }
    if Lt(startKey, start) { LtTransitive(startKey, start, next); }
    if Lt(next, endKey) { FewerBounds(bounds, endKey, start, e, next); }
  }

  /** Which rows the tasks of the finished rounds cover: all from startKey on, exactly once if every lookup succeeded. */
  ghost predicate Covered(all: seq<Task>, keys: seq<Key>, startKey: Key, key: Key, a: Attempt) {
    && AtLeastOnce(all, keys, Rank(keys, startKey), Rank(keys, key))
    && ((forall n: nat, i: nat :: a.found(n, i)) ==> Once(all, keys, Rank(keys, startKey), Rank(keys, key)))
  }

  lemma RoundCovers(all: seq<Task>, tasks: seq<Task>, keys: seq<Key>, prefix: Key, ranges: seq<KeyRange>, startKey: Key, start: Key,
                    endKey: Key, bounds: set<Key>, n: nat, a: Attempt)
    requires Sorted(keys) && ValidSplit(ranges, start, endKey, bounds) && Le(startKey, start)
    requires HasPrefix(start, prefix) && HasPrefix(endKey, prefix)
    requires TasksFor(keys, prefix, ranges, FoundIn(a, n), tasks) && Covered(all, keys, startKey, start, a)
    ensures Covered(all + tasks, keys, startKey, Next(ranges[|ranges| - 1].endKey), a)
  {
    var m := |ranges|;
    BatchCoverage(keys, prefix, ranges, start, endKey, bounds, tasks, FoundIn(a, n), m);
    assert tasks[..m] == tasks;
    RankMonotone(keys, startKey, start);
    JoinCoverage(all, tasks, keys, Rank(keys, startKey), Rank(keys, start), BatchEnd(keys, ranges, m));
  }

  /** Where round n starts when the rounds before it have succeeded. */
  function RoundStart(split: (nat, Key) -> seq<KeyRange>, n: nat, startKey: Key): Key {
    if n == 0 then startKey else
      var ranges := split(n - 1, RoundStart(split, n - 1, startKey));
      if ranges == [] then startKey else Next(ranges[|ranges| - 1].endKey)
  }

  /** After each of the first n rounds there was more to do. */
  predicate GoesOn(split: (nat, Key) -> seq<KeyRange>, n: nat, startKey: Key, endKey: Key) {
    n == 0 || (GoesOn(split, n - 1, startKey, endKey) && Lt(RoundStart(split, n, startKey), endKey))
  }

  /** All tasks of the first n rounds. */
  function TasksOfRounds(a: Attempt, n: nat, keys: seq<Key>, prefix: Key, startKey: Key): seq<Task> {
    if n == 0 then [] else
      TasksOfRounds(a, n - 1, keys, prefix, startKey)
      + RangeTasks(keys, prefix, a.split(n - 1, RoundStart(a.split, n - 1, startKey)), FoundIn(a, n - 1))
  }

  lemma RoundCoversNext(all: seq<Task>, keys: seq<Key>, prefix: Key, ranges: seq<KeyRange>, startKey: Key, start: Key, endKey: Key,
                        bounds: set<Key>, n: nat, a: Attempt)
    requires Sorted(keys) && ValidSplit(ranges, start, endKey, bounds) && Le(startKey, start)
    requires HasPrefix(start, prefix) && HasPrefix(endKey, prefix) && Covered(all, keys, startKey, start, a)
    ensures var next := Next(ranges[|ranges| - 1].endKey);
            Le(startKey, next) && Covered(all + RangeTasks(keys, prefix, ranges, FoundIn(a, n)), keys, startKey, next, a)
  {
    RoundCovers(all, RangeTasks(keys, prefix, ranges, FoundIn(a, n)), keys, prefix, ranges, startKey, start, endKey, bounds, n, a);
    StartGrows(ranges, startKey, start, endKey, bounds, prefix);
  }

  lemma StartGrows(ranges: seq<KeyRange>, startKey: Key, start: Key, endKey: Key, bounds: set<Key>, prefix: Key)
    requires ValidSplit(ranges, start, endKey, bounds) && Le(startKey, start) && HasPrefix(start, prefix) && HasPrefix(endKey, prefix)
    ensures var next := Next(ranges[|ranges| - 1].endKey); Le(startKey, next) && HasPrefix(next, prefix)
  {
    NextStartIsProgress(ranges, start, endKey, bounds, prefix, |ranges|);
    RangePrefixes(ranges, start, endKey, bounds, prefix, |ranges| - 1);
    var s, e := ranges[|ranges| - 1].startKey, ranges[|ranges| - 1].endKey;
    NextIsSuccessor(s, e);
    if Lt(start, s) { LtTransitive(start, s, Next(e)); }
    if Lt(startKey, start) { LtTransitive(startKey, start, Next(e)); }
  }

  lemma RoundGrows(startKey: Key, start: Key, quiet: bool, first: set<Key>, before: set<Key>, filled: set<Key>)
    requires Le(startKey, start) && Grown(startKey, quiet, first, before) && Grown(start, quiet, before, filled)
    ensures Grown(startKey, quiet, first, filled)
  {
    if quiet { OnlyFromLater(startKey, start, first, before, filled); }
  }

  /** The job that writePhysicalTableRecord does. */
  datatype WholeRange = WholeRange(keys: seq<Key>, prefix: Key, startKey: Key, endKey: Key, bounds: set<Key>, limit: nat, quiet: bool,
                                   a: Attempt) {
    ghost predicate Fine() {
      && Sorted(keys) && limit >= 1 && Le(startKey, endKey) && Possible(a, endKey, bounds, limit)
      && HasPrefix(startKey, prefix) && HasPrefix(endKey, prefix)
    }

    /** The end of the last range of the last round. */
    ghost function End(): Key
      requires Fine()
    {
      LastEnd(a.split, 0, startKey, endKey, bounds, prefix, limit)
    }

    /** The batch of round n. */
    function RoundBatch(n: nat, start: Key, filled: set<Key>): Batch {
      var s0 := BatchStart(keys, RangeTasks(keys, prefix, a.split(n, start), FoundIn(a, n)), quiet, filled, a.pool(n));
      Batch(s0, a.schedule(n, s0))
    }
  }

  /** A job that can be started, with regions, workers and interleavings that are possible. */
  type RangeJob = job: WholeRange | job.Fine() ghost witness SomeJob()

  ghost function SomeJob(): (job: WholeRange)
    ensures job.Fine()
  {
    var a := Attempt((n: nat, k: Key) => [KeyRange(k, [])], (n: nat) => true, (n: nat, i: nat) => true,
                     (n: nat) => [Worker(false, Idle)], (n: nat, s: State) => SomeSchedule(s), (n: nat) => true);
    WholeRange([], [], [], [], {}, 1, true, a)
  }

  lemma RoundFine(job: RangeJob, n: nat, start: Key, filled: set<Key>)
    requires Le(start, job.endKey)
    ensures LimitedSplit(job.a.split(n, start), start, job.endKey, job.bounds, job.limit) && Pool(job.a.pool(n))
    ensures Init(job.RoundBatch(n, start, filled).start) && Finishes(job.RoundBatch(n, start, filled))
    ensures job.RoundBatch(n, start, filled).start.job.tasks != []
  {
  }

  /** The rounds so far are the first ones of those that lead to the last end. */
  lemma {:induction false} LastEndFrom(split: (nat, Key) -> seq<KeyRange>, n: nat, startKey: Key, endKey: Key, bounds: set<Key>, prefix: Key,
                                       limit: nat)
    requires Splits(split, endKey, bounds, limit) && Le(startKey, endKey) && HasPrefix(startKey, prefix) && HasPrefix(endKey, prefix)
    requires GoesOn(split, n, startKey, endKey)
    ensures var start := RoundStart(split, n, startKey);
            && Le(start, endKey) && HasPrefix(start, prefix)
            && LastEnd(split, n, start, endKey, bounds, prefix, limit) == LastEnd(split, 0, startKey, endKey, bounds, prefix, limit)
    decreases n
  {
    if n > 0 {
      LastEndFrom(split, n - 1, startKey, endKey, bounds, prefix, limit);
      var before := RoundStart(split, n - 1, startKey);
      var ranges := split(n - 1, before);
      assert LimitedSplit(ranges, before, endKey, bounds, limit);
      NextStartIsProgress(ranges, before, endKey, bounds, prefix, |ranges|);
    }
  }

  /** The round after which nothing is left to do ends at the last end. */
  lemma FinalRound(split: (nat, Key) -> seq<KeyRange>, n: nat, startKey: Key, endKey: Key, bounds: set<Key>, prefix: Key, limit: nat)
    requires Splits(split, endKey, bounds, limit) && Le(startKey, endKey) && HasPrefix(startKey, prefix) && HasPrefix(endKey, prefix)
    requires GoesOn(split, n, startKey, endKey) && !Lt(RoundStart(split, n + 1, startKey), endKey)
    ensures var ranges := split(n, RoundStart(split, n, startKey));
            ranges != [] && ranges[|ranges| - 1].endKey == LastEnd(split, 0, startKey, endKey, bounds, prefix, limit)
  {
    var start := RoundStart(split, n, startKey);
    LastEndFrom(split, n, startKey, endKey, bounds, prefix, limit);
    assert LimitedSplit(split(n, start), start, endKey, bounds, limit);
  }

  lemma EndOfRounds(job: RangeJob, n: nat)
    requires GoesOn(job.a.split, n, job.startKey, job.endKey) && !Lt(RoundStart(job.a.split, n + 1, job.startKey), job.endKey)
    ensures RoundStart(job.a.split, n + 1, job.startKey) == Next(job.End())
  {
    FinalRound(job.a.split, n, job.startKey, job.endKey, job.bounds, job.prefix, job.limit);
  }

  lemma StartInside(job: RangeJob, n: nat)
    requires GoesOn(job.a.split, n, job.startKey, job.endKey)
    ensures var start := RoundStart(job.a.split, n, job.startKey);
            && Le(start, job.endKey) && HasPrefix(start, job.prefix)
            && LimitedSplit(job.a.split(n, start), start, job.endKey, job.bounds, job.limit)
  {
    LastEndFrom(job.a.split, n, job.startKey, job.endKey, job.bounds, job.prefix, job.limit);
  }

  ghost predicate CoveredBefore(job: WholeRange, n: nat) {
    Covered(TasksOfRounds(job.a, n, job.keys, job.prefix, job.startKey), job.keys, job.startKey,
            RoundStart(job.a.split, n, job.startKey), job.a)
  }

  lemma CoverStep(job: RangeJob, n: nat)
    requires GoesOn(job.a.split, n, job.startKey, job.endKey) && Le(job.startKey, RoundStart(job.a.split, n, job.startKey))
    requires CoveredBefore(job, n)
    ensures CoveredBefore(job, n + 1) && Le(job.startKey, RoundStart(job.a.split, n + 1, job.startKey))
  {
    var start, all := RoundStart(job.a.split, n, job.startKey), TasksOfRounds(job.a, n, job.keys, job.prefix, job.startKey);
    StartInside(job, n);
    var ranges := job.a.split(n, start);
    RoundCoversNext(all, job.keys, job.prefix, ranges, job.startKey, start, job.endKey, job.bounds, n, job.a);
    assert RoundStart(job.a.split, n + 1, job.startKey) == Next(ranges[|ranges| - 1].endKey);
    assert TasksOfRounds(job.a, n + 1, job.keys, job.prefix, job.startKey)
           == all + RangeTasks(job.keys, job.prefix, ranges, FoundIn(job.a, n));
  }

  /** The rounds before round n cover every row before its start, exactly once if every lookup succeeded. */
  lemma {:induction false} RoundsCover(job: RangeJob, n: nat)
    requires n > 0 ==> GoesOn(job.a.split, n - 1, job.startKey, job.endKey)
    ensures CoveredBefore(job, n) && Le(job.startKey, RoundStart(job.a.split, n, job.startKey))
    decreases n
  {
    if n > 0 {
      RoundsCover(job, n - 1);
      CoverStep(job, n - 1);
    }
  }

  /**
    How writePhysicalTableRecord ends: whether with an error, in which round, where that started and with which rows
    filled, and the tasks and the result of the last batch that was run.
   */
  datatype Ending = Ending(err: bool, n: nat, start: Key, before: set<Key>, tasks: seq<Task>, last: BatchResult)

  /** The rounds from round n on. */
  function Rounds(job: RangeJob, n: nat, start: Key, tasks: seq<Task>, last: BatchResult): Ending
    requires Le(start, job.endKey) && HasPrefix(start, job.prefix)
    decreases BoundsAbove(job.bounds, job.endKey, start)
  {
    if !job.a.splitOk(n) then Ending(true, n, start, last.filled, tasks, last) else
      RoundFine(job, n, start, last.filled);
      var batch, ranges := job.RoundBatch(n, start, last.filled), job.a.split(n, start);
      var r, next := RunBatch(batch, job.a.runnable(n)), Next(ranges[|ranges| - 1].endKey);
      if r.err || !Lt(next, job.endKey) then Ending(r.err, n, start, last.filled, batch.start.job.tasks, r) else
        RoundProgress(job, n, start);
        Rounds(job, n + 1, next, batch.start.job.tasks, r)
  }

  lemma RoundProgress(job: RangeJob, n: nat, start: Key)
    requires Le(start, job.endKey) && HasPrefix(start, job.prefix)
    requires LimitedSplit(job.a.split(n, start), start, job.endKey, job.bounds, job.limit)
    ensures var ranges := job.a.split(n, start);
            var next := Next(ranges[|ranges| - 1].endKey);
            && HasPrefix(next, job.prefix)
            && (Lt(next, job.endKey) ==> BoundsAbove(job.bounds, job.endKey, next) < BoundsAbove(job.bounds, job.endKey, start))
  {
    var ranges := job.a.split(n, start);
    NextStartIsProgress(ranges, start, job.endKey, job.bounds, job.prefix, |ranges|);
    StartGrows(ranges, start, start, job.endKey, job.bounds, job.prefix);
    var e := ranges[|ranges| - 1].endKey;
    if Lt(Next(e), job.endKey) { FewerBounds(job.bounds, job.endKey, start, e, Next(e)); }
  }

  /** Before the first round. */
  function NothingRun(startKey: Key, filled: set<Key>): BatchResult {
    BatchResult(filled, false, map[], 0, startKey)
  }

  /** The whole of writePhysicalTableRecord. */
  function WriteRecords(job: RangeJob, filled: set<Key>): Ending
  {
    Rounds(job, 0, job.startKey, [], NothingRun(job.startKey, filled))
  }

  /** writePhysicalTableRecord */
  method WritePhysicalTableRecord(job: RangeJob, filled: set<Key>) returns (r: Ending)
    ensures r == WriteRecords(job, filled)
  {
    var a, start, n: nat, tasks, last := job.a, job.startKey, 0, [], NothingRun(job.startKey, filled);
    while true
      invariant Le(start, job.endKey) && HasPrefix(start, job.prefix) && Rounds(job, n, start, tasks, last) == WriteRecords(job, filled)
      decreases BoundsAbove(job.bounds, job.endKey, start)
    {
      if !a.splitOk(n) { return Ending(true, n, start, last.filled, tasks, last); }
      RoundFine(job, n, start, last.filled);
      RoundProgress(job, n, start);
      var ranges, before := a.split(n, start), last.filled;
      last := HandleRangeTasks(job.keys, job.prefix, before, ranges, job.limit, FoundIn(a, n), a.pool(n), job.quiet,
                               ScheduleOf(a, n), a.runnable(n));
      tasks := RangeTasks(job.keys, job.prefix, ranges, FoundIn(a, n));
      var next := Next(ranges[|ranges| - 1].endKey);
      if last.err || !Lt(next, job.endKey) { return Ending(last.err, n, start, before, tasks, last); }
      start, n := next, n + 1;
    }
  }

  // ----- What it means -----

  /** Where the rounds have come: everything before `start`, the start of round n, is filled, and the last batch is complete. */
  ghost predicate Reached(job: RangeJob, first: set<Key>, n: nat, start: Key, tasks: seq<Task>, last: BatchResult) {
    && Le(job.startKey, start) && Le(start, job.endKey) && HasPrefix(start, job.prefix)
    && start == RoundStart(job.a.split, n, job.startKey) && GoesOn(job.a.split, n, job.startKey, job.endKey)
    && Grown(job.startKey, job.quiet, first, last.filled) && FilledBelow(job.keys, job.startKey, start, last.filled)
    && last.p == |tasks| && SavedFor(job, tasks, last)
  }

  /** The saved key of a batch: below it only the boundary row of the finished prefix may be missing. */
  ghost predicate SavedFor(job: RangeJob, tasks: seq<Task>, r: BatchResult) {
    Saved(job.keys, job.startKey, tasks, r.p, r.saved, r.filled) && HasPrefix(r.saved, job.prefix)
  }

  /** The batch of this round was run, and the key saved is the checkpoint of exactly the tasks read as done in it. */
  ghost predicate RanLast(job: RangeJob, e: Ending) {
    var batch := job.RoundBatch(e.n, e.start, e.before);
    && e.tasks == batch.start.job.tasks && e.start == RoundStart(job.a.split, e.n, job.startKey)
    && ReadIn(batch, e.last.done, e.last.filled) && IsCheckpoint(e.start, e.last.done, e.last.p, e.last.saved)
  }

  ghost predicate Means(job: RangeJob, first: set<Key>, e: Ending) {
    && Grown(job.startKey, job.quiet, first, e.last.filled) && GoesOn(job.a.split, e.n, job.startKey, job.endKey)
    && SavedFor(job, e.tasks, e.last)
    && (e.err && !job.a.splitOk(e.n) ==> e.last.p == |e.tasks|)
    && (job.a.splitOk(e.n) ==> RanLast(job, e) && (e.err <==> e.last.p < |e.tasks| || !job.a.runnable(e.n)))
    && (!e.err ==>
          && job.a.splitOk(e.n) && !Lt(RoundStart(job.a.split, e.n + 1, job.startKey), job.endKey)
          && FilledBelow(job.keys, job.startKey, RoundStart(job.a.split, e.n + 1, job.startKey), e.last.filled))
  }

  /** One round. */
  lemma RoundMeans(job: RangeJob, first: set<Key>, n: nat, start: Key, tasks: seq<Task>, last: BatchResult)
    requires Reached(job, first, n, start, tasks, last) && job.a.splitOk(n)
    requires Finishes(job.RoundBatch(n, start, last.filled)) && job.RoundBatch(n, start, last.filled).start.job.tasks != []
    ensures var batch, ranges := job.RoundBatch(n, start, last.filled), job.a.split(n, start);
            var r, now := RunBatch(batch, job.a.runnable(n)), batch.start.job.tasks;
            && |ranges| > 0 && Grown(job.startKey, job.quiet, first, r.filled) && SavedFor(job, now, r)
            && RanLast(job, Ending(r.err, n, start, last.filled, now, r)) && (r.err <==> r.p < |now| || !job.a.runnable(n))
            && FilledBelow(job.keys, job.startKey, start, r.filled)
            && (!r.err ==> FilledBelow(job.keys, start, Next(ranges[|ranges| - 1].endKey), r.filled))
  {
    var batch, ranges := job.RoundBatch(n, start, last.filled), job.a.split(n, start);
    var r := RunBatch(batch, job.a.runnable(n));
    RoundFine(job, n, start, last.filled);
    RangesMean(job.keys, job.prefix, last.filled, ranges, start, job.endKey, job.bounds, FoundIn(job.a, n), job.quiet, batch,
               job.a.runnable(n));
    FilledGrows(job.keys, job.startKey, start, last.filled, r.filled);
    SavedFrom(job.keys, job.startKey, start, batch.start.job.tasks, r.p, r.saved, r.filled);
    RoundGrows(job.startKey, start, job.quiet, first, last.filled, r.filled);
  }

  /** A round without an error that leaves something to do reaches the next one. */
  lemma NextReached(job: RangeJob, first: set<Key>, n: nat, start: Key, tasks: seq<Task>, last: BatchResult)
    requires Reached(job, first, n, start, tasks, last) && job.a.splitOk(n)
    requires Finishes(job.RoundBatch(n, start, last.filled)) && job.RoundBatch(n, start, last.filled).start.job.tasks != []
    requires LimitedSplit(job.a.split(n, start), start, job.endKey, job.bounds, job.limit)
    ensures var batch, ranges := job.RoundBatch(n, start, last.filled), job.a.split(n, start);
            var r, next := RunBatch(batch, job.a.runnable(n)), Next(ranges[|ranges| - 1].endKey);
            && (!r.err && Lt(next, job.endKey) ==> Reached(job, first, n + 1, next, batch.start.job.tasks, r))
            && (!r.err ==> FilledBelow(job.keys, job.startKey, next, r.filled))
  {
    var batch, ranges := job.RoundBatch(n, start, last.filled), job.a.split(n, start);
    var r := RunBatch(batch, job.a.runnable(n));
    RoundMeans(job, first, n, start, tasks, last);
    assert RoundStart(job.a.split, n + 1, job.startKey) == Next(ranges[|ranges| - 1].endKey);
    if !r.err { NextRound(job.keys, ranges, job.startKey, start, job.endKey, job.bounds, job.prefix, r.filled); }
  }

  /** A round with which the loop ends. */
  lemma EndMeans(job: RangeJob, first: set<Key>, n: nat, start: Key, tasks: seq<Task>, last: BatchResult)
    requires Reached(job, first, n, start, tasks, last) && job.a.splitOk(n)
    requires Finishes(job.RoundBatch(n, start, last.filled)) && job.RoundBatch(n, start, last.filled).start.job.tasks != []
    requires LimitedSplit(job.a.split(n, start), start, job.endKey, job.bounds, job.limit)
    ensures var batch, ranges := job.RoundBatch(n, start, last.filled), job.a.split(n, start);
            var r, next := RunBatch(batch, job.a.runnable(n)), Next(ranges[|ranges| - 1].endKey);
            r.err || !Lt(next, job.endKey) ==> Means(job, first, Ending(r.err, n, start, last.filled, batch.start.job.tasks, r))
  {
    RoundMeans(job, first, n, start, tasks, last);
    NextReached(job, first, n, start, tasks, last);
  }

  lemma {:induction false} RoundsMean(job: RangeJob, first: set<Key>, n: nat, start: Key, tasks: seq<Task>, last: BatchResult)
    requires Reached(job, first, n, start, tasks, last)
    ensures Means(job, first, Rounds(job, n, start, tasks, last))
    decreases BoundsAbove(job.bounds, job.endKey, start)
  {
    if job.a.splitOk(n) {
      RoundFine(job, n, start, last.filled);
      var batch, ranges := job.RoundBatch(n, start, last.filled), job.a.split(n, start);
      var r := RunBatch(batch, job.a.runnable(n));
      var next := Next(ranges[|ranges| - 1].endKey);
      if r.err || !Lt(next, job.endKey) {
        EndMeans(job, first, n, start, tasks, last);
      } else {
        NextReached(job, first, n, start, tasks, last);
        RoundProgress(job, n, start);
        RoundsMean(job, first, n + 1, next, batch.start.job.tasks, r);
      }
    }
  }

  /**
    What writePhysicalTableRecord means, for every region split, interleaving and failure. An error comes from a split, or
    from the last batch, and then the saved key is the checkpoint of exactly the tasks read as done in it. In any case every
    row below the saved key is filled if and only if its boundary is safe.
   */
  lemma WriteMeans(job: RangeJob, filled: set<Key>)
    ensures var e := WriteRecords(job, filled);
            && Means(job, filled, e)
            && (FilledBelow(job.keys, job.startKey, e.last.saved, e.last.filled) <==>
                BoundarySafe(job.keys, e.tasks, e.last.p, e.last.filled))
  {
    var e, none := WriteRecords(job, filled), NothingRun(job.startKey, filled);
    assert Reached(job, filled, 0, job.startKey, [], none);
    RoundsMean(job, filled, 0, job.startKey, [], none);
    BoundaryDecides(job.keys, job.startKey, e.last.saved, e.tasks, e.last.p, e.last.filled);
  }

  lemma WriteFills(job: RangeJob, filled: set<Key>)
    requires !WriteRecords(job, filled).err
    ensures var e := WriteRecords(job, filled);
            && GoesOn(job.a.split, e.n, job.startKey, job.endKey) && RoundStart(job.a.split, e.n + 1, job.startKey) == Next(job.End())
            && FilledBelow(job.keys, job.startKey, Next(job.End()), e.last.filled)
  {
    WriteMeans(job, filled);
    EndOfRounds(job, WriteRecords(job, filled).n);
  }

  /** Without an error every row from startKey through the last end is filled, and covered exactly once when lookups succeed. */
  lemma WriteCovers(job: RangeJob, filled: set<Key>)
    requires !WriteRecords(job, filled).err
    ensures var e := WriteRecords(job, filled);
            && FilledBelow(job.keys, job.startKey, Next(job.End()), e.last.filled)
            && Covered(TasksOfRounds(job.a, e.n + 1, job.keys, job.prefix, job.startKey), job.keys, job.startKey, Next(job.End()), job.a)
  {
    WriteFills(job, filled);
    RoundsCover(job, WriteRecords(job, filled).n + 1);
  }

  // ----- A restart -----

  /** The boundary row lies below the saved key, so a restarted job cannot fill it. */
  lemma BoundaryUntouched(keys: seq<Key>, startKey: Key, tasks: seq<Task>, p: nat, key: Key, before: set<Key>, after: set<Key>)
    requires Saved(keys, startKey, tasks, p, key, before) && before <= after && OnlyFrom(key, before, after)
    ensures BoundarySafe(keys, tasks, p, after) <==> BoundarySafe(keys, tasks, p, before)
  {
    if p > 0 {
      var b := tasks[p - 1].endKey;
      NextIsSuccessor(b, b);
      if Le(key, b) { Asymmetric(b, key); }
    }
  }

  /** After the restarted job has filled everything from the saved key on, only the boundary decides. */
  lemma RestartDecides(keys: seq<Key>, startKey: Key, tasks: seq<Task>, p: nat, key: Key, end: Key, before: set<Key>, after: set<Key>)
    requires Sorted(keys) && Saved(keys, startKey, tasks, p, key, before) && before <= after
    requires FilledBelow(keys, key, end, after) && Rank(keys, key) <= Rank(keys, end)
    ensures FilledBelow(keys, startKey, end, after) <==> BoundarySafe(keys, tasks, p, after)
  {
    RankMonotone(keys, startKey, key);
    assert AllButBoundary(keys, startKey, key, tasks, p, after);
    BoundaryDecides(keys, startKey, key, tasks, p, after);
    assert FilledBelow(keys, startKey, end, after) <==> FilledBelow(keys, startKey, key, after);
  }

  /** What a second attempt that ends without an error makes of a table. */
  lemma Restarted(job: RangeJob, rest: RangeJob, e: Ending, again: Ending)
    requires rest.keys == job.keys && rest.quiet == job.quiet && rest.startKey == e.last.saved && SavedFor(job, e.tasks, e.last)
    requires Grown(rest.startKey, rest.quiet, e.last.filled, again.last.filled)
    requires FilledBelow(rest.keys, rest.startKey, Next(rest.End()), again.last.filled)
    ensures FilledBelow(job.keys, job.startKey, Next(rest.End()), again.last.filled) <==>
            BoundarySafe(job.keys, e.tasks, e.last.p, again.last.filled)
    ensures job.quiet ==> (BoundarySafe(job.keys, e.tasks, e.last.p, again.last.filled) <==>
                           BoundarySafe(job.keys, e.tasks, e.last.p, e.last.filled))
  {
    LastEndIs(rest.a.split, 0, rest.startKey, rest.startKey, rest.endKey, rest.bounds, rest.prefix, rest.limit);
    EndsBehind(rest.startKey, rest.endKey, rest.End());
    RankMonotone(job.keys, rest.startKey, Next(rest.End()));
    RestartDecides(job.keys, job.startKey, e.tasks, e.last.p, e.last.saved, Next(rest.End()), e.last.filled, again.last.filled);
    if job.quiet {
      BoundaryUntouched(job.keys, job.startKey, e.tasks, e.last.p, e.last.saved, e.last.filled, again.last.filled);
    }
  }

  /** The rest of a job from the key it saved, in a second attempt. */
  function RestOf(job: WholeRange, saved: Key, second: Attempt): WholeRange {
    job.(startKey := saved, a := second)
  }

  /**
    A job that stops with an error and is taken up again at the key it saved. When the second attempt ends without an
    error, the table is filled from startKey on if and only if the boundary of the saved key is safe, which without
    interfering statements was decided when the first attempt stopped.
   */
  lemma ResumeDecides(job: RangeJob, second: Attempt, filled: set<Key>)
    requires Possible(second, job.endKey, job.bounds, job.limit)
    ensures var e := WriteRecords(job, filled);
            var rest := RestOf(job, e.last.saved, second);
            && e.last.p <= |e.tasks|
            && (e.err && Le(e.last.saved, job.endKey) ==> rest.Fine())
            && (e.err && Le(e.last.saved, job.endKey) && !WriteRecords(rest, e.last.filled).err ==>
                  var again := WriteRecords(rest, e.last.filled).last.filled;
                  && (FilledBelow(job.keys, job.startKey, Next(rest.End()), again) <==> BoundarySafe(job.keys, e.tasks, e.last.p, again))
                  && (job.quiet ==> (BoundarySafe(job.keys, e.tasks, e.last.p, again) <==>
                                     BoundarySafe(job.keys, e.tasks, e.last.p, e.last.filled))))
  {
    var e := WriteRecords(job, filled);
    WriteMeans(job, filled);
    if e.err && Le(e.last.saved, job.endKey) {
      var rest: RangeJob := RestOf(job, e.last.saved, second);
      var again := WriteRecords(rest, e.last.filled);
      if !again.err {
        WriteMeans(rest, e.last.filled);
        WriteFills(rest, e.last.filled);
        Restarted(job, rest, e, again);
      }
    }
  }

  lemma EndsBehind(key: Key, endKey: Key, lastEnd: Key)
    requires Le(key, endKey) && (lastEnd == endKey || Next(lastEnd) == endKey)
    ensures Le(key, Next(lastEnd))
  {
    NextIsSuccessor(key, lastEnd);
  }
}
