/** The checkpoint a backfill saves after a batch, and what a restarted job may skip (ddl/backfilling.go, ddl/column.go). */
module BackfillCheckpoint {
  import opened Keys
  import opened BackfillWorker
  import opened BackfillRanges
  import opened BackfillProtocol

  /** p is the length of the longest run of finished task ids that starts at zero. */
  predicate LongestPrefix(done: map<nat, Key>, p: nat) {
    (forall i: nat :: i < p ==> i in done) && p !in done
  }

  /** The key a restarted job resumes from when exactly the tasks of `done` have reported their next keys. */
  predicate IsCheckpoint(start: Key, done: map<nat, Key>, p: nat, key: Key) {
    LongestPrefix(done, p) && key == if p == 0 then start else done[p - 1]
  }

  lemma CheckpointUnique(start: Key, done: map<nat, Key>, p: nat, k: Key, q: nat, l: Key)
    requires IsCheckpoint(start, done, p, k) && IsCheckpoint(start, done, q, l)
    ensures p == q && k == l
  {
  }

  /** `waiting` holds the results of `done` at or above `current`. */
  ghost predicate Waiting(waiting: map<nat, Key>, done: map<nat, Key>, current: nat) {
    && (forall i: nat :: i in waiting <==> i in done && i >= current)
    && (forall i: nat :: i in waiting ==> waiting[i] == done[i])
  }

  /** doneTaskKeeper. `reported` is every result it has been given. */
  class DoneTaskKeeper {
    var doneTaskNextKey: map<nat, Key>
    var current: nat
    var nextKey: Key
    ghost var reported: map<nat, Key>
    ghost const start: Key

    ghost predicate Valid()
      reads this
    {
      && IsCheckpoint(start, reported, current, nextKey)
      && Waiting(doneTaskNextKey, reported, current)
    }

    constructor (start: Key)
      ensures Valid() && reported == map[] && this.start == start
    {
      doneTaskNextKey, current, nextKey := map[], 0, start;
      reported, this.start := map[], start;
    }

    /** updateNextKey: whatever the order of arrival, the key kept is the one of the longest finished prefix. */
    method UpdateNextKey(doneTaskID: nat, next: Key)
      requires Valid() && doneTaskID !in reported
      modifies this
      ensures Valid() && reported == old(reported)[doneTaskID := next]
    {
      reported := reported[doneTaskID := next];
      if doneTaskID == current {
        current := current + 1;
        nextKey := next;
        while current in doneTaskNextKey
          invariant current > 0 && (forall i: nat :: i < current ==> i in reported)
          invariant nextKey == reported[current - 1]
          invariant Waiting(doneTaskNextKey, reported, current)
          invariant reported == old(reported)[doneTaskID := next]
          decreases doneTaskNextKey.Keys
        {
          var nKey := doneTaskNextKey[current];
          assert current !in (doneTaskNextKey - {current}).Keys;
          doneTaskNextKey := doneTaskNextKey - {current};
          current := current + 1;
          nextKey := nKey;
        }
        return;
      }
      doneTaskNextKey := doneTaskNextKey[doneTaskID := next];
    }
  }

  /** The next keys of the tasks that reported success. */
  function DoneMap(rs: seq<Report>): map<nat, Key> {
    if rs == [] then map[] else
      var r := rs[|rs| - 1];
      if r.ok then DoneMap(rs[..|rs| - 1])[r.id := r.nextKey] else DoneMap(rs[..|rs| - 1])
  }

  lemma {:induction false} DoneMapKeys(rs: seq<Report>, id: nat)
    ensures id in DoneMap(rs) <==> DoneOk(rs, id)
    decreases |rs|
  {
    if rs != [] {
      var n := |rs| - 1;
      DoneMapKeys(rs[..n], id);
      if DoneOk(rs[..n], id) {
        var i :| 0 <= i < n && rs[..n][i].id == id && rs[..n][i].ok;
        assert rs[i].id == id && rs[i].ok;
      }
      if DoneOk(rs, id) {
        var i :| 0 <= i < |rs| && rs[i].id == id && rs[i].ok;
        if i < n { assert rs[..n][i].id == id && rs[..n][i].ok; }
      }
    }
  }

  lemma {:induction false} SumPrefix(xs: seq<nat>, i: nat)
    requires i <= |xs|
    ensures Sum(xs[..i]) <= Sum(xs)
    decreases |xs|
  {
    if i == |xs| {
      assert xs[..i] == xs;
    } else {
      SumPrefix(xs[..|xs| - 1], i);
      assert xs[..|xs| - 1][..i] == xs[..i];
    }
  }

  /** What reading one more result adds. */
  lemma ResultRead(arrivals: seq<Report>, drains: seq<nat>, i: nat)
    requires DistinctIds(arrivals) && |drains| == |arrivals| && i < |arrivals|
    ensures arrivals[i].ok ==> arrivals[i].id !in DoneMap(arrivals[..i])
    ensures DoneMap(arrivals[..i + 1]) ==
            if arrivals[i].ok then DoneMap(arrivals[..i])[arrivals[i].id := arrivals[i].nextKey] else DoneMap(arrivals[..i])
    ensures AnyError(arrivals[..i + 1]) <==> AnyError(arrivals[..i]) || !arrivals[i].ok
    ensures Sum(drains[..i + 1]) == Sum(drains[..i]) + drains[i]
  {
    assert arrivals[..i + 1] == arrivals[..i] + [arrivals[i]];
    assert drains[..i + 1] == drains[..i] + [drains[i]];
    assert [arrivals[i]][0] == arrivals[i];
    ErrorsAppend(arrivals[..i], [arrivals[i]]);
    DoneMapKeys(arrivals[..i], arrivals[i].id);
  }

  /**
    waitTaskResults: read results in their order of arrival, drain the task channel on each failed one, and return the
    checkpoint of the tasks that succeeded. drains[i] tasks are taken off the channel when result i is read.
   */
  method WaitTaskResults(start: Key, total: nat, arrivals: seq<Report>, drains: seq<nat>)
    returns (nextKey: Key, failed: bool, p: nat)
    requires DistinctIds(arrivals) && |drains| == |arrivals|
    requires |arrivals| + Sum(drains) == total
    requires forall i :: 0 <= i < |arrivals| && arrivals[i].ok ==> drains[i] == 0
    ensures IsCheckpoint(start, DoneMap(arrivals), p, nextKey)
    ensures failed <==> AnyError(arrivals)
  {
    var keeper := new DoneTaskKeeper(start);
    var taskSize: int := total;
    var i := 0;
    failed := false;
    assert drains[..|drains|] == drains;
    while i < taskSize
      invariant i <= |arrivals| && taskSize == total - Sum(drains[..i])
      invariant keeper.Valid() && keeper.start == start && keeper.reported == DoneMap(arrivals[..i])
      invariant failed <==> AnyError(arrivals[..i])
      invariant fresh(keeper)
    {
      var result := arrivals[i];
      ResultRead(arrivals, drains, i);
      if !result.ok {
        failed := true;
        taskSize := taskSize - drains[i];
      } else {
        keeper.UpdateNextKey(result.id, result.nextKey);
      }
      i := i + 1;
    }
    SumPrefix(drains, i);
    assert arrivals[..i] == arrivals;
    nextKey, p := keeper.nextKey, keeper.current;
  }

  /** A batch built by handleRangeTasks, of which the tasks in `done` have finished. */
  ghost predicate BatchProgress(keys: seq<Key>, prefix: Key, ranges: seq<KeyRange>, startKey: Key, endKey: Key,
                                bounds: set<Key>, tasks: seq<Task>, found: nat -> bool, done: map<nat, Key>, filled: set<Key>)
  {
    && Sorted(keys) && ValidSplit(ranges, startKey, endKey, bounds)
    && HasPrefix(startKey, prefix) && HasPrefix(endKey, prefix)
    && 1 <= |tasks| <= |ranges|
    && (forall i :: 0 <= i < |tasks| ==> tasks[i] == RangeTask(keys, prefix, ranges, i, found(i)))
    && (forall id: nat :: id in done ==> id < |tasks| && done[id] == Next(tasks[id].endKey))
    && (forall id: nat :: id in done ==> TaskFilled(keys, tasks[id], filled))
  }

  /** The rows from the start of the batch up to the key hold the new column. */
  predicate FilledBelow(keys: seq<Key>, startKey: Key, key: Key, filled: set<Key>) {
    forall i :: Rank(keys, startKey) <= i < Rank(keys, key) ==> keys[i] in filled
  }

  /** The finished prefix is empty, ends with a task that includes its end key, or that end key needs no work. */
  predicate BoundarySafe(keys: seq<Key>, tasks: seq<Task>, p: nat, filled: set<Key>)
    requires p <= |tasks|
  {
    p == 0 || tasks[p - 1].endInclude || tasks[p - 1].endKey !in keys || tasks[p - 1].endKey in filled
  }

  lemma TaskEndsAfterStart(keys: seq<Key>, prefix: Key, ranges: seq<KeyRange>, i: nat, found: bool)
    requires i < |ranges| && Le(ranges[i].startKey, ranges[i].endKey)
    ensures var t := RangeTask(keys, prefix, ranges, i, found); Le(t.startKey, t.endKey)
  {
    var k := RangeTask(keys, prefix, ranges, i, found).endKey;
    LtTotal(ranges[i].startKey, k);
  }

  /** The rows before task p - 1 of a finished prefix are filled. */
  lemma PrefixRowsFilled(keys: seq<Key>, prefix: Key, ranges: seq<KeyRange>, startKey: Key, endKey: Key, bounds: set<Key>,
                         tasks: seq<Task>, found: nat -> bool, done: map<nat, Key>, filled: set<Key>, p: nat, i: nat)
    requires BatchProgress(keys, prefix, ranges, startKey, endKey, bounds, tasks, found, done, filled)
    requires 1 <= p <= |tasks| && forall j: nat :: j < p ==> j in done
    requires Rank(keys, startKey) <= i < tasks[p - 1].End(keys)
    ensures keys[i] in filled
  {
    assert tasks[p - 1].First(keys) == Rank(keys, ranges[p - 1].startKey);
    if p > 1 && i < tasks[p - 1].First(keys) {
      BatchCoverage(keys, prefix, ranges, startKey, endKey, bounds, tasks, found, p - 1);
      assert i < BatchEnd(keys, ranges, p - 1);
      CoveredRowIsFilled(tasks[..p - 1], keys, filled, i);
    }
  }

  /** Every row below the key is filled, except possibly the end key of the last finished task if that excludes it. */
  ghost predicate AllButBoundary(keys: seq<Key>, startKey: Key, key: Key, tasks: seq<Task>, p: nat, filled: set<Key>)
    requires p <= |tasks|
  {
    && (p > 0 ==> key == Next(tasks[p - 1].endKey) && Rank(keys, startKey) <= Rank(keys, tasks[p - 1].endKey))
    && forall i :: Rank(keys, startKey) <= i < Rank(keys, key) ==>
         keys[i] in filled || (p > 0 && !tasks[p - 1].endInclude && keys[i] == tasks[p - 1].endKey)
  }

  /** Then only the boundary row decides. */
  lemma BoundaryDecides(keys: seq<Key>, startKey: Key, key: Key, tasks: seq<Task>, p: nat, filled: set<Key>)
    requires Sorted(keys) && p <= |tasks| && AllButBoundary(keys, startKey, key, tasks, p, filled)
    ensures FilledBelow(keys, startKey, key, filled) <==> BoundarySafe(keys, tasks, p, filled)
  {
    if p > 0 { RankNext(keys, tasks[p - 1].endKey); }
  }

  lemma CheckpointPrefix(keys: seq<Key>, prefix: Key, ranges: seq<KeyRange>, startKey: Key, endKey: Key, bounds: set<Key>,
                         tasks: seq<Task>, found: nat -> bool, done: map<nat, Key>, filled: set<Key>, p: nat, key: Key)
    requires BatchProgress(keys, prefix, ranges, startKey, endKey, bounds, tasks, found, done, filled)
    requires IsCheckpoint(startKey, done, p, key) && p <= |tasks|
    ensures AllButBoundary(keys, startKey, key, tasks, p, filled)
  {
    if p > 0 {
      var t := tasks[p - 1];
      assert key == Next(t.endKey);
      StartsBelow(keys, prefix, ranges, startKey, endKey, bounds, p - 1, found(p - 1));
      forall i | Rank(keys, startKey) <= i < t.End(keys)
        ensures keys[i] in filled
      {
        PrefixRowsFilled(keys, prefix, ranges, startKey, endKey, bounds, tasks, found, done, filled, p, i);
      }
      RankNext(keys, t.endKey);
    }
  }

  /**
    The checkpoint saved after a batch, whatever the order of arrival and whichever tasks failed: every row below it is
    done if and only if the last task of the finished prefix includes its end key or that boundary row needs no work.
   */
  lemma CheckpointSafety(keys: seq<Key>, prefix: Key, ranges: seq<KeyRange>, startKey: Key, endKey: Key, bounds: set<Key>,
                         tasks: seq<Task>, found: nat -> bool, done: map<nat, Key>, filled: set<Key>, p: nat, key: Key)
    requires BatchProgress(keys, prefix, ranges, startKey, endKey, bounds, tasks, found, done, filled)
    requires IsCheckpoint(startKey, done, p, key) && p <= |tasks|
    ensures FilledBelow(keys, startKey, key, filled) <==> BoundarySafe(keys, tasks, p, filled)
  {
    CheckpointPrefix(keys, prefix, ranges, startKey, endKey, bounds, tasks, found, done, filled, p, key);
    BoundaryDecides(keys, startKey, key, tasks, p, filled);
  }

  lemma StartsBelow(keys: seq<Key>, prefix: Key, ranges: seq<KeyRange>, startKey: Key, endKey: Key, bounds: set<Key>, i: nat, found: bool)
    requires Sorted(keys) && ValidSplit(ranges, startKey, endKey, bounds) && i < |ranges|
    requires HasPrefix(startKey, prefix) && HasPrefix(endKey, prefix)
    ensures var t := RangeTask(keys, prefix, ranges, i, found);
            Rank(keys, startKey) <= Rank(keys, t.endKey) && t.First(keys) <= Rank(keys, t.endKey) && t.End(keys) <= |keys|
  {
    var t := RangeTask(keys, prefix, ranges, i, found);
    RangePrefixes(ranges, startKey, endKey, bounds, prefix, i);
    TaskEndsAfterStart(keys, prefix, ranges, i, found);
    RankMonotone(keys, startKey, t.startKey);
    RankMonotone(keys, t.startKey, t.endKey);
  }

  /** Two regions, three rows: the first task excludes the boundary row and finishes, the second fails at once. */
  lemma CheckpointCanSkipARow()
    ensures var keys, ranges := [[1], [2], [3]], [KeyRange([1], [2]), KeyRange([2], [3])];
            var tasks := [RangeTask(keys, [], ranges, 0, true), RangeTask(keys, [], ranges, 1, true)];
            var done, filled: set<Key> := map[0 := Next(tasks[0].endKey)], {[1]};
            && BatchProgress(keys, [], ranges, [1], [3], {[2]}, tasks, (i: nat) => true, done, filled)
            && IsCheckpoint([1], done, 1, Next([2]))
            && !FilledBelow(keys, [1], Next([2]), filled)
  {
    var keys, ranges: seq<KeyRange> := [[1], [2], [3]], [KeyRange([1], [2]), KeyRange([2], [3])];
    assert Sorted(keys);
    RankOfMember(keys, 0);
    RankOfMember(keys, 1);
    RankOfMember(keys, 2);
    var t := RangeTask(keys, [], ranges, 0, true);
    assert t == Task(0, [1], [2], false);
    assert t.First(keys) == 0 && t.End(keys) == 1;
    assert keys[1] == [2];
  }
}
