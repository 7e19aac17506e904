/** One backfill worker running one range task in batches (ddl/backfilling.go, ddl/column.go). */
module BackfillWorker {
  import opened Keys

  /** reorgBackfillTask: the rows from startKey up to endKey, with or without endKey itself. */
  datatype Task = Task(id: nat, startKey: Key, endKey: Key, endInclude: bool) {
    function ExcludedEndKey(): Key {
      if endInclude then Next(endKey) else endKey
    }

    predicate Covers(k: Key) {
      Le(startKey, k) && Lt(k, ExcludedEndKey())
    }

    /** The task's rows are the snapshot positions from First to End. */
    function First(keys: seq<Key>): nat {
      Rank(keys, startKey)
    }

    function End(keys: seq<Key>): nat {
      var e := Rank(keys, ExcludedEndKey());
      if e < First(keys) then First(keys) else e
    }
  }

  lemma CoversByPosition(t: Task, keys: seq<Key>, i: nat)
    requires Sorted(keys) && i < |keys|
    ensures t.Covers(keys[i]) <==> t.First(keys) <= i < t.End(keys)
  {
    RankCounts(keys, t.startKey);
    RankCounts(keys, t.ExcludedEndKey());
    LtTotal(keys[i], t.startKey);
    LtIrreflexive(keys[i]);
    if Lt(keys[i], t.startKey) && Lt(t.startKey, keys[i]) { LtTransitive(keys[i], t.startKey, keys[i]); }
  }

  /** A task whose two ends carry the table prefix covers only keys that carry it. */
  lemma TaskRowsHavePrefix(t: Task, keys: seq<Key>, prefix: Key)
    requires Sorted(keys)
    requires HasPrefix(t.startKey, prefix) && HasPrefix(t.endKey, prefix)
    ensures forall i :: t.First(keys) <= i < t.End(keys) ==> HasPrefix(keys[i], prefix)
  {
    forall i | t.First(keys) <= i < t.End(keys)
      ensures HasPrefix(keys[i], prefix)
    {
      CoversByPosition(t, keys, i);
      NextIsSuccessor(keys[i], t.endKey);
      PrefixInterval(prefix, t.startKey, keys[i], t.endKey);
    }
  }

  /** The rows at positions i..j that do not hold the new column yet. */
  function Select(keys: seq<Key>, filled: set<Key>, i: nat, j: nat): seq<Key>
    requires i <= j <= |keys|
  {
    if i == j then [] else
      Select(keys, filled, i, j - 1) + if keys[j - 1] in filled then [] else [keys[j - 1]]
  }

  lemma {:induction false} SelectMembers(keys: seq<Key>, filled: set<Key>, i: nat, j: nat)
    requires i <= j <= |keys|
    ensures forall k :: k in Select(keys, filled, i, j) <==> k in keys[i..j] && k !in filled
  {
    if i < j {
      SelectMembers(keys, filled, i, j - 1);
      assert keys[i..j] == keys[i..j - 1] + [keys[j - 1]];
    }
  }

  lemma {:induction false} SelectAppend(keys: seq<Key>, filled: set<Key>, i: nat, m: nat, j: nat)
    requires i <= m <= j <= |keys|
    ensures Select(keys, filled, i, j) == Select(keys, filled, i, m) + Select(keys, filled, m, j)
  {
    if m < j { SelectAppend(keys, filled, i, m, j - 1); }
  }

  lemma {:induction false} SelectSame(keys: seq<Key>, f: set<Key>, g: set<Key>, i: nat, j: nat)
    requires i <= j <= |keys|
    requires forall x :: i <= x < j ==> (keys[x] in f <==> keys[x] in g)
    ensures Select(keys, f, i, j) == Select(keys, g, i, j)
  {
    if i < j { SelectSame(keys, f, g, i, j - 1); }
  }

  lemma {:induction false} SelectSorted(keys: seq<Key>, filled: set<Key>, i: nat, j: nat)
    requires Sorted(keys) && i <= j <= |keys|
    ensures Sorted(Select(keys, filled, i, j))
  {
    if i < j {
      SelectSorted(keys, filled, i, j - 1);
      SelectMembers(keys, filled, i, j - 1);
      var s := Select(keys, filled, i, j - 1);
      forall x | 0 <= x < |s|
        ensures Lt(s[x], keys[j - 1])
      {
        assert s[x] in keys[i..j - 1];
      }
    }
  }

  /** updateColumnWorker.getNextKey */
  function GetNextKey(t: Task, done: bool, lastAccessed: Key): Key {
    if !done then Next(lastAccessed) else Next(t.endKey)
  }

  /**
    updateColumnWorker.fetchRowColVals over one snapshot. `broken` holds the rows that fail to decode or cast.
    A batch stops at the end of the task, at the batch size, or when the iterator runs out.
   */
  method FetchRowColVals(keys: seq<Key>, prefix: Key, filled: set<Key>, broken: set<Key>, t: Task, batchCnt: nat)
    returns (err: bool, records: seq<Key>, nextKey: Key, done: bool)
    requires Sorted(keys) && batchCnt >= 1
    requires HasPrefix(t.startKey, prefix) && HasPrefix(t.endKey, prefix)
    ensures err ==> exists i :: t.First(keys) <= i < t.End(keys) && keys[i] in broken
    ensures !err && done ==> records == Select(keys, filled, t.First(keys), t.End(keys))
    ensures !err && done ==> nextKey == Next(t.endKey)
    ensures !err && !done ==> t.First(keys) < Rank(keys, nextKey) <= t.End(keys)
    ensures !err && !done ==> records == Select(keys, filled, t.First(keys), Rank(keys, nextKey)) != []
    ensures !err && !done ==> nextKey == Next(keys[Rank(keys, nextKey) - 1])
    ensures |records| <= batchCnt
    ensures !err && !done ==> |records| == batchCnt || Rank(keys, nextKey) == t.End(keys)
  {
    TaskRowsHavePrefix(t, keys, prefix);
    err, records, done := false, [], false;
    var last: Key := [];
    var upperBound := PrefixNext(t.endKey);
    ghost var lo, hi := t.First(keys), t.End(keys);
    var i := Rank(keys, t.startKey);
    while i < |keys| && Lt(keys[i], upperBound) && HasPrefix(keys[i], prefix)
      invariant lo <= i <= hi <= |keys|
      invariant records == Select(keys, filled, lo, i)
      invariant |records| <= batchCnt && !done
      invariant i > lo ==> last == keys[i - 1]
    {
      var rec := keys[i];
      StopIsEnd(t, keys, i);
      done := if t.endInclude then Lt(t.endKey, rec) else !Lt(rec, t.endKey);
      if done || |records| >= batchCnt { break; }
      if rec in broken {
        err := true;
        nextKey := last;
        return;
      }
      if rec !in filled { records := records + [rec]; }
      last := rec;
      i := i + 1;
      if rec == t.endKey {
        done := true;
        LastRowIsEnd(t, keys, i - 1);
        break;
      }
    }
    if i < |keys| && !Lt(keys[i], upperBound) { BeyondUpperBound(t, keys, i); }
    if |records| == 0 { done := true; }
    nextKey := GetNextKey(t, done, last);
    if !done { RankOfMember(keys, i - 1); }
  }

  /** The worker's stop test at a position of the task is the end of the task. */
  lemma StopIsEnd(t: Task, keys: seq<Key>, i: nat)
    requires Sorted(keys) && t.First(keys) <= i <= t.End(keys) && i < |keys|
    ensures (if t.endInclude then Lt(t.endKey, keys[i]) else !Lt(keys[i], t.endKey)) <==> i == t.End(keys)
  {
    CoversByPosition(t, keys, i);
    NextIsSuccessor(keys[i], t.endKey);
    LtTotal(keys[i], t.endKey);
    LtIrreflexive(keys[i]);
    if Lt(keys[i], t.endKey) && Lt(t.endKey, keys[i]) { LtTransitive(keys[i], t.endKey, keys[i]); }
    RankCounts(keys, t.startKey);
    LtTotal(keys[i], t.startKey);
  }

  lemma LastRowIsEnd(t: Task, keys: seq<Key>, i: nat)
    requires Sorted(keys) && t.First(keys) <= i < t.End(keys) && keys[i] == t.endKey
    ensures i + 1 == t.End(keys)
  {
    CoversByPosition(t, keys, i);
    LtIrreflexive(t.endKey);
    RankOfMember(keys, i);
  }

  lemma BeyondUpperBound(t: Task, keys: seq<Key>, i: nat)
    requires Sorted(keys) && t.First(keys) <= i < |keys| && !Lt(keys[i], PrefixNext(t.endKey))
    ensures i >= t.End(keys)
  {
    CoversByPosition(t, keys, i);
    NextIsSuccessor(keys[i], t.endKey);
    PrefixNextGreater(t.endKey);
    if Lt(keys[i], t.endKey) { LtTransitive(keys[i], t.endKey, PrefixNext(t.endKey)); }
  }

  /** backfillResult */
  datatype Result = Result(taskID: nat, addedCount: nat, nextKey: Key, err: bool)

  /** What happens around a worker: is the job still runnable before batch n, does batch n commit, which rows have
      concurrent statements given the new column since batch n - 1, which rows cannot be converted. */
  datatype Environment = Environment(runnable: nat -> bool, commits: nat -> bool, dml: nat -> set<Key>, broken: set<Key>) {
    ghost predicate Quiet() {
      forall n :: dml(n) == {}
    }
  }

  /**
    How far a task has come. The rows from its first position up to `reached` hold the new column, the rows written
    are rows of the task that lacked it, nothing else was filled except by concurrent statements, and without
    concurrent statements the rows written are exactly the ones that lacked it, once each and in key order.
   */
  ghost predicate Progress(keys: seq<Key>, task: Task, env: Environment, before: set<Key>,
                           filled: set<Key>, written: seq<Key>, reached: nat)
  {
    && task.First(keys) <= reached <= task.End(keys) <= |keys|
    && before <= filled
    && (forall i :: task.First(keys) <= i < reached ==> keys[i] in filled)
    && (forall k :: k in written ==> k in keys[task.First(keys)..reached] && k !in before)
    && (forall k :: k in filled ==> k in before || k in written || exists n :: k in env.dml(n))
    && (env.Quiet() ==> written == Select(keys, before, task.First(keys), reached))
  }

  /** Some row of the task cannot be converted. */
  predicate HasBroken(keys: seq<Key>, task: Task, env: Environment) {
    exists i :: task.First(keys) <= i < task.End(keys) && i < |keys| && keys[i] in env.broken
  }

  /** Every row of the task holds the new column. */
  predicate TaskFilled(keys: seq<Key>, task: Task, filled: set<Key>) {
    forall i :: task.First(keys) <= i < task.End(keys) && i < |keys| ==> keys[i] in filled
  }

  /**
    What the rest of the system sees of a task run by a worker: a prefix of its rows is filled, all of them on success,
    nothing is lost, and without concurrent statements nothing else changes.
   */
  ghost predicate TaskEffect(keys: seq<Key>, task: Task, quiet: bool, before: set<Key>, after: set<Key>, ok: bool, nextKey: Key) {
    exists reached :: Reaches(keys, task, quiet, before, after, ok, nextKey, reached)
  }

  ghost predicate Reaches(keys: seq<Key>, task: Task, quiet: bool, before: set<Key>, after: set<Key>, ok: bool, nextKey: Key,
                          reached: nat)
  {
    && task.First(keys) <= reached <= task.End(keys) <= |keys|
    && before <= after
    && (forall i :: task.First(keys) <= i < reached ==> keys[i] in after)
    && (quiet ==> forall k :: k in after ==> k in before || k in keys[task.First(keys)..reached])
    && (ok ==> reached == task.End(keys) && nextKey == Next(task.endKey))
  }

  lemma ProgressIsEffect(keys: seq<Key>, task: Task, env: Environment, before: set<Key>, filled: set<Key>, written: seq<Key>,
                         reached: nat, ok: bool, nextKey: Key)
    requires Progress(keys, task, env, before, filled, written, reached)
    requires ok ==> reached == task.End(keys) && nextKey == Next(task.endKey)
    ensures TaskEffect(keys, task, env.Quiet(), before, filled, ok, nextKey)
  {
    assert Reaches(keys, task, env.Quiet(), before, filled, ok, nextKey, reached);
  }

  /** The stored rows of one physical table, and which of them hold a value for the new column. */
  class Table {
    const keys: seq<Key>
    const prefix: Key
    var filled: set<Key>

    constructor (keys: seq<Key>, prefix: Key)
      ensures this.keys == keys && this.prefix == prefix && filled == {}
    {
      this.keys, this.prefix, filled := keys, prefix, {};
    }

    /** updateColumnWorker.BackfillDataInTxn: convert one batch and commit it, or leave the table as it was. */
    method BackfillDataInTxn(handle: Task, batchCnt: nat, env: Environment, n: nat)
      returns (err: bool, records: seq<Key>, nextKey: Key, done: bool)
      requires Sorted(keys) && batchCnt >= 1
      requires HasPrefix(handle.startKey, prefix) && HasPrefix(handle.endKey, prefix)
      modifies this
      ensures err ==> filled == old(filled) && (!env.commits(n) || HasBroken(keys, handle, env))
      ensures !err ==> filled == old(filled) + set k | k in records
      ensures !err && done ==> nextKey == Next(handle.endKey)
      ensures !err && !done ==> handle.First(keys) < Rank(keys, nextKey) <= handle.End(keys) <= |keys|
      ensures !err && !done ==> nextKey == Next(keys[Rank(keys, nextKey) - 1])
      ensures !err ==> records == Select(keys, old(filled), handle.First(keys),
                                         if done then handle.End(keys) else Rank(keys, nextKey))
    {
      err, records, nextKey, done := FetchRowColVals(keys, prefix, filled, env.broken, handle, batchCnt);
      err := err || !env.commits(n);
      if !err { filled := filled + set k | k in records; }
    }

    /** One round of handleBackfillTask: concurrent statements, then a batch, which may fail. */
    method RunBatch(task: Task, handle: Task, batchCnt: nat, env: Environment, n: nat,
                    ghost before: set<Key>, written: seq<Key>, ghost reached: nat)
      returns (err: bool, records: seq<Key>, nextKey: Key, done: bool, ghost stop: nat)
      requires Sorted(keys) && batchCnt >= 1
      requires HasPrefix(task.startKey, prefix) && HasPrefix(task.endKey, prefix) && HasPrefix(handle.startKey, prefix)
      requires handle.endKey == task.endKey && handle.endInclude == task.endInclude
      requires Progress(keys, task, env, before, filled, written, reached) && Rank(keys, handle.startKey) == reached
      modifies this
      ensures err ==> stop == reached && Progress(keys, task, env, before, filled, written, stop)
      ensures err ==> !env.commits(n) || HasBroken(keys, task, env)
      ensures !err ==> Progress(keys, task, env, before, filled, written + records, stop)
      ensures !err && done ==> stop == task.End(keys) && nextKey == Next(task.endKey)
      ensures !err && !done ==> stop == Rank(keys, nextKey) > reached && HasPrefix(nextKey, prefix)
    {
      StatementsRan(keys, task, env, before, filled, written, reached, n);
      filled := filled + env.dml(n);
      ghost var filled0 := filled;
      err, records, nextKey, done := BackfillDataInTxn(handle, batchCnt, env, n);
      stop := reached;
      if !err {
        stop := if done then task.End(keys) else Rank(keys, nextKey);
        BatchCommitted(keys, task, env, before, filled0, written, reached, records, stop);
        if !done { PrefixOfNext(keys[stop - 1], prefix, task, keys, stop - 1); }
      }
    }

    /**
      backfillWorker.handleBackfillTask: run batches until the task is done or fails. A failed task has committed a
      prefix of its rows, up to `reached`.
     */
    method HandleBackfillTask(task: Task, batchCnt: nat, env: Environment)
      returns (result: Result, written: seq<Key>, ghost reached: nat)
      requires Sorted(keys) && batchCnt >= 1
      requires HasPrefix(task.startKey, prefix) && HasPrefix(task.endKey, prefix)
      modifies this
      ensures Progress(keys, task, env, old(filled), filled, written, reached)
      ensures !result.err ==> reached == task.End(keys) && result.nextKey == Next(task.endKey)
      ensures result.err ==> reached == Rank(keys, result.nextKey)
      ensures TaskEffect(keys, task, env.Quiet(), old(filled), filled, !result.err, result.nextKey)
      ensures env.Quiet() ==> Sorted(written)
      ensures result.err ==> HasBroken(keys, task, env) || exists n: nat :: !env.runnable(n) || !env.commits(n)
      ensures result.taskID == task.id && result.addedCount == |written|
    {
      var handle := task;
      result := Result(task.id, 0, task.startKey, false);
      written, reached := [], task.First(keys);
      var n: nat, done := 0, false;
      while !done
        invariant handle.endKey == task.endKey && handle.endInclude == task.endInclude
        invariant Progress(keys, task, env, old(filled), filled, written, reached)
        invariant !done ==> Rank(keys, handle.startKey) == reached && handle.startKey == result.nextKey
        invariant !done ==> HasPrefix(handle.startKey, prefix)
        invariant done ==> reached == task.End(keys) && result.nextKey == Next(task.endKey)
        invariant !result.err && result.taskID == task.id && result.addedCount == |written|
        decreases if done then 0 else 1, |keys| - reached
      {
        if !env.runnable(n) {
          result := result.(err := true);
          break;
        }
        var err, records, nextKey, taskDone;
        err, records, nextKey, taskDone, reached := RunBatch(task, handle, batchCnt, env, n, old(filled), written, reached);
        if err {
          result := result.(err := true);
          break;
        }
        written := written + records;
        result := Result(task.id, result.addedCount + |records|, nextKey, false);
        handle, done, n := handle.(startKey := nextKey), taskDone, n + 1;
      }
      ProgressIsEffect(keys, task, env, old(filled), filled, written, reached, !result.err, result.nextKey);
      SelectSorted(keys, old(filled), task.First(keys), reached);
    }
  }

  lemma StatementsRan(keys: seq<Key>, task: Task, env: Environment, before: set<Key>,
                      filled: set<Key>, written: seq<Key>, reached: nat, n: nat)
    requires Progress(keys, task, env, before, filled, written, reached)
    ensures Progress(keys, task, env, before, filled + env.dml(n), written, reached)
  {
  }

  lemma BatchCommitted(keys: seq<Key>, task: Task, env: Environment, before: set<Key>,
                       filled: set<Key>, written: seq<Key>, reached: nat, records: seq<Key>, to: nat)
    requires Sorted(keys) && Progress(keys, task, env, before, filled, written, reached)
    requires reached <= to <= task.End(keys) && records == Select(keys, filled, reached, to)
    ensures Progress(keys, task, env, before, filled + (set k | k in records), written + records, to)
  {
    BatchRows(keys, before, filled, written, records, task.First(keys), reached, to, env.Quiet());
  }

  lemma PrefixOfNext(k: Key, prefix: Key, t: Task, keys: seq<Key>, i: nat)
    requires Sorted(keys) && t.First(keys) <= i < t.End(keys) && keys[i] == k
    requires HasPrefix(t.startKey, prefix) && HasPrefix(t.endKey, prefix)
    ensures HasPrefix(Next(k), prefix)
  {
    TaskRowsHavePrefix(t, keys, prefix);
    assert Next(k)[..|prefix|] == k[..|prefix|];
  }

  /** One committed batch extends the written rows from position `from` to position `to`. */
  lemma BatchRows(keys: seq<Key>, before: set<Key>, filled: set<Key>, written: seq<Key>, records: seq<Key>,
                  first: nat, from: nat, to: nat, quiet: bool)
    requires Sorted(keys) && first <= from <= to <= |keys|
    requires records == Select(keys, filled, from, to) && before <= filled
    requires forall k :: k in written ==> k in keys[first..from] && k !in before
    requires quiet ==> written == Select(keys, before, first, from)
    requires quiet ==> forall k :: k in filled ==> k in before || k in written
    ensures forall i :: from <= i < to ==> keys[i] in filled || keys[i] in records
    ensures forall k :: k in written + records ==> k in keys[first..to] && k !in before
    ensures quiet ==> written + records == Select(keys, before, first, to)
  {
    SelectMembers(keys, filled, from, to);
    forall i | from <= i < to
      ensures keys[i] in filled || keys[i] in records
    {
      assert keys[i] in keys[from..to];
    }
    if quiet {
      forall x | from <= x < to
        ensures keys[x] in filled <==> keys[x] in before
      {
        if keys[x] in written {
          var y :| first <= y < from && keys[y] == keys[x];
          LtIrreflexive(keys[x]);
        }
      }
      SelectSame(keys, filled, before, from, to);
      SelectAppend(keys, before, first, from, to);
    }
  }
}
