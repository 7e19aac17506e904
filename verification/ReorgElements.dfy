/** Backfilling the column and then each index of a modify-column job, resumable at any point (ddl/column.go). */
module ReorgElements {
  import Search

  datatype Element = ColumnElement | IndexElement(id: int)

  /** How the backfill of one element ends: over its whole range, or with an error at some row, the last checkpoint saved
      being at or before it. */
  datatype Outcome = Completed | Stopped(reached: nat, checkpoint: nat)

  /** What happens to one worker: the backfills, reading the table's range, and saving the element of each index. */
  datatype Attempt = Attempt(outcomes: nat -> Outcome, rangeRead: bool, saves: nat -> bool)

  predicate Distinct(ids: seq<int>) {
    forall i, j :: 0 <= i < j < |ids| ==> ids[i] != ids[j]
  }

  /** The place of an element among the column and the indexes; |ids| + 1 for an unknown index. */
  function Place(ids: seq<int>, e: Element): (p: nat)
    ensures p <= |ids| + 1 && (e.ColumnElement? <==> p == 0)
    ensures e.IndexElement? ==> (if p <= |ids| then ids[p - 1] == e.id else e.id !in ids)
    ensures e.IndexElement? ==> forall i :: 0 <= i < p - 1 && i < |ids| ==> ids[i] != e.id
  {
    if e.ColumnElement? then 0 else 1 + PlaceOfID(ids, e.id)
  }

  function PlaceOfID(ids: seq<int>, id: int): (i: nat)
    ensures i <= |ids| && (forall j :: 0 <= j < i ==> ids[j] != id) && (i < |ids| ==> ids[i] == id)
  {
    Search.First(ids, (x: int) => x == id)
  }

  function ElementAt(ids: seq<int>, p: nat): Element
    requires p <= |ids|
  {
    if p == 0 then ColumnElement else IndexElement(ids[p - 1])
  }

  /** A backfill that was begun: of which element, and from which key. */
  datatype Begun = Begun(element: Element, key: nat)

  /** What is to be backfilled from element p on: p from the given key, and every later element from the start. */
  function Plan(ids: seq<int>, p: nat, key: nat): seq<Begun>
    requires p <= |ids|
  {
    seq(|ids| + 1 - p, (x: nat) requires x < |ids| + 1 - p => Begun(ElementAt(ids, p + x), if x == 0 then key else 0))
  }

  lemma PlanAt(ids: seq<int>, p: nat, key: nat, x: nat)
    requires p + x <= |ids|
    ensures |Plan(ids, p, key)| == |ids| + 1 - p
    ensures Plan(ids, p, key)[x] == Begun(ElementAt(ids, p + x), if x == 0 then key else 0)
  {
  }

  /** What is backfilled of the indexes start..n - 1 when index `reset` has its key and the others begin at the start. */
  function IndexPlan(ids: seq<int>, start: nat, reset: int, key: nat, n: nat): seq<Begun>
    requires start <= n <= |ids|
    decreases n
  {
    if n == start then []
    else IndexPlan(ids, start, reset, key, n - 1) + [Begun(IndexElement(ids[n - 1]), if n - 1 <= reset then key else 0)]
  }

  lemma IndexPlanNext(ids: seq<int>, start: nat, reset: int, key: nat, i: nat, log: seq<Begun>)
    requires start <= i < |ids|
    ensures log + IndexPlan(ids, start, reset, key, i + 1)
            == log + IndexPlan(ids, start, reset, key, i) + [Begun(IndexElement(ids[i]), if i <= reset then key else 0)]
  {
  }

  lemma {:induction false} PlanOfIndexes(ids: seq<int>, p: nat, key: nat, start: nat, reset: int, n: nat)
    requires start <= n <= |ids| && p == reset + 1 <= |ids| && ((reset == -1 && start == 0) || reset == start)
    ensures Plan(ids, p, key)[..n + 1 - p] == Plan(ids, p, key)[..start + 1 - p] + IndexPlan(ids, start, reset, key, n)
    decreases n
  {
    if n > start {
      PlanOfIndexes(ids, p, key, start, reset, n - 1);
      var plan := Plan(ids, p, key);
      var last := Begun(IndexElement(ids[n - 1]), if n - 1 <= reset then key else 0);
      PlanAt(ids, p, key, n - p);
      assert plan[..n + 1 - p] == plan[..n - p] + [plan[n - p]];
      assert plan[..start + 1 - p] + (IndexPlan(ids, start, reset, key, n - 1) + [last])
          == (plan[..start + 1 - p] + IndexPlan(ids, start, reset, key, n - 1)) + [last];
    }
  }

  lemma PlaceOfIndex(ids: seq<int>, i: nat)
    requires Distinct(ids) && i < |ids|
    ensures Place(ids, IndexElement(ids[i])) == i + 1
  {
  }

  predicate Filled(rows: set<nat>, from: nat, to: nat) {
    forall r: nat :: from <= r < to ==> r in rows
  }

  function RowsBetween(from: nat, to: nat): (rows: set<nat>)
    ensures forall r: nat :: r in rows <==> from <= r < to
  {
    if to <= from then {} else RowsBetween(from, to - 1) + {to - 1}
  }

  function Clip(x: nat, low: nat, high: nat): (r: nat)
    requires low <= high
    ensures low <= r <= high && (low <= x <= high ==> r == x)
  {
    if x < low then low else if high < x then high else x
  }

  /** The reorg information of a job over a table of `size` rows: in memory, as saved, and the rows done per element. */
  class Reorg {
    const ids: seq<int>
    const size: nat
    var current: Element
    var startKey: nat
    var savedElement: Element
    var savedKey: nat
    var done: seq<set<nat>>
    ghost var begun: seq<Begun>   // every backfill so far, in order

    constructor (ids: seq<int>, size: nat)
      requires Distinct(ids)
      ensures this.ids == ids && this.size == size && Valid() && Loaded()
      ensures savedElement == ColumnElement && savedKey == 0 && begun == []
    {
      this.ids, this.size := ids, size;
      current, startKey, savedElement, savedKey := ColumnElement, 0, ColumnElement, 0;
      done := seq(|ids| + 1, _ => {});
      begun := [];
    }

    /** Every element before the saved one is done, and of the saved one the rows before the saved key. */
    ghost predicate Valid()
      reads this
    {
      && Distinct(ids) && |done| == |ids| + 1
      && Place(ids, savedElement) <= |ids| && savedKey <= size
      && (forall e :: 0 <= e < Place(ids, savedElement) ==> Filled(done[e], 0, size))
      && Filled(done[Place(ids, savedElement)], 0, savedKey)
    }

    /** What a worker has read when it takes up the job. */
    ghost predicate Loaded()
      reads this
    {
      current == savedElement && startKey == savedKey
    }

    /** A crash, and another worker: the saved information is read again. */
    method Restart()
      requires Valid()
      modifies this`current, this`startKey
      ensures Valid() && Loaded()
    {
      current, startKey := savedElement, savedKey;
    }

    /** Backfill the current element from startKey on; a checkpoint is saved only for rows that are done. */
    method Backfill(outcome: Outcome) returns (err: bool)
      requires Valid() && Loaded()
      modifies this`done, this`savedKey, this`begun
      ensures Valid() && savedKey >= old(savedKey) && begun == old(begun) + [Begun(current, startKey)]
      ensures |done| == |old(done)| && forall e :: 0 <= e < |done| ==> old(done)[e] <= done[e]
      ensures err == outcome.Stopped?
      ensures !err ==> Filled(done[Place(ids, current)], 0, size) && savedKey == old(savedKey)
      ensures outcome.Stopped? && startKey <= outcome.checkpoint <= outcome.reached <= size ==>
                savedKey == outcome.checkpoint && Filled(done[Place(ids, current)], 0, outcome.reached)
    {
      var e, to := Place(ids, current), size;
      if outcome.Stopped? {
        to := Clip(outcome.reached, startKey, size);
        savedKey := Clip(outcome.checkpoint, startKey, to);
      }
      done := done[e := done[e] + RowsBetween(startKey, to)];
      begun := begun + [Begun(current, startKey)];
      err := outcome.Stopped?;
    }

    /** A round of the loop: the element is made current and saved with the key to start from, then backfilled. */
    method BackfillIndex(i: nat, saved: bool, outcome: Outcome) returns (err: bool)
      requires Valid() && i < |ids| && startKey <= size
      requires forall e :: 0 <= e < i + 1 ==> Filled(done[e], 0, size)
      requires Filled(done[i + 1], 0, startKey)
      modifies this`current, this`savedElement, this`savedKey, this`done, this`begun
      ensures begun == old(begun) + if saved then [Begun(IndexElement(ids[i]), startKey)] else []
      ensures Valid() && err == (!saved || outcome.Stopped?)
      ensures |done| == |old(done)| && forall e :: 0 <= e < |done| ==> old(done)[e] <= done[e]
      ensures !err ==> Filled(done[i + 1], 0, size)
    {
      PlaceOfIndex(ids, i);
      current := IndexElement(ids[i]);
      if !saved { return true; }
      savedElement, savedKey := current, startKey;
      err := Backfill(outcome);
    }

    /** The search for the element to resume with. */
    method FindElement() returns (start: nat, reset: int)
      requires Valid()
      ensures if current.IndexElement? && Place(ids, current) <= |ids| then start == Place(ids, current) - 1 == reset
              else start == 0 && reset == -1
    {
      start, reset := 0, -1;
      if current.IndexElement? {
        var i := 0;
        while i < |ids| && ids[i] != current.id
          invariant 0 <= i <= |ids| && forall k :: 0 <= k < i ==> ids[k] != current.id
        {
          i := i + 1;
        }
        if i < |ids| { start, reset := i, i; }
      }
    }

    /** The loop over the indexes. `reset` is the index that is resumed with its key, or -1. */
    method BackfillIndexes(start: nat, reset: int, attempt: Attempt) returns (err: bool, ghost n: nat)
      requires Valid() && startKey <= size && ((reset == -1 && start == 0) || reset == start) && start <= |ids|
      requires forall e :: 0 <= e < start + 1 ==> Filled(done[e], 0, size)
      requires start < |ids| && reset == start ==> Filled(done[start + 1], 0, startKey)
      modifies this
      ensures Valid() && start <= n <= |ids|
      ensures begun == old(begun) + IndexPlan(ids, start, reset, old(startKey), n)
      ensures !err ==> n == |ids| && forall e :: 0 <= e < |done| ==> Filled(done[e], 0, size)
      ensures err ==> exists i :: 0 <= i < |ids| && (attempt.outcomes(i + 1).Stopped? || !attempt.saves(i))
    {
      err, n := false, start;
      var i := start;
      while i < |ids|
        invariant start <= i <= |ids| && Valid() && !err && startKey <= size && n == i
        invariant if i > reset + 1 then startKey == 0 else startKey == old(startKey)
        invariant i < |ids| && i == reset ==> Filled(done[i + 1], 0, startKey)
        invariant forall e :: 0 <= e < i + 1 ==> Filled(done[e], 0, size)
        invariant begun == old(begun) + IndexPlan(ids, start, reset, old(startKey), i)
      {
        if i == reset + 1 { startKey := 0; }
        err := BackfillIndex(i, attempt.saves(i), attempt.outcomes(i + 1));
        IndexPlanNext(ids, start, reset, old(startKey), i, old(begun));
        n := if attempt.saves(i) then i + 1 else i;
        if err { return; }
        i := i + 1;
      }
    }

    /**
      updateCurrentElement. Whatever element and key it resumes from and wherever it stops, the saved information stays
      true of what has been done; when it returns without an error, every element is done over the whole range. It backfills
      the saved element from the saved key and then each later one from the start, in order, and nothing else.
     */
    method UpdateCurrentElement(attempt: Attempt) returns (err: bool)
      requires Valid() && Loaded()
      modifies this
      ensures Valid()
      ensures !err ==> forall e :: 0 <= e < |done| ==> Filled(done[e], 0, size)
      ensures var plan := Plan(ids, Place(ids, old(savedElement)), old(savedKey));
              if err then exists n :: 0 <= n <= |plan| && begun == old(begun) + plan[..n] else begun == old(begun) + plan
      ensures err ==> !attempt.rangeRead
                      || (exists i :: 0 <= i <= |ids| && attempt.outcomes(i).Stopped?)
                      || (exists i :: 0 <= i < |ids| && !attempt.saves(i))
    {
      err := false;
      ghost var p, plan := Place(ids, savedElement), Plan(ids, Place(ids, savedElement), savedKey);
      assert begun == old(begun) + plan[..0];
      if current.ColumnElement? {
        err := Backfill(attempt.outcomes(0));
        PlanAt(ids, 0, old(savedKey), 0);
        assert plan[..1] == [plan[0]];
        if err { return; }
      }
      if !attempt.rangeRead { return true; }
      var start, reset := FindElement();
      ghost var n;
      err, n := BackfillIndexes(start, reset, attempt);
      PlanOfIndexes(ids, p, old(savedKey), start, reset, n);
    }

    /** Any number of workers, each stopped somewhere: when one gets through, everything is done. */
    method RunToTheEnd(attempts: seq<Attempt>) returns (finished: bool)
      requires Valid()
      modifies this
      ensures Valid()
      ensures finished ==> forall e :: 0 <= e < |done| ==> Filled(done[e], 0, size)
    {
      finished := false;
      var a := 0;
      while a < |attempts| && !finished
        invariant 0 <= a <= |attempts| && Valid()
        invariant finished ==> forall e :: 0 <= e < |done| ==> Filled(done[e], 0, size)
        decreases |attempts| - a
      {
        Restart();
        var err := UpdateCurrentElement(attempts[a]);
        finished := !err;
        a := a + 1;
      }
    }
  }
}
