/** Splitting a table's key range into backfill tasks (ddl/backfilling.go). */
module BackfillRanges {
  import opened Keys
  import opened BackfillWorker

  datatype KeyRange = KeyRange(startKey: Key, endKey: Key)

  /** getRangeEndKey: the greatest stored key at or below endKey, or startKey when there is none in the range. */
  function GetRangeEndKey(keys: seq<Key>, prefix: Key, startKey: Key, endKey: Key): Key {
    var r := Rank(keys, Next(endKey));
    if r == 0 || !HasPrefix(keys[r - 1], prefix) || Lt(keys[r - 1], startKey) then startKey else keys[r - 1]
  }

  /** The task that handleRangeTasks builds for range i; `found` says whether the end-key lookup succeeded. */
  function RangeTask(keys: seq<Key>, prefix: Key, ranges: seq<KeyRange>, i: nat, found: bool): Task
    requires i < |ranges|
  {
    var endK := if found then GetRangeEndKey(keys, prefix, ranges[i].startKey, ranges[i].endKey) else [];
    Task(i, ranges[i].startKey, if found then endK else ranges[i].endKey,
         endK != ranges[i].endKey || i == |ranges| - 1)
  }

  /** The first part of handleRangeTasks: one task per range, at most chanSize of them. */
  method BuildTasks(keys: seq<Key>, prefix: Key, ranges: seq<KeyRange>, found: nat -> bool, chanSize: nat)
    returns (tasks: seq<Task>)
    requires chanSize >= 1
    ensures |tasks| == if |ranges| <= chanSize then |ranges| else chanSize
    ensures forall i :: 0 <= i < |tasks| ==> tasks[i] == RangeTask(keys, prefix, ranges, i, found(i))
  {
    tasks := [];
    for i := 0 to |ranges|
      invariant |tasks| == i <= chanSize && (i < |ranges| ==> i < chanSize)
      invariant forall j :: 0 <= j < i ==> tasks[j] == RangeTask(keys, prefix, ranges, j, found(j))
    {
      tasks := tasks + [RangeTask(keys, prefix, ranges, i, found(i))];
      if |tasks| >= chanSize { break; }
    }
  }

  /** A region split of [startKey, endKey]: ranges that join up, each ending at a region boundary or at endKey. */
  ghost predicate ValidSplit(ranges: seq<KeyRange>, startKey: Key, endKey: Key, bounds: set<Key>) {
    && |ranges| >= 1
    && ranges[0].startKey == startKey
    && (forall i :: 0 <= i < |ranges| - 1 ==> ranges[i].endKey == ranges[i + 1].startKey)
    && (forall i :: 0 <= i < |ranges| ==> ranges[i].endKey in bounds + {endKey} && Le(ranges[i].endKey, endKey))
    && (forall i :: 0 <= i < |ranges| ==> Lt(ranges[i].startKey, ranges[i].endKey)
                                          || (startKey == endKey && |ranges| == 1 && ranges[0].endKey == endKey))
  }

  /** The position just past the rows that tasks 0..m of a batch must have covered. */
  function BatchEnd(keys: seq<Key>, ranges: seq<KeyRange>, m: nat): nat
    requires 1 <= m <= |ranges|
  {
    if m == |ranges| then Rank(keys, Next(ranges[m - 1].endKey)) else Rank(keys, ranges[m - 1].endKey)
  }

  /** The looked-up key is the greatest stored key of the range, or the start key when the range holds none. */
  lemma RangeEndKeyIsGreatest(keys: seq<Key>, prefix: Key, s: Key, e: Key)
    requires Sorted(keys) && Le(s, e) && HasPrefix(s, prefix) && HasPrefix(e, prefix)
    ensures var k := GetRangeEndKey(keys, prefix, s, e);
            && Le(s, k) && Le(k, e)
            && (forall i :: 0 <= i < |keys| && Le(s, keys[i]) && Le(keys[i], e) ==> k in keys && Le(keys[i], k))
            && (k in keys || k == s)
  {
    var r := Rank(keys, Next(e));
    RankCounts(keys, Next(e));
    forall i | 0 <= i < |keys| ensures i < r <==> Le(keys[i], e) {
      NextIsSuccessor(keys[i], e);
    }
    if r > 0 {
      LtTotal(s, keys[r - 1]);
      if Le(s, keys[r - 1]) { PrefixInterval(prefix, s, keys[r - 1], e); }
      forall i | 0 <= i < r ensures Le(keys[i], keys[r - 1]) {
      }
      forall i | 0 <= i < r && Lt(keys[r - 1], s) ensures !Le(s, keys[i]) {
        if i < r - 1 { LtTransitive(keys[i], keys[r - 1], s); }
        Asymmetric(keys[i], s);
      }
    }
  }

  /** The key found is the end key, or the range's end key is not stored and the key found has the same rows below it. */
  lemma RangeEndKeyIs(keys: seq<Key>, prefix: Key, s: Key, e: Key)
    requires Sorted(keys) && Le(s, e) && HasPrefix(s, prefix) && HasPrefix(e, prefix)
    ensures var k := GetRangeEndKey(keys, prefix, s, e);
            k == e || (e !in keys && Rank(keys, Next(k)) == Rank(keys, Next(e)))
  {
    var r := Rank(keys, Next(e));
    RankNext(keys, e);
    if r > 0 && !Lt(keys[r - 1], s) {
      RankCounts(keys, Next(e));
      var k := keys[r - 1];
      NextIsSuccessor(k, e);
      LtTotal(k, s);
      PrefixInterval(prefix, s, k, e);
      RankOfMember(keys, r - 1);
    } else {
      NothingInRange(keys, s, e);
    }
  }

  lemma NothingInRange(keys: seq<Key>, s: Key, e: Key)
    requires Sorted(keys) && Le(s, e) && (Rank(keys, Next(e)) == 0 || Lt(keys[Rank(keys, Next(e)) - 1], s))
    ensures e !in keys && Rank(keys, Next(s)) == Rank(keys, Next(e))
  {
    RankNext(keys, e);
    RankNext(keys, s);
    RankMonotone(keys, s, e);
    RankCounts(keys, s);
    if e in keys && Lt(e, s) {
      LtIrreflexive(e);
      if s != e { LtTransitive(s, e, s); LtIrreflexive(s); }
    }
  }

  /** With a successful lookup a task covers its range up to, and only for the last range including, the end key. */
  lemma LookedUpTask(keys: seq<Key>, prefix: Key, ranges: seq<KeyRange>, i: nat)
    requires Sorted(keys) && i < |ranges| && Le(ranges[i].startKey, ranges[i].endKey)
    requires HasPrefix(ranges[i].startKey, prefix) && HasPrefix(ranges[i].endKey, prefix)
    ensures var t := RangeTask(keys, prefix, ranges, i, true);
            && t.First(keys) == Rank(keys, ranges[i].startKey)
            && t.End(keys) == BatchEnd(keys, ranges, i + 1)
  {
    RangeEndKeyIs(keys, prefix, ranges[i].startKey, ranges[i].endKey);
    RankMonotone(keys, ranges[i].startKey, ranges[i].endKey);
    RankNext(keys, ranges[i].endKey);
  }

  /** With a failed lookup a task covers its range and the end key. */
  lemma FailedLookupTask(keys: seq<Key>, prefix: Key, ranges: seq<KeyRange>, i: nat)
    requires Sorted(keys) && i < |ranges| && Le(ranges[i].startKey, ranges[i].endKey)
    ensures var t := RangeTask(keys, prefix, ranges, i, false);
            && t.First(keys) == Rank(keys, ranges[i].startKey)
            && t.End(keys) >= BatchEnd(keys, ranges, i + 1)
  {
    var s, e := ranges[i].startKey, ranges[i].endKey;
    RankMonotone(keys, s, e);
    RankNext(keys, e);
  }

  /** How many of the tasks cover the row at position i. */
  function Hits(tasks: seq<Task>, keys: seq<Key>, i: nat): nat {
    if tasks == [] then 0 else
      var t := tasks[|tasks| - 1];
      Hits(tasks[..|tasks| - 1], keys, i) + if t.First(keys) <= i < t.End(keys) then 1 else 0
  }

  /** The rows from position lo up to hi are covered by exactly one task each, and no other row by any. */
  ghost predicate Once(tasks: seq<Task>, keys: seq<Key>, lo: nat, hi: nat) {
    forall i: nat :: Hits(tasks, keys, i) == if lo <= i < hi then 1 else 0
  }

  ghost predicate AtLeastOnce(tasks: seq<Task>, keys: seq<Key>, lo: nat, hi: nat) {
    forall i: nat :: lo <= i < hi ==> Hits(tasks, keys, i) >= 1
  }

  lemma {:induction false} HitsAppend(a: seq<Task>, b: seq<Task>, keys: seq<Key>, i: nat)
    ensures Hits(a + b, keys, i) == Hits(a, keys, i) + Hits(b, keys, i)
  {
    if b == [] {
      assert a + b == a;
    } else {
      var n := |b| - 1;
      assert (a + b)[..|a + b| - 1] == a + b[..n];
      HitsAppend(a, b[..n], keys, i);
    }
  }

  lemma RangePrefixes(ranges: seq<KeyRange>, startKey: Key, endKey: Key, bounds: set<Key>, prefix: Key, m: nat)
    requires ValidSplit(ranges, startKey, endKey, bounds) && m < |ranges|
    requires HasPrefix(startKey, prefix) && HasPrefix(endKey, prefix)
    ensures HasPrefix(ranges[m].startKey, prefix) && HasPrefix(ranges[m].endKey, prefix)
    ensures Le(ranges[m].startKey, ranges[m].endKey)
    ensures Le(startKey, ranges[m].startKey)
  {
    if m > 0 {
      RangePrefixes(ranges, startKey, endKey, bounds, prefix, m - 1);
      if Lt(startKey, ranges[m - 1].startKey) && Lt(ranges[m - 1].startKey, ranges[m].startKey) {
        LtTransitive(startKey, ranges[m - 1].startKey, ranges[m].startKey);
      }
    }
    var s, e := ranges[m].startKey, ranges[m].endKey;
    if Lt(startKey, s) && Lt(s, e) { LtTransitive(startKey, s, e); }
    PrefixInterval(prefix, startKey, e, endKey);
    if Lt(s, e) && Lt(e, endKey) { LtTransitive(s, e, endKey); }
    PrefixInterval(prefix, startKey, s, endKey);
  }

  lemma JoinCoverage(a: seq<Task>, b: seq<Task>, keys: seq<Key>, lo: nat, mid: nat, hi: nat)
    requires lo <= mid <= hi
    requires AtLeastOnce(a, keys, lo, mid) && AtLeastOnce(b, keys, mid, hi)
    ensures AtLeastOnce(a + b, keys, lo, hi)
    ensures Once(a, keys, lo, mid) && Once(b, keys, mid, hi) ==> Once(a + b, keys, lo, hi)
  {
    forall i: nat
      ensures Hits(a + b, keys, i) == Hits(a, keys, i) + Hits(b, keys, i)
    {
      HitsAppend(a, b, keys, i);
    }
  }

  lemma SingleTask(t: Task, keys: seq<Key>, hi: nat)
    requires t.First(keys) <= hi <= t.End(keys)
    ensures AtLeastOnce([t], keys, t.First(keys), hi)
    ensures hi == t.End(keys) ==> Once([t], keys, t.First(keys), hi)
  {
    assert [t][..0] == [];
    assert forall i: nat :: Hits([t], keys, i) == if t.First(keys) <= i < t.End(keys) then 1 else 0;
  }

  /** The first m tasks of a batch: each row of their ranges once when every lookup worked, at least once otherwise. */
  lemma {:induction false} BatchCoverage(keys: seq<Key>, prefix: Key, ranges: seq<KeyRange>, startKey: Key, endKey: Key,
                                         bounds: set<Key>, tasks: seq<Task>, found: nat -> bool, m: nat)
    requires Sorted(keys) && ValidSplit(ranges, startKey, endKey, bounds)
    requires HasPrefix(startKey, prefix) && HasPrefix(endKey, prefix)
    requires 1 <= m <= |tasks| <= |ranges|
    requires forall i :: 0 <= i < |tasks| ==> tasks[i] == RangeTask(keys, prefix, ranges, i, found(i))
    ensures Rank(keys, startKey) <= BatchEnd(keys, ranges, m)
    ensures AtLeastOnce(tasks[..m], keys, Rank(keys, startKey), BatchEnd(keys, ranges, m))
    ensures (forall j: nat :: j < m ==> found(j)) ==>
              Once(tasks[..m], keys, Rank(keys, startKey), BatchEnd(keys, ranges, m))
  {
    var t, hi := tasks[m - 1], BatchEnd(keys, ranges, m);
    RangePrefixes(ranges, startKey, endKey, bounds, prefix, m - 1);
    LastTaskCovers(keys, prefix, ranges, m - 1, found(m - 1));
    if m == 1 {
      assert tasks[..m] == [t];
    } else {
      BatchCoverage(keys, prefix, ranges, startKey, endKey, bounds, tasks, found, m - 1);
      assert tasks[..m] == tasks[..m - 1] + [t];
      JoinCoverage(tasks[..m - 1], [t], keys, Rank(keys, startKey), BatchEnd(keys, ranges, m - 1), hi);
    }
  }

  lemma LastTaskCovers(keys: seq<Key>, prefix: Key, ranges: seq<KeyRange>, i: nat, found: bool)
    requires Sorted(keys) && i < |ranges| && Le(ranges[i].startKey, ranges[i].endKey)
    requires HasPrefix(ranges[i].startKey, prefix) && HasPrefix(ranges[i].endKey, prefix)
    ensures var t, lo, hi := RangeTask(keys, prefix, ranges, i, found), Rank(keys, ranges[i].startKey), BatchEnd(keys, ranges, i + 1);
            lo <= hi && AtLeastOnce([t], keys, lo, hi) && (found ==> Once([t], keys, lo, hi))
  {
    RankMonotone(keys, ranges[i].startKey, ranges[i].endKey);
    RankNext(keys, ranges[i].endKey);
    if found { LookedUpTask(keys, prefix, ranges, i); } else { FailedLookupTask(keys, prefix, ranges, i); }
    SingleTask(RangeTask(keys, prefix, ranges, i, found), keys, BatchEnd(keys, ranges, i + 1));
  }

  /** A row covered by some finished task holds the new column. */
  lemma {:induction false} CoveredRowIsFilled(tasks: seq<Task>, keys: seq<Key>, filled: set<Key>, i: nat)
    requires i < |keys| && Hits(tasks, keys, i) >= 1
    requires forall t :: t in tasks ==> TaskFilled(keys, t, filled)
    ensures keys[i] in filled
  {
    var n := |tasks| - 1;
    var t := tasks[n];
    assert t in tasks;
    if !(t.First(keys) <= i < t.End(keys)) { CoveredRowIsFilled(tasks[..n], keys, filled, i); }
  }

  ghost function BoundsAbove(bounds: set<Key>, endKey: Key, k: Key): set<Key> {
    set b | b in bounds + {endKey} && Lt(k, b)
  }

  /** Moving the start of the range to or past one of the boundaries above it leaves fewer boundaries above. */
  lemma FewerBounds(bounds: set<Key>, endKey: Key, k: Key, e: Key, k': Key)
    requires e in bounds + {endKey} && Lt(k, e) && (k' == e || k' == Next(e))
    ensures BoundsAbove(bounds, endKey, k') < BoundsAbove(bounds, endKey, k)
  {
    NextIsSuccessor(e, e);
    LtIrreflexive(e);
    if Lt(Next(e), e) { LtTransitive(e, Next(e), e); }
    forall b | b in BoundsAbove(bounds, endKey, k')
      ensures b in BoundsAbove(bounds, endKey, k)
    {
      if k' != e { LtTransitive(e, k', b); }
      LtTransitive(k, e, b);
    }
    assert e in BoundsAbove(bounds, endKey, k) && e !in BoundsAbove(bounds, endKey, k');
  }

  /** The key the next round starts from after m tasks of a split. */
  function NextStart(ranges: seq<KeyRange>, m: nat): Key
    requires 1 <= m <= |ranges|
  {
    if m < |ranges| then ranges[m].startKey else Next(ranges[m - 1].endKey)
  }

  lemma NextStartIsProgress(ranges: seq<KeyRange>, startKey: Key, endKey: Key, bounds: set<Key>, prefix: Key, m: nat)
    requires ValidSplit(ranges, startKey, endKey, bounds) && 1 <= m <= |ranges|
    requires HasPrefix(startKey, prefix) && HasPrefix(endKey, prefix)
    ensures var e, next := ranges[m - 1].endKey, NextStart(ranges, m);
            && (next == e || next == Next(e)) && HasPrefix(next, prefix)
            && (if Lt(next, endKey) then Lt(startKey, e) else next == Next(e) && (e == endKey || Next(e) == endKey))
  {
    var s, e, next := ranges[m - 1].startKey, ranges[m - 1].endKey, NextStart(ranges, m);
    RangePrefixes(ranges, startKey, endKey, bounds, prefix, m - 1);
    assert Next(e)[..|prefix|] == e[..|prefix|];
    NextIsSuccessor(endKey, e);
    NextIsSuccessor(e, e);
    LtTotal(Next(e), endKey);
    LtIrreflexive(endKey);
    if Lt(startKey, s) && Lt(s, e) { LtTransitive(startKey, s, e); }
    NextIsSuccessor(endKey, endKey);
    if Lt(Next(endKey), endKey) { LtTransitive(endKey, Next(endKey), endKey); }
    if Lt(endKey, e) && Lt(e, endKey) { LtTransitive(endKey, e, endKey); }
    if m < |ranges| && Lt(ranges[m].endKey, endKey) { LtTransitive(next, ranges[m].endKey, endKey); }
  }

  // ----- Where the rounds of writePhysicalTableRecord end -----

  /** splitTableRanges: a region split that stops short of endKey only when it has `limit` ranges. */
  ghost predicate LimitedSplit(ranges: seq<KeyRange>, startKey: Key, endKey: Key, bounds: set<Key>, limit: nat) {
    && ValidSplit(ranges, startKey, endKey, bounds) && |ranges| <= limit
    && (ranges[|ranges| - 1].endKey == endKey || |ranges| == limit)
  }

  /** What splitTableRanges may answer in any round, with region boundaries from a finite set. */
  ghost predicate Splits(split: (nat, Key) -> seq<KeyRange>, endKey: Key, bounds: set<Key>, limit: nat) {
    forall n: nat, k :: Le(k, endKey) ==> LimitedSplit(split(n, k), k, endKey, bounds, limit)
  }

  /** The end key of the last range of the last round. */
  ghost function LastEnd(split: (nat, Key) -> seq<KeyRange>, n: nat, start: Key, endKey: Key, bounds: set<Key>, prefix: Key,
                         limit: nat): Key
    requires Splits(split, endKey, bounds, limit) && Le(start, endKey)
    requires HasPrefix(start, prefix) && HasPrefix(endKey, prefix)
    decreases BoundsAbove(bounds, endKey, start)
  {
    var ranges := split(n, start);
    var next := NextStart(ranges, |ranges|);
    NextStartIsProgress(ranges, start, endKey, bounds, prefix, |ranges|);
    if Lt(next, endKey) then
      FewerBounds(bounds, endKey, start, ranges[|ranges| - 1].endKey, next);
      LastEnd(split, n + 1, next, endKey, bounds, prefix, limit)
    else ranges[|ranges| - 1].endKey
  }

  /** The boundaries behind startKey, up to b. */
  function BoundsUpTo(bounds: set<Key>, startKey: Key, b: Key): set<Key> {
    set x | x in bounds && Lt(startKey, x) && Le(x, b)
  }

  /** A boundary lies immediately below endKey, and there are enough boundaries to fill a round up to it. */
  ghost predicate CanStopShort(startKey: Key, endKey: Key, bounds: set<Key>, limit: nat) {
    exists b :: b in bounds && Next(b) == endKey && Lt(startKey, b) && |BoundsUpTo(bounds, startKey, b)| >= limit
  }

  function Ends(ranges: seq<KeyRange>): set<Key> {
    set i | 0 <= i < |ranges| :: ranges[i].endKey
  }

  /** The ends of the ranges ascend. */
  lemma {:induction false} EndsAscend(ranges: seq<KeyRange>, startKey: Key, endKey: Key, bounds: set<Key>, i: nat, j: nat)
    requires ValidSplit(ranges, startKey, endKey, bounds) && i < j < |ranges|
    ensures Lt(ranges[i].endKey, ranges[j].endKey)
    decreases j
  {
    assert Lt(ranges[j].startKey, ranges[j].endKey) && ranges[j - 1].endKey == ranges[j].startKey;
    if i < j - 1 {
      EndsAscend(ranges, startKey, endKey, bounds, i, j - 1);
      LtTransitive(ranges[i].endKey, ranges[j].startKey, ranges[j].endKey);
    }
  }

  lemma EndsSnoc(ranges: seq<KeyRange>, r: KeyRange)
    ensures Ends(ranges + [r]) == Ends(ranges) + {r.endKey}
  {
    var all := ranges + [r];
    forall x | x in Ends(ranges) + {r.endKey} ensures x in Ends(all) {
      if x == r.endKey {
        assert all[|ranges|].endKey == x;
      } else {
        var i :| 0 <= i < |ranges| && ranges[i].endKey == x;
        assert all[i].endKey == x;
      }
    }
  }

  lemma {:induction false} EndsCount(ranges: seq<KeyRange>, startKey: Key, endKey: Key, bounds: set<Key>, m: nat)
    requires ValidSplit(ranges, startKey, endKey, bounds) && m <= |ranges|
    ensures |Ends(ranges[..m])| == m
    decreases m
  {
    if m > 0 {
      EndsCount(ranges, startKey, endKey, bounds, m - 1);
      var e := ranges[m - 1].endKey;
      forall i | 0 <= i < m - 1 ensures ranges[i].endKey != e {
        EndsAscend(ranges, startKey, endKey, bounds, i, m - 1);
        LtIrreflexive(e);
      }
      assert ranges[..m] == ranges[..m - 1] + [ranges[m - 1]];
      EndsSnoc(ranges[..m - 1], ranges[m - 1]);
      assert e !in Ends(ranges[..m - 1]);
    }
  }

  lemma SubsetSize<T>(a: set<T>, b: set<T>)
    requires a <= b
    ensures |a| <= |b|
  {
    assert b == a + (b - a);
  }

  /** A round that stops short of endKey has as many boundaries as the limit on its way. */
  lemma ShortRound(ranges: seq<KeyRange>, start: Key, startKey: Key, endKey: Key, bounds: set<Key>, limit: nat, b: Key)
    requires LimitedSplit(ranges, start, endKey, bounds, limit) && Le(startKey, start)
    requires ranges[|ranges| - 1].endKey == b && Next(b) == endKey
    ensures b in bounds && Lt(startKey, b) && |BoundsUpTo(bounds, startKey, b)| >= limit
  {
    NextIsSuccessor(b, b);
    LtIrreflexive(endKey);
    forall i | 0 <= i < |ranges| ensures ranges[i].endKey in BoundsUpTo(bounds, startKey, b) {
      if i < |ranges| - 1 { EndsAscend(ranges, start, endKey, bounds, i, |ranges| - 1); }
      var e := ranges[i].endKey;
      if e == endKey && Lt(endKey, b) { LtTransitive(endKey, b, endKey); }
      AboveStart(ranges, start, startKey, endKey, bounds, i);
    }
    EndsCount(ranges, start, endKey, bounds, |ranges|);
    assert ranges[..|ranges|] == ranges;
    SubsetSize(Ends(ranges), BoundsUpTo(bounds, startKey, b));
  }

  lemma AboveStart(ranges: seq<KeyRange>, start: Key, startKey: Key, endKey: Key, bounds: set<Key>, i: nat)
    requires ValidSplit(ranges, start, endKey, bounds) && Le(startKey, start) && i < |ranges|
    requires ranges[|ranges| - 1].endKey != endKey
    ensures Lt(startKey, ranges[i].endKey)
  {
    assert Lt(ranges[0].startKey, ranges[0].endKey);
    if Lt(startKey, start) { LtTransitive(startKey, start, ranges[0].endKey); }
    if i > 0 {
      EndsAscend(ranges, start, endKey, bounds, 0, i);
      LtTransitive(startKey, ranges[0].endKey, ranges[i].endKey);
    }
  }

  /** However the regions split, the rounds end at endKey or, if that is possible at all, just below it. */
  lemma {:induction false} LastEndIs(split: (nat, Key) -> seq<KeyRange>, n: nat, start: Key, startKey: Key, endKey: Key,
                                     bounds: set<Key>, prefix: Key, limit: nat)
    requires Splits(split, endKey, bounds, limit) && Le(startKey, start) && Le(start, endKey)
    requires HasPrefix(start, prefix) && HasPrefix(endKey, prefix)
    ensures var e := LastEnd(split, n, start, endKey, bounds, prefix, limit);
            && e in bounds + {endKey} && (e == endKey || Next(e) == endKey)
            && (e != endKey ==> CanStopShort(startKey, endKey, bounds, limit))
    decreases BoundsAbove(bounds, endKey, start)
  {
    var ranges := split(n, start);
    var next, e := NextStart(ranges, |ranges|), ranges[|ranges| - 1].endKey;
    NextStartIsProgress(ranges, start, endKey, bounds, prefix, |ranges|);
    if Lt(next, endKey) {
      FewerBounds(bounds, endKey, start, e, next);
      NextIsSuccessor(e, e);
      LtTransitive(start, e, next);
      if Lt(startKey, start) { LtTransitive(startKey, start, next); }
      LastEndIs(split, n + 1, next, startKey, endKey, bounds, prefix, limit);
    } else if e != endKey {
      ShortRound(ranges, start, startKey, endKey, bounds, limit, e);
    }
  }

  // ----- A split that stops short -----

  lemma {:induction false} GreatestKey(s: set<Key>) returns (m: Key)
    requires s != {}
    ensures m in s && forall x :: x in s ==> Le(x, m)
    decreases s
  {
    var a :| a in s;
    if s == {a} {
      m := a;
    } else {
      assert s - {a} != {};
      m := GreatestKey(s - {a});
      LtTotal(a, m);
      if Lt(m, a) {
        forall x | x in s ensures Le(x, a) {
          if x != a && x != m {
            assert x in s - {a};
            LtTransitive(x, m, a);
          }
        }
        m := a;
      }
    }
  }

  /** The last c keys of a set that ends with b, in ascending order. */
  lemma {:induction false} PickAscending(s: set<Key>, b: Key, c: nat) returns (keys: seq<Key>)
    requires b in s && (forall x :: x in s ==> Le(x, b)) && 1 <= c <= |s|
    ensures |keys| == c && keys[c - 1] == b && Sorted(keys) && forall i :: 0 <= i < c ==> keys[i] in s
    decreases c
  {
    if c == 1 {
      keys := [b];
    } else {
      var rest := s - {b};
      assert |rest| >= 1;
      var m := GreatestKey(rest);
      var init := PickAscending(rest, m, c - 1);
      keys := init + [b];
      forall i | 0 <= i < c - 1 ensures Lt(keys[i], b) {
        assert keys[i] in rest;
      }
    }
  }

  function RangesTo(startKey: Key, ends: seq<Key>): seq<KeyRange> {
    seq(|ends|, (i: nat) requires i < |ends| => KeyRange(if i == 0 then startKey else ends[i - 1], ends[i]))
  }

  lemma RangesToIsSplit(startKey: Key, endKey: Key, bounds: set<Key>, ends: seq<Key>, b: Key)
    requires ends != [] && Sorted(ends) && ends[|ends| - 1] == b && Next(b) == endKey
    requires forall i :: 0 <= i < |ends| ==> ends[i] in BoundsUpTo(bounds, startKey, b)
    ensures LimitedSplit(RangesTo(startKey, ends), startKey, endKey, bounds, |ends|)
  {
    var ranges := RangesTo(startKey, ends);
    NextIsSuccessor(b, b);
    forall i | 0 <= i < |ranges| ensures Le(ranges[i].endKey, endKey) {
      if ends[i] != b { LtTransitive(ends[i], b, endKey); }
    }
  }

  /** Splits everything in one range, except the first round, which is given. */
  function FirstThenWhole(startKey: Key, endKey: Key, first: seq<KeyRange>): (nat, Key) -> seq<KeyRange> {
    (n: nat, k: Key) => if k == startKey then first else [KeyRange(k, endKey)]
  }

  /**
    The row at endKey is covered whatever the regions do if and only if no boundary lies immediately below endKey with
    enough boundaries on the way to it to reach the limit on ranges there.
   */
  lemma EndRowAlwaysCovered(startKey: Key, endKey: Key, bounds: set<Key>, prefix: Key, limit: nat)
    requires limit >= 1 && Le(startKey, endKey) && HasPrefix(startKey, prefix) && HasPrefix(endKey, prefix)
    ensures (forall split | Splits(split, endKey, bounds, limit) :: LastEnd(split, 0, startKey, endKey, bounds, prefix, limit) == endKey)
            <==> !CanStopShort(startKey, endKey, bounds, limit)
  {
    if CanStopShort(startKey, endKey, bounds, limit) {
      var b :| b in bounds && Next(b) == endKey && Lt(startKey, b) && |BoundsUpTo(bounds, startKey, b)| >= limit;
      var split := StoppingShort(startKey, endKey, bounds, prefix, limit, b);
      NextIsSuccessor(b, b);
      LtIrreflexive(b);
    } else {
      forall split | Splits(split, endKey, bounds, limit)
        ensures LastEnd(split, 0, startKey, endKey, bounds, prefix, limit) == endKey
      {
        LastEndIs(split, 0, startKey, startKey, endKey, bounds, prefix, limit);
      }
    }
  }

  lemma StoppingShort(startKey: Key, endKey: Key, bounds: set<Key>, prefix: Key, limit: nat, b: Key)
    returns (split: (nat, Key) -> seq<KeyRange>)
    requires limit >= 1 && Le(startKey, endKey) && HasPrefix(startKey, prefix) && HasPrefix(endKey, prefix)
    requires b in bounds && Next(b) == endKey && Lt(startKey, b) && |BoundsUpTo(bounds, startKey, b)| >= limit
    ensures Splits(split, endKey, bounds, limit) && LastEnd(split, 0, startKey, endKey, bounds, prefix, limit) == b
  {
    var ends := PickAscending(BoundsUpTo(bounds, startKey, b), b, limit);
    var ranges := RangesTo(startKey, ends);
    RangesToIsSplit(startKey, endKey, bounds, ends, b);
    split := FirstThenWhole(startKey, endKey, ranges);
    forall n: nat, k | Le(k, endKey) ensures LimitedSplit(split(n, k), k, endKey, bounds, limit) {
      if k != startKey { assert split(n, k) == [KeyRange(k, endKey)]; }
    }
    assert split(0, startKey) == ranges && NextStart(ranges, |ranges|) == endKey;
    LtIrreflexive(endKey);
  }

  /** The row at EndKey itself is covered exactly when the rounds end there. */
  lemma EndRowCovered(all: seq<Task>, keys: seq<Key>, startKey: Key, endKey: Key, lastEnd: Key)
    requires Sorted(keys) && Le(startKey, endKey) && endKey in keys
    requires lastEnd == endKey || Next(lastEnd) == endKey
    requires Once(all, keys, Rank(keys, startKey), Rank(keys, Next(lastEnd)))
    ensures Hits(all, keys, Rank(keys, endKey)) == if lastEnd == endKey then 1 else 0
  {
    RankNext(keys, endKey);
    RankMonotone(keys, startKey, endKey);
  }

  /** With at most two ranges per round: regions that end at [2] and [3] leave the row at [3, 0] out. */
  lemma LimitedSplitMissesEndRow() returns (split: (nat, Key) -> seq<KeyRange>)
    ensures Splits(split, [3, 0], {[2], [3]}, 2) && split(0, [1]) == [KeyRange([1], [2]), KeyRange([2], [3])]
    ensures LastEnd(split, 0, [1], [3, 0], {[2], [3]}, [], 2) == [3]
  {
    var ends: seq<Key> := [[2], [3]];
    var ranges := RangesTo([1], ends);
    assert Next([3]) == [3, 0];
    RangesToIsSplit([1], [3, 0], {[2], [3]}, ends, [3]);
    split := FirstThenWhole([1], [3, 0], ranges);
    forall n: nat, k | Le(k, [3, 0]) ensures LimitedSplit(split(n, k), k, [3, 0], {[2], [3]}, 2) {
      if k != [1] { assert split(n, k) == [KeyRange(k, [3, 0])]; }
    }
    assert NextStart(ranges, 2) == [3, 0];
    LtIrreflexive([3, 0]);
  }
}
