/** Loading mysql.bind_info into the binding cache, in full and incrementally (bindinfo/handle.go). */
module BindUpdate {
  import opened BindRecords
  import opened BindCache
  import Search

  const BUILTIN: string := "builtin_pseudo_sql_for_bind_lock"

  /** A row of mysql.bind_info; `usable` says that its hints could be prepared. */
  datatype Row = Row(originalSQL: string, db: string, binding: Binding, usable: bool) {
    predicate Counts(sql: string) {
      originalSQL == sql && usable && originalSQL != BUILTIN
    }
  }

  /** The cache as a map from digests to records. */
  type Contents = map<string, seq<BindRecord>>

  ghost predicate Represents(entries: seq<Entry>, m: Contents) {
    forall e: Entry :: e in entries <==> e.key in m && m[e.key] == e.value
  }

  function Under(m: Contents, hash: string): seq<BindRecord> {
    if hash in m then m[hash] else []
  }

  /** The record a row leads to: merged into the cached one, without its deleted bindings. */
  function NewRecord(m: Contents, hash: string, row: Row): BindRecord {
    match RecordFor(Under(m, hash), row.originalSQL)
    case Absent => BindRecord(row.originalSQL, row.db, NotDeleted([row.binding]))
    case Found(r) => BindRecord(r.originalSQL, r.db, NotDeleted(MergeAll(r.bindings, [row.binding])))
  }

  /** A record with bindings replaces what is under its digest; one without is removed from there. */
  function Stored(m: Contents, hash: string, record: BindRecord): Contents {
    if record.bindings != [] then m[hash := [record]]
    else if hash !in m then m
    else
      var left := RemoveRecords(m[hash], record);
      if left == [] then m - {hash} else m[hash := left]
  }

  /** One round of the loop of Update. */
  function LoadRow(digest: string -> string, m: Contents, row: Row): Contents {
    if row.originalSQL == BUILTIN || !row.usable then m else
      var hash := digest(row.originalSQL);
      Stored(m, hash, NewRecord(m, hash, row))
  }

  function Load(digest: string -> string, m: Contents, rows: seq<Row>): Contents {
    if rows == [] then m else LoadRow(digest, Load(digest, m, rows[..|rows| - 1]), rows[|rows| - 1])
  }

  /** Loading in two parts is loading at once. */
  lemma {:induction false} LoadInParts(digest: string -> string, m: Contents, a: seq<Row>, b: seq<Row>)
    ensures Load(digest, m, a + b) == Load(digest, Load(digest, m, a), b)
    decreases |b|
  {
    if b == [] {
      assert a + b == a;
    } else {
      assert (a + b)[..|a + b| - 1] == a + b[..|b| - 1];
      LoadInParts(digest, m, a, b[..|b| - 1]);
    }
  }

  // ----- What a load means -----

  /** The last row about the same binding of the same SQL is this binding, and it is not deleted. */
  predicate Live(rows: seq<Row>, sql: string, b: Binding) {
    rows != [] &&
    var r := rows[|rows| - 1];
    if r.Counts(sql) && r.binding.IsSame(b) then r.binding == b && b.status != DELETED
    else Live(rows[..|rows| - 1], sql, b)
  }

  predicate RowBinding(rows: seq<Row>, sql: string, b: Binding) {
    exists i :: 0 <= i < |rows| && rows[i].Counts(sql) && rows[i].binding == b
  }

  /** Being the same binding is an equivalence among the rows of each SQL. */
  ghost predicate SameIsTransitive(rows: seq<Row>) {
    forall sql, a, b, c ::
      (RowBinding(rows, sql, a) && RowBinding(rows, sql, b) && RowBinding(rows, sql, c) && a.IsSame(b) && b.IsSame(c))
      ==> a.IsSame(c)
  }

  predicate Ordered(rows: seq<Row>) {
    forall i, j :: 0 <= i < j < |rows| ==> rows[i].binding.updateTime <= rows[j].binding.updateTime
  }

  ghost predicate Injective(digest: string -> string) {
    forall x, y :: digest(x) == digest(y) ==> x == y
  }

  /** The bindings cached for an SQL. */
  function BindingsFor(digest: string -> string, m: Contents, sql: string): seq<Binding> {
    match RecordFor(Under(m, digest(sql)), sql)
    case Absent => []
    case Found(r) => r.bindings
  }

  /** Merging one binding into a list without twins replaces its twin or appends it. */
  lemma MergeOneMembers(bs: seq<Binding>, b: Binding)
    requires NoTwins(bs) && (forall x :: x in bs ==> x.updateTime <= b.updateTime)
    requires forall x, y :: x in bs && y in bs && x.IsSame(b) && y.IsSame(b) ==> x.IsSame(y)
    ensures NoTwins(MergeOne(bs, bs, b))
    ensures forall x :: x in MergeOne(bs, bs, b) <==> x == b || (x in bs && !x.IsSame(b))
  {
    var j := FirstSame(bs, b);
    var r := MergeOne(bs, bs, b);
    if j == |bs| {
      assert forall x :: x in bs ==> exists i :: 0 <= i < |bs| && bs[i] == x;
    } else {
      assert bs[j] in bs;
      forall i | 0 <= i < |bs| && i != j
        ensures !bs[i].IsSame(b)
      {
        assert bs[i] in bs;
        IsSameSymmetric(bs[i], bs[j]);
      }
      forall x | x in bs && !x.IsSame(b)
        ensures x in r
      {
        var i :| 0 <= i < |bs| && bs[i] == x;
        assert r[i] == x;
      }
      assert r[j] == b;
      forall i, k | 0 <= i < k < |r|
        ensures !r[i].IsSame(r[k])
      {
        if k == j { IsSameSymmetric(b, bs[i]); }
        if i == j { IsSameSymmetric(bs[k], b); }
      }
    }
  }

  lemma {:induction false} NotDeletedNoTwins(bs: seq<Binding>)
    requires NoTwins(bs)
    ensures NoTwins(NotDeleted(bs))
    decreases |bs|
  {
    if bs != [] {
      var init, last := bs[..|bs| - 1], bs[|bs| - 1];
      NotDeletedNoTwins(init);
      NotDeletedMembers(init);
      forall x | x in NotDeleted(init)
        ensures !x.IsSame(last)
      {
        var i :| 0 <= i < |init| && init[i] == x;
        assert bs[i] == x;
      }
    }
  }

  /** Each digest leads to one record, of the SQL it is the digest of, with at least one binding. */
  predicate WellFormed(digest: string -> string, m: Contents) {
    forall h :: h in m ==> |m[h]| == 1 && digest(m[h][0].originalSQL) == h && m[h][0].bindings != []
  }

  /** A row changes the bindings of its own SQL only. */
  lemma LoadRowBindings(digest: string -> string, m: Contents, row: Row, sql: string)
    requires Injective(digest) && WellFormed(digest, m)
    ensures WellFormed(digest, LoadRow(digest, m, row))
    ensures BindingsFor(digest, LoadRow(digest, m, row), sql)
         == if row.Counts(sql)
            then NotDeleted(MergeOne(BindingsFor(digest, m, sql), BindingsFor(digest, m, sql), row.binding))
            else BindingsFor(digest, m, sql)
  {
    var hash := digest(row.originalSQL);
    var record := NewRecord(m, hash, row);
    assert [row.binding][..0] == [];
    if row.originalSQL != BUILTIN && row.usable {
      if hash in m {
        assert m[hash][0].originalSQL == row.originalSQL;
        assert m[hash][..0] == [];
        assert MergeAll(m[hash][0].bindings, [row.binding]) == MergeOne(m[hash][0].bindings, m[hash][0].bindings, row.binding);
        if record.bindings == [] { assert RemoveRecords(m[hash], record) == []; }
      } else {
        assert MergeOne([], [], row.binding) == [row.binding];
      }
    }
  }

  lemma {:induction false} LiveIsRow(rows: seq<Row>, sql: string, b: Binding)
    requires Live(rows, sql, b)
    ensures RowBinding(rows, sql, b)
    decreases |rows|
  {
    var n := |rows| - 1;
    if rows[n].Counts(sql) && rows[n].binding.IsSame(b) {
      assert rows[n].binding == b;
    } else {
      LiveIsRow(rows[..n], sql, b);
      RowBindingPrefix(rows, n, sql, b);
    }
  }

  lemma RowBindingPrefix(rows: seq<Row>, n: nat, sql: string, b: Binding)
    requires n <= |rows| && RowBinding(rows[..n], sql, b)
    ensures RowBinding(rows, sql, b)
    ensures Ordered(rows) && n < |rows| ==> b.updateTime <= rows[n].binding.updateTime
  {
    var i :| 0 <= i < n && rows[..n][i].Counts(sql) && rows[..n][i].binding == b;
    assert rows[i].Counts(sql) && rows[i].binding == b;
  }

  /** What one more row does to the live bindings of an SQL is what merging does to the cached ones. */
  lemma LoadedOneMore(rows: seq<Row>, sql: string, bs: seq<Binding>)
    requires rows != [] && SameIsTransitive(rows) && Ordered(rows) && rows[|rows| - 1].Counts(sql)
    requires NoTwins(bs) && forall b :: b in bs <==> Live(rows[..|rows| - 1], sql, b)
    ensures var after := NotDeleted(MergeOne(bs, bs, rows[|rows| - 1].binding));
            NoTwins(after) && forall b :: b in after <==> Live(rows, sql, b)
  {
    var n := |rows| - 1;
    var new_ := rows[n].binding;
    assert RowBinding(rows, sql, new_);
    forall x | x in bs
      ensures RowBinding(rows, sql, x) && x.updateTime <= new_.updateTime && x.status != DELETED
    {
      LiveIsRow(rows[..n], sql, x);
      RowBindingPrefix(rows, n, sql, x);
      LiveNotDeleted(rows[..n], sql, x);
    }
    forall x, y | x in bs && y in bs && x.IsSame(new_) && y.IsSame(new_)
      ensures x.IsSame(y)
    {
      IsSameSymmetric(y, new_);
    }
    MergeOneMembers(bs, new_);
    NotDeletedNoTwins(MergeOne(bs, bs, new_));
    NotDeletedMembers(MergeOne(bs, bs, new_));
    forall b
      ensures b in NotDeleted(MergeOne(bs, bs, new_)) <==> Live(rows, sql, b)
    {
      IsSameSymmetric(b, new_);
    }
  }

  lemma {:induction false} LiveNotDeleted(rows: seq<Row>, sql: string, b: Binding)
    requires Live(rows, sql, b)
    ensures b.status != DELETED
    decreases |rows|
  {
    var n := |rows| - 1;
    if !(rows[n].Counts(sql) && rows[n].binding.IsSame(b)) { LiveNotDeleted(rows[..n], sql, b); }
  }

  lemma SameIsTransitivePrefix(rows: seq<Row>)
    requires rows != [] && SameIsTransitive(rows)
    ensures SameIsTransitive(rows[..|rows| - 1])
  {
    var n := |rows| - 1;
    forall sql, b | RowBinding(rows[..n], sql, b)
      ensures RowBinding(rows, sql, b)
    {
      RowBindingPrefix(rows, n, sql, b);
    }
  }

  /** A full load leaves for each SQL exactly the bindings whose last row is not deleted, once each. */
  lemma {:induction false} FullLoad(digest: string -> string, rows: seq<Row>, sql: string)
    requires Injective(digest) && SameIsTransitive(rows) && Ordered(rows)
    ensures var m := Load(digest, map[], rows);
            && WellFormed(digest, m) && NoTwins(BindingsFor(digest, m, sql))
            && forall b :: b in BindingsFor(digest, m, sql) <==> Live(rows, sql, b)
    decreases |rows|
  {
    if rows != [] {
      var n := |rows| - 1;
      SameIsTransitivePrefix(rows);
      FullLoad(digest, rows[..n], sql);
      var m := Load(digest, map[], rows[..n]);
      LoadRowBindings(digest, m, rows[n], sql);
      if rows[n].Counts(sql) { LoadedOneMore(rows, sql, BindingsFor(digest, m, sql)); }
    }
  }

  // ----- Incremental loading -----

  /** The rows of an earlier version of the table that are still there unchanged. */
  function Kept(rows: seq<Row>, keep: seq<bool>): seq<Row>
    requires |keep| == |rows|
  {
    if rows == [] then [] else
      Kept(rows[..|rows| - 1], keep[..|rows| - 1]) + if keep[|rows| - 1] then [rows[|rows| - 1]] else []
  }

  /** Exactly the rows marked to be kept, in their order. */
  lemma {:induction false} KeptIs(rows: seq<Row>, keep: seq<bool>) returns (at: seq<nat>)
    requires |keep| == |rows|
    ensures Search.Positions(keep, at, (b: bool) => b) && Search.Within(rows, at) && Search.Picks(rows, Kept(rows, keep), at)
    decreases |rows|
  {
    at := [];
    if rows != [] {
      var n := |rows| - 1;
      var init := KeptIs(rows[..n], keep[..n]);
      Search.PositionsSnoc(keep, init, (b: bool) => b);
      Search.PicksSnoc(rows, Kept(rows[..n], keep[..n]), init);
      at := if keep[n] then init + [n] else init;
    }
  }

  lemma {:induction false} KeptRows(rows: seq<Row>, keep: seq<bool>)
    requires |keep| == |rows|
    ensures forall r :: r in Kept(rows, keep) ==> r in rows
    ensures Ordered(rows) ==> Ordered(Kept(rows, keep))
    decreases |rows|
  {
    if rows != [] {
      var n := |rows| - 1;
      KeptRows(rows[..n], keep[..n]);
      var k := Kept(rows[..n], keep[..n]);
      if Ordered(rows) && keep[n] {
        forall i | 0 <= i < |k|
          ensures k[i].binding.updateTime <= rows[n].binding.updateTime
        {
          assert k[i] in rows[..n];
        }
      }
    }
  }

  predicate Mentions(rows: seq<Row>, sql: string, b: Binding) {
    exists i :: 0 <= i < |rows| && rows[i].Counts(sql) && rows[i].binding.IsSame(b)
  }

  /** Later rows decide about the bindings they mention, earlier rows about the others. */
  lemma {:induction false} LiveInParts(a: seq<Row>, c: seq<Row>, sql: string, b: Binding)
    ensures Live(a + c, sql, b) <==> if Mentions(c, sql, b) then Live(c, sql, b) else Live(a, sql, b)
    decreases |c|
  {
    if c == [] {
      assert a + c == a;
    } else {
      var n := |c| - 1;
      assert (a + c)[..|a + c| - 1] == a + c[..n];
      LiveInParts(a, c[..n], sql, b);
      if c[n].Counts(sql) && c[n].binding.IsSame(b) {
        assert Mentions(c, sql, b);
      } else if Mentions(c, sql, b) {
        var i :| 0 <= i < |c| && c[i].Counts(sql) && c[i].binding.IsSame(b);
        assert c[..n][i] == c[i];
      }
    }
  }

  /** Every row that was updated in place, or deleted and inserted again, comes back among the new rows. */
  predicate Superseded(old_: seq<Row>, keep: seq<bool>, delta: seq<Row>)
    requires |keep| == |old_|
  {
    forall i :: 0 <= i < |old_| && !keep[i] && old_[i].Counts(old_[i].originalSQL) ==>
      Mentions(delta, old_[i].originalSQL, old_[i].binding)
  }

  lemma {:induction false} LiveAmongKept(rows: seq<Row>, keep: seq<bool>, delta: seq<Row>, all: seq<Row>, sql: string, b: Binding)
    requires |keep| == |rows| && Superseded(rows, keep, delta) && !Mentions(delta, sql, b)
    requires SameIsTransitive(all) && RowBinding(all, sql, b)
    requires (forall r :: r in rows ==> r in all) && forall r :: r in delta ==> r in all
    ensures Live(Kept(rows, keep), sql, b) <==> Live(rows, sql, b)
    decreases |rows|
  {
    if rows != [] {
      var n := |rows| - 1;
      var r := rows[n];
      assert Superseded(rows[..n], keep[..n], delta) by {
        assert forall i :: 0 <= i < n ==> rows[..n][i] == rows[i] && keep[..n][i] == keep[i];
      }
      LiveAmongKept(rows[..n], keep[..n], delta, all, sql, b);
      var k := Kept(rows[..n], keep[..n]);
      if keep[n] {
        assert (k + [r])[..|k|] == k;
      } else {
        assert k + [] == k;
        if r.Counts(sql) && r.binding.IsSame(b) {
          var j :| 0 <= j < |delta| && delta[j].Counts(sql) && delta[j].binding.IsSame(r.binding);
          InAll(all, r, sql);
          InAll(all, delta[j], sql);
          assert false;
        }
      }
    }
  }

  lemma InAll(all: seq<Row>, r: Row, sql: string)
    requires r in all && r.Counts(sql)
    ensures RowBinding(all, sql, r.binding)
  {
    var i :| 0 <= i < |all| && all[i] == r;
  }

  lemma {:induction false} RowsOf(rows: seq<Row>, all: seq<Row>, sql: string, b: Binding)
    requires RowBinding(rows, sql, b) && forall r :: r in rows ==> r in all
    ensures RowBinding(all, sql, b)
  {
    var i :| 0 <= i < |rows| && rows[i].Counts(sql) && rows[i].binding == b;
    InAll(all, rows[i], sql);
  }

  lemma SameIsTransitiveSubset(rows: seq<Row>, all: seq<Row>)
    requires SameIsTransitive(all) && forall r :: r in rows ==> r in all
    ensures SameIsTransitive(rows)
  {
    forall sql, b | RowBinding(rows, sql, b)
      ensures RowBinding(all, sql, b)
    {
      RowsOf(rows, all, sql, b);
    }
  }

  lemma OrderedJoin(a: seq<Row>, b: seq<Row>, c: seq<Row>)
    requires Ordered(a + c) && Ordered(b) && forall r :: r in b ==> r in a
    ensures Ordered(a) && Ordered(b + c)
  {
    assert forall i :: 0 <= i < |a| ==> (a + c)[i] == a[i];
    forall i, j | 0 <= i < j < |b + c|
      ensures (b + c)[i].binding.updateTime <= (b + c)[j].binding.updateTime
    {
      if i < |b| <= j {
        assert b[i] in b;
        var k :| 0 <= k < |a| && a[k] == b[i];
        assert (a + c)[k] == b[i] && (a + c)[|a| + j - |b|] == c[j - |b|];
      } else if |b| <= i {
        assert (a + c)[|a| + i - |b|] == c[i - |b|] && (a + c)[|a| + j - |b|] == c[j - |b|];
      }
    }
  }

  /**
    An incremental update gives what loading the table afresh would give. `before` is the table at the last load, `keep`
    says which of its rows are still there, and `delta` are the rows newer than the last load.
   */
  lemma IncrementalIsFull(digest: string -> string, before: seq<Row>, keep: seq<bool>, delta: seq<Row>, sql: string, b: Binding)
    requires Injective(digest) && |keep| == |before| && Superseded(before, keep, delta)
    requires SameIsTransitive(before + delta) && Ordered(before + delta)
    ensures var now := Kept(before, keep) + delta;
            b in BindingsFor(digest, Load(digest, Load(digest, map[], before), delta), sql)
            <==> b in BindingsFor(digest, Load(digest, map[], now), sql)
  {
    var all, now := before + delta, Kept(before, keep) + delta;
    KeptRows(before, keep);
    OrderedJoin(before, [], delta);
    OrderedJoin(before, Kept(before, keep), delta);
    SameIsTransitiveSubset(now, all);
    LoadInParts(digest, map[], before, delta);
    FullLoad(digest, all, sql);
    FullLoad(digest, now, sql);
    LiveInParts(before, delta, sql, b);
    LiveInParts(Kept(before, keep), delta, sql, b);
    if RowBinding(all, sql, b) {
      if !Mentions(delta, sql, b) { LiveAmongKept(before, keep, delta, all, sql, b); }
    } else {
      if Live(all, sql, b) { LiveIsRow(all, sql, b); }
      if Live(now, sql, b) {
        LiveIsRow(now, sql, b);
        RowsOf(now, all, sql, b);
      }
    }
  }

  // ----- The loop of Update -----

  lemma ValueUnder(entries: seq<Entry>, m: Contents, key: string)
    requires Represents(entries, m)
    ensures ValueOf(entries, key) == Under(m, key) && (Find(entries, key) < |entries| <==> key in m)
  {
    var i := Find(entries, key);
    assert i < |entries| ==> entries[i] in entries;
    assert key in m ==> Entry(key, m[key]) in entries;
  }

  lemma RepresentsWithout(entries: seq<Entry>, m: Contents, key: string)
    requires DistinctKeys(entries) && Represents(entries, m)
    ensures Represents(Without(entries, key), m - {key})
    ensures Represents(Promote(entries, key), m)
  {
    WithoutDistinct(entries, key);
    ValueUnder(entries, m, key);
  }

  /** Without eviction, set changes the one key. */
  lemma SetFits(entries: seq<Entry>, m: Contents, key: string, value: seq<BindRecord>, capacity: int)
    requires DistinctKeys(entries) && Represents(entries, m) && Mem(key, value) <= capacity
    requires Total(Without(entries, key)) <= capacity - Mem(key, value)
    ensures Represents(AfterSet(entries, key, value, capacity), m[key := value])
    ensures Total(AfterSet(entries, key, value, capacity)) <= capacity
  {
    RepresentsWithout(entries, m, key);
    assert AfterSet(entries, key, value, capacity) == [Entry(key, value)] + Without(entries, key);
    TotalSingle(Entry(key, value));
    TotalAppend([Entry(key, value)], Without(entries, key));
  }

  /** What RemoveBindRecord leaves of a cache within its capacity. */
  lemma RemoveFits(entries: seq<Entry>, m: Contents, key: string, record: BindRecord, capacity: int)
    requires DistinctKeys(entries) && Represents(entries, m) && Total(entries) <= capacity && key in m
    ensures Find(entries, key) < |entries| && ValueOf(entries, key) == m[key]
    ensures Total(Without(entries, key)) <= capacity
    ensures var left := RemoveRecords(m[key], record);
            && Mem(key, left) <= capacity
            && Represents(AfterSet(entries, key, left, capacity), m[key := left])
            && Total(AfterSet(entries, key, left, capacity)) <= capacity
  {
    ValueUnder(entries, m, key);
    TotalWithout(entries, key);
    RemoveNeverGrows(ValueOf(entries, key), record);
    SetFits(entries, m, key, RemoveRecords(m[key], record), capacity);
  }

  /** The contents take more memory than the quota. */
  ghost predicate Exceeds(m: Contents, quota: int) {
    exists entries :: DistinctKeys(entries) && Represents(entries, m) && Total(entries) > quota
  }

  lemma SetExceeds(entries: seq<Entry>, m: Contents, key: string, value: seq<BindRecord>, capacity: int)
    requires DistinctKeys(entries) && Represents(entries, m)
    requires Mem(key, value) > capacity || Total(Without(entries, key)) > capacity - Mem(key, value)
    ensures Exceeds(m[key := value], capacity)
  {
    var now := [Entry(key, value)] + Without(entries, key);
    RepresentsWithout(entries, m, key);
    WithoutDistinct(entries, key);
    PutFirst(Without(entries, key), Entry(key, value));
    assert Represents(now, m[key := value]);
  }

  /** The last part of a round: set the record, or remove it when it has no bindings left. */
  method StoreRecord(cache: Cache, hash: string, record: BindRecord, ghost m: Contents) returns (err: bool)
    requires cache.Valid() && cache.memTracker <= cache.memCapacity && Represents(cache.entries, m)
    modifies cache
    ensures cache.Valid() && cache.memCapacity == old(cache.memCapacity)
    ensures !err ==> cache.memTracker <= cache.memCapacity && Represents(cache.entries, Stored(m, hash, record))
    ensures err ==> Exceeds(Stored(m, hash, record), cache.memCapacity)
  {
    err := false;
    if |record.bindings| > 0 {
      ghost var before := cache.entries;
      err := cache.SetBindRecord(hash, record);
      if err { SetExceeds(before, m, hash, [record], cache.memCapacity); } else { SetFits(before, m, hash, [record], cache.memCapacity); }
    } else {
      if hash in m { RemoveFits(cache.entries, m, hash, record, cache.memCapacity); }
      ValueUnder(cache.entries, m, hash);
      RepresentsWithout(cache.entries, m, hash);
      cache.RemoveBindRecord(hash, record);
    }
  }

  /** One row of Update: look up, merge, drop deleted bindings, store. */
  method UpdateRow(cache: Cache, digest: string -> string, row: Row, ghost m: Contents) returns (err: bool)
    requires cache.Valid() && cache.memTracker <= cache.memCapacity && Represents(cache.entries, m)
    modifies cache
    ensures cache.Valid() && cache.memCapacity == old(cache.memCapacity)
    ensures !err ==> cache.memTracker <= cache.memCapacity && Represents(cache.entries, LoadRow(digest, m, row))
    ensures err ==> Exceeds(LoadRow(digest, m, row), cache.memCapacity)
  {
    err := false;
    if row.originalSQL == BUILTIN || !row.usable { return; }
    var hash := digest(row.originalSQL);
    ValueUnder(cache.entries, m, hash);
    RepresentsWithout(cache.entries, m, hash);
    var found, record := cache.GetBindRecord(hash, row.originalSQL);
    if found {
      record := Merge(record, BindRecord(row.originalSQL, row.db, [row.binding]));
    } else {
      record := BindRecord(row.originalSQL, row.db, [row.binding]);
    }
    record := RemoveDeletedBindings(record);
    assert record == NewRecord(m, hash, row);
    err := StoreRecord(cache, hash, record, m);
  }

  /** The newest update time among the rows Update looks at. */
  function Newest(time: int, rows: seq<Row>): int {
    if rows == [] then time else
      var before, r := Newest(time, rows[..|rows| - 1]), rows[|rows| - 1];
      if r.originalSQL != BUILTIN && r.binding.updateTime > before then r.binding.updateTime else before
  }

  lemma {:induction false} NewestIsUpperBound(time: int, rows: seq<Row>)
    ensures time <= Newest(time, rows)
    ensures forall i :: 0 <= i < |rows| && rows[i].originalSQL != BUILTIN ==> rows[i].binding.updateTime <= Newest(time, rows)
    ensures Newest(time, rows) == time
            || exists i :: 0 <= i < |rows| && rows[i].originalSQL != BUILTIN && rows[i].binding.updateTime == Newest(time, rows)
    decreases |rows|
  {
    if rows != [] { NewestIsUpperBound(time, rows[..|rows| - 1]); }
  }

  /** The handle: the published cache and the update time up to which rows have been read. */
  class BindHandle {
    var cache: Cache
    var lastUpdateTime: int

    constructor (capacity: int)
      ensures fresh(cache) && cache.Valid() && cache.entries == [] && cache.memCapacity == capacity
    {
      cache := new Cache(capacity);
      lastUpdateTime := 0;
    }

    /**
      Update with the rows the query returned. A new cache is published in any case; unless memory was exceeded it
      holds what loading every row into the old contents gives, and lastUpdateTime is the newest time among the rows.
     */
    method Update(rows: seq<Row>, digest: string -> string, quota: int, ghost m: Contents) returns (exceeded: bool)
      requires cache.Valid() && Represents(cache.entries, m)
      modifies this, cache
      ensures fresh(cache) && cache.Valid() && cache.memCapacity == quota
      ensures exceeded <== old(cache.memTracker) > quota
      ensures exceeded ==> old(cache.memTracker) > quota || exists i :: 0 < i <= |rows| && Exceeds(Load(digest, m, rows[..i]), quota)
      ensures !exceeded ==> cache.memTracker <= quota && Represents(cache.entries, Load(digest, m, rows))
      ensures !exceeded ==> lastUpdateTime == Newest(old(lastUpdateTime), rows)
      ensures old(lastUpdateTime) <= lastUpdateTime <= Newest(old(lastUpdateTime), rows)
    {
      ReverseMembers(cache.entries);
      var newCache, err := cache.Copy(quota);
      var time := lastUpdateTime;
      var i := 0;
      assert rows[..0] == [];
      while i < |rows| && !err
        invariant 0 <= i <= |rows| && fresh(newCache) && newCache.Valid() && newCache.memCapacity == quota
        invariant old(cache.memTracker) > quota ==> err
        invariant err ==> old(cache.memTracker) > quota || (i > 0 && Exceeds(Load(digest, m, rows[..i]), quota))
        invariant !err ==> newCache.memTracker <= quota && Represents(newCache.entries, Load(digest, m, rows[..i]))
        invariant time == Newest(old(lastUpdateTime), rows[..i])
      {
        assert rows[..i + 1][..i] == rows[..i];
        if rows[i].originalSQL != BUILTIN && rows[i].binding.updateTime > time { time := rows[i].binding.updateTime; }
        err := UpdateRow(newCache, digest, rows[i], Load(digest, m, rows[..i]));
        i := i + 1;
      }
      assert err && i > 0 ==> Exceeds(Load(digest, m, rows[..i]), quota) || old(cache.memTracker) > quota;
      NewestInParts(old(lastUpdateTime), rows, i);
      assert rows[..|rows|] == rows;
      lastUpdateTime, cache, exceeded := time, newCache, err;
    }
  }

  lemma {:induction false} NewestInParts(time: int, rows: seq<Row>, i: nat)
    requires i <= |rows|
    ensures time <= Newest(time, rows[..i]) <= Newest(time, rows)
    decreases |rows| + |rows| - i
  {
    if i < |rows| {
      assert rows[..i + 1][..i] == rows[..i];
      NewestInParts(time, rows, i + 1);
      NewestIsUpperBound(time, rows[..i]);
    } else {
      assert rows[..i] == rows;
      NewestIsUpperBound(time, rows);
    }
  }
}
