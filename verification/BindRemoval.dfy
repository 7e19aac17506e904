/** What removals and recency mean for the bindings in the cache (bindinfo/bind_cache.go). */
module BindRemoval {
  import opened BindRecords
  import opened BindCache
  import Search

  // ----- What a removal means for the bindings -----

  /** Taking bindings out of one record: those that are the same as none of the given ones stay, in their order. */
  lemma LeftMeans(record: BindRecord, meta: BindRecord) returns (at: seq<nat>)
    requires NoTwins(record.bindings) && SameTransitive(record.bindings + meta.bindings)
    ensures !record.IsSame(meta) ==> Left(record, meta) == [record]
    ensures record.IsSame(meta) && meta.bindings == [] ==> Left(record, meta) == []
    ensures record.IsSame(meta) && meta.bindings != [] && Left(record, meta) == [] ==>
              Search.Filters(record.bindings, [], at, SameAsNone(meta.bindings))
    ensures record.IsSame(meta) && meta.bindings != [] && Left(record, meta) != [] ==>
              && |Left(record, meta)| == 1 && Left(record, meta)[0] == record.(bindings := Left(record, meta)[0].bindings)
              && Left(record, meta)[0].bindings != []
              && Search.Filters(record.bindings, Left(record, meta)[0].bindings, at, SameAsNone(meta.bindings))
  {
    at := RemoveAllFilters(record.bindings, meta.bindings);
  }

  /** Every record can be cleaned of the bindings of meta. */
  ghost predicate Cleanable(value: seq<BindRecord>, meta: BindRecord) {
    forall r :: r in value ==> NoTwins(r.bindings) && SameTransitive(r.bindings + meta.bindings)
  }

  /** The record holds none of the bindings of meta. */
  predicate Clean(record: BindRecord, meta: BindRecord) {
    meta.bindings != [] && forall i :: 0 <= i < |record.bindings| ==> SameAsNone(meta.bindings)(record.bindings[i])
  }

  /** The binding is not among those to go. */
  predicate Stays(record: BindRecord, meta: BindRecord, b: Binding) {
    !record.IsSame(meta) || (meta.bindings != [] && SameAsNone(meta.bindings)(b))
  }

  /** Some record of r's statement holds the binding. */
  predicate HeldFor(value: seq<BindRecord>, r: BindRecord, b: Binding) {
    exists x :: x in value && x.(bindings := r.bindings) == r && b in x.bindings
  }

  lemma LeftHolds(record: BindRecord, meta: BindRecord, b: Binding)
    requires NoTwins(record.bindings) && SameTransitive(record.bindings + meta.bindings)
    requires b in record.bindings && Stays(record, meta, b)
    ensures HeldFor(Left(record, meta), record, b)
  {
    var left := Left(record, meta);
    if record.IsSame(meta) {
      var at := RemoveAllFilters(record.bindings, meta.bindings);
      var i :| 0 <= i < |record.bindings| && record.bindings[i] == b;
      assert i in at;
      var k :| 0 <= k < |at| && at[k] == i;
      assert RemoveAll(record.bindings, meta.bindings)[k] == b;
    }
    assert left[0] in left;
  }

  lemma HeldLonger(a: seq<BindRecord>, b: seq<BindRecord>, r: BindRecord, x: Binding)
    requires HeldFor(a, r, x) || HeldFor(b, r, x)
    ensures HeldFor(a + b, r, x)
  {
    var y :| (y in a || y in b) && y.(bindings := r.bindings) == r && x in y.bindings;
    assert y in a + b;
  }

  lemma {:induction false} OthersStay(value: seq<BindRecord>, meta: BindRecord, k: nat, b: Binding)
    requires Cleanable(value, meta) && k < |value| && b in value[k].bindings && Stays(value[k], meta, b)
    ensures HeldFor(RemoveRecords(value, meta), value[k], b)
    decreases |value|
  {
    var n := |value| - 1;
    if k < n {
      assert value[..n][k] == value[k];
      OthersStay(value[..n], meta, k, b);
    } else {
      assert value[n] in value;
      LeftHolds(value[n], meta, b);
    }
    HeldLonger(RemoveRecords(value[..n], meta), Left(value[n], meta), value[k], b);
  }

  /** What is left of the records: those of other statements untouched, of this one only what is clean. */
  lemma {:induction false} RemoveRecordsMeans(value: seq<BindRecord>, meta: BindRecord)
    requires Cleanable(value, meta)
    ensures forall r :: r in RemoveRecords(value, meta) ==> if r.IsSame(meta) then Clean(r, meta) else r in value
    ensures forall r :: r in value && !r.IsSame(meta) ==> r in RemoveRecords(value, meta)
    decreases |value|
  {
    if value != [] {
      var n := |value| - 1;
      assert value[n] in value && forall r :: r in value[..n] ==> r in value;
      RemoveRecordsMeans(value[..n], meta);
      var at := LeftMeans(value[n], meta);
      assert value == value[..n] + [value[n]];
    }
  }

  lemma ValueInFront(key: string, value: seq<BindRecord>, rest: seq<Entry>)
    ensures ValueOf([Entry(key, value)] + rest, key) == value
  {
    var all := [Entry(key, value)] + rest;
    assert all[0].key == key;
    assert Find(all, key) == 0;
  }

  lemma ValueWithout(entries: seq<Entry>, key: string)
    requires DistinctKeys(entries)
    ensures ValueOf(Without(entries, key), key) == []
  {
    WithoutDistinct(entries, key);
    var rest := Without(entries, key);
    forall i | 0 <= i < |rest| ensures rest[i].key != key {
      assert rest[i] in rest;
    }
  }

  /** While usage is within capacity: after a removal no record of that statement holds a binding that is the same as a given
      one, every other binding is still held, and the records of other statements under the digest are untouched. */
  lemma RemovedIsGone(entries: seq<Entry>, hash: string, meta: BindRecord, capacity: int)
    requires DistinctKeys(entries) && Total(entries) <= capacity && Cleanable(ValueOf(entries, hash), meta)
    ensures var before, after := ValueOf(entries, hash), ValueOf(AfterRemove(entries, hash, meta, capacity), hash);
            && (forall r :: r in after && r.IsSame(meta) ==> Clean(r, meta))
            && (forall r :: r in after && !r.IsSame(meta) ==> r in before)
            && (forall r :: r in before && !r.IsSame(meta) ==> r in after)
            && (forall r, b :: r in before && b in r.bindings && Stays(r, meta, b) ==> HeldFor(after, r, b))
  {
    var left := RemoveRecords(ValueOf(entries, hash), meta);
    RemoveRecordsMeans(ValueOf(entries, hash), meta);
    forall r, b | r in ValueOf(entries, hash) && b in r.bindings && Stays(r, meta, b) ensures HeldFor(left, r, b) {
      var k :| 0 <= k < |ValueOf(entries, hash)| && ValueOf(entries, hash)[k] == r;
      OthersStay(ValueOf(entries, hash), meta, k, b);
    }
    if Find(entries, hash) < |entries| {
      RemoveTakesEffect(entries, hash, meta, capacity);
      if left == [] { ValueWithout(entries, hash); } else { ValueInFront(hash, left, Without(entries, hash)); }
    }
  }

  // ----- Recency -----

  /** Taking an entry out keeps the others in their order of recency. */
  lemma WithoutKeepsOrder(entries: seq<Entry>, key: string) returns (at: seq<nat>)
    requires DistinctKeys(entries)
    ensures Search.Filters(entries, Without(entries, key), at, (e: Entry) => e.key != key)
  {
    var i := Find(entries, key);
    if i == |entries| {
      at := Search.FiltersAll(entries, (e: Entry) => e.key != key);
    } else {
      at := Search.FiltersAllButOne(entries, i, (e: Entry) => e.key != key);
    }
  }

  /** A hit makes its entry the most recent one and leaves the others in their order; a miss leaves everything. */
  lemma PromoteIsRecent(entries: seq<Entry>, key: string) returns (at: seq<nat>)
    requires DistinctKeys(entries)
    ensures var i, now := Find(entries, key), Promote(entries, key);
            if i == |entries| then now == entries
            else |now| > 0 && now[0] == entries[i] && Search.Filters(entries, now[1..], at, (e: Entry) => e.key != key)
  {
    at := WithoutKeepsOrder(entries, key);
    var i := Find(entries, key);
    if i < |entries| { assert Promote(entries, key) == [entries[i]] + Without(entries, key); }
  }

  /** Copying turns the recency order around: the entry used last becomes the next one to be evicted. */
  lemma {:induction false} CopyReversesRecency(entries: seq<Entry>, i: nat)
    requires i < |entries|
    ensures |Reverse(entries)| == |entries| && Reverse(entries)[i] == entries[|entries| - 1 - i]
    decreases |entries|
  {
    var n := |entries| - 1;
    if n > 0 { CopyReversesRecency(entries[..n], if i > 0 then i - 1 else 0); }
  }
}
