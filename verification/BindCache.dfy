/** The binding cache: an LRU list that does its own memory accounting (bindinfo/bind_cache.go). */
module BindCache {
  import opened BindRecords
  import Search

  datatype Entry = Entry(key: string, value: seq<BindRecord>)

  /** calcBindCacheKVMem */
  function Mem(key: string, value: seq<BindRecord>): nat {
    |key| + RecordsSize(value)
  }

  function RecordsSize(value: seq<BindRecord>): nat {
    if value == [] then 0 else RecordsSize(value[..|value| - 1]) + value[|value| - 1].Size()
  }

  function Total(entries: seq<Entry>): nat {
    if entries == [] then 0 else Mem(entries[0].key, entries[0].value) + Total(entries[1..])
  }

  predicate DistinctKeys(entries: seq<Entry>) {
    forall i, j :: 0 <= i < j < |entries| ==> entries[i].key != entries[j].key
  }

  /** Position of the key, or the length. */
  function Find(entries: seq<Entry>, key: string): (i: nat)
    ensures i <= |entries| && (i < |entries| ==> entries[i].key == key)
    ensures i == |entries| ==> forall j :: 0 <= j < |entries| ==> entries[j].key != key
  {
    Search.First(entries, (e: Entry) => e.key == key)
  }

  function Without(entries: seq<Entry>, key: string): seq<Entry> {
    var i := Find(entries, key);
    if i == |entries| then entries else entries[..i] + entries[i + 1..]
  }

  /** The value under the key, or nothing. */
  function ValueOf(entries: seq<Entry>, key: string): seq<BindRecord> {
    var i := Find(entries, key);
    if i == |entries| then [] else entries[i].value
  }

  datatype Lookup = Found(record: BindRecord) | Absent

  function RecordFor(value: seq<BindRecord>, originalSQL: string): Lookup {
    if value == [] then Absent
    else if value[0].originalSQL == originalSQL then Found(value[0])
    else RecordFor(value[1..], originalSQL)
  }

  /** SimpleLRUCache.Get moves the entry to the front. */
  function Promote(entries: seq<Entry>, key: string): seq<Entry> {
    Front(Find(entries, key) < |entries|, key, ValueOf(entries, key)) + Without(entries, key)
  }

  /** What taking the bindings of meta out of a record leaves. */
  function Left(record: BindRecord, meta: BindRecord): seq<BindRecord> {
    if !record.IsSame(meta) then [record]
    else if Remove(record, meta).bindings == [] then []
    else [Remove(record, meta)]
  }

  function RemoveRecords(value: seq<BindRecord>, meta: BindRecord): seq<BindRecord> {
    if value == [] then [] else RemoveRecords(value[..|value| - 1], meta) + Left(value[|value| - 1], meta)
  }

  function Reverse(entries: seq<Entry>): seq<Entry> {
    if entries == [] then [] else [entries[|entries| - 1]] + Reverse(entries[..|entries| - 1])
  }

  function Front(hit: bool, key: string, value: seq<BindRecord>): seq<Entry> {
    if hit then [Entry(key, value)] else []
  }

  /** What is left of a list after evicting from its end until at most `budget` is used. */
  function EvictTo(entries: seq<Entry>, budget: int): seq<Entry> {
    if entries == [] || Total(entries) <= budget then entries else EvictTo(entries[..|entries| - 1], budget)
  }

  lemma {:induction false} TotalAppend(a: seq<Entry>, b: seq<Entry>)
    ensures Total(a + b) == Total(a) + Total(b)
  {
    if a == [] {
      assert a + b == b;
    } else {
      assert (a + b)[1..] == a[1..] + b;
      TotalAppend(a[1..], b);
    }
  }

  lemma {:induction false} TotalCut(entries: seq<Entry>, i: nat)
    requires i < |entries|
    ensures Total(entries) == Total(entries[..i] + entries[i + 1..]) + Mem(entries[i].key, entries[i].value)
  {
    var rest := [entries[i]] + entries[i + 1..];
    assert entries == entries[..i] + rest;
    TotalAppend(entries[..i], rest);
    TotalAppend(entries[..i], entries[i + 1..]);
    assert rest[1..] == entries[i + 1..];
  }

  lemma {:induction false} TotalWithout(entries: seq<Entry>, key: string)
    ensures var i := Find(entries, key);
            Total(entries) == Total(Without(entries, key)) + if i < |entries| then Mem(key, entries[i].value) else 0
  {
    var i := Find(entries, key);
    if i < |entries| { TotalCut(entries, i); }
  }

  lemma WithoutAt(entries: seq<Entry>, key: string, j: nat)
    requires DistinctKeys(entries) && j < |entries| && entries[j].key != key
    ensures entries[j] in Without(entries, key)
  {
    var i := Find(entries, key);
    if i < |entries| {
      if j < i { assert Without(entries, key)[j] == entries[j]; } else { assert Without(entries, key)[j - 1] == entries[j]; }
    }
  }

  lemma WithoutKeys(entries: seq<Entry>, key: string)
    requires DistinctKeys(entries)
    ensures DistinctKeys(Without(entries, key))
    ensures forall j :: 0 <= j < |Without(entries, key)| ==> Without(entries, key)[j] in entries && Without(entries, key)[j].key != key
  {
  }

  lemma WithoutDistinct(entries: seq<Entry>, key: string)
    requires DistinctKeys(entries)
    ensures DistinctKeys(Without(entries, key))
    ensures forall e :: e in Without(entries, key) <==> e in entries && e.key != key
  {
    WithoutKeys(entries, key);
    forall e | e in entries && e.key != key ensures e in Without(entries, key) {
      var j :| 0 <= j < |entries| && entries[j] == e;
      WithoutAt(entries, key, j);
    }
  }

  /** Eviction keeps the most recent entries, as many as fit: one more would not. */
  lemma {:induction false} EvictToIsLongest(entries: seq<Entry>, budget: int)
    requires budget >= 0
    ensures var r := EvictTo(entries, budget);
            && |r| <= |entries| && r == entries[..|r|] && Total(r) <= budget
            && (|r| < |entries| ==> Total(entries[..|r| + 1]) > budget)
            && (r == entries <==> Total(entries) <= budget)
    decreases |entries|
  {
    if entries == [] || Total(entries) <= budget {
      assert entries[..|entries|] == entries;
    } else {
      var n := |entries| - 1;
      EvictToIsLongest(entries[..n], budget);
      var r := EvictTo(entries[..n], budget);
      assert entries[..n][..|r|] == entries[..|r|];
      if |r| < n { assert entries[..n][..|r| + 1] == entries[..|r| + 1]; } else { assert entries[..n + 1] == entries; }
    }
  }

  /** What set stores: the new value first, then the most recent other entries that still fit. */
  function AfterSet(entries: seq<Entry>, key: string, value: seq<BindRecord>, capacity: int): seq<Entry> {
    [Entry(key, value)] + EvictTo(Without(entries, key), capacity - Mem(key, value))
  }

  /** What RemoveBindRecord stores. */
  function AfterRemove(entries: seq<Entry>, hash: string, meta: BindRecord, capacity: int): seq<Entry> {
    var left := RemoveRecords(ValueOf(entries, hash), meta);
    if Find(entries, hash) == |entries| then entries
    else if left == [] then Without(entries, hash)
    else if Mem(hash, left) <= capacity then AfterSet(entries, hash, left, capacity)
    else Promote(entries, hash)
  }

  /** The loop of RemoveBindRecord over a copy of the entry's records, from the last to the first. */
  method RemoveFromRecords(value: seq<BindRecord>, meta: BindRecord) returns (metas: seq<BindRecord>)
    ensures metas == RemoveRecords(value, meta)
  {
    metas := value;
    var i := |metas| - 1;
    ghost var tail: seq<BindRecord> := [];
    assert value[..i + 1] == value;
    while i >= 0
      invariant -1 <= i < |value| && metas == value[..i + 1] + tail
      invariant RemoveRecords(value, meta) == RemoveRecords(value[..i + 1], meta) + tail
    {
      RemoveLast(value, i, meta, tail);
      Splice(value, i, tail, value[i]);
      ghost var after := tail;
      tail := Left(value[i], meta) + tail;
      if metas[i].IsSame(meta) {
        var rest := RemoveBindings(metas[i], meta);
        Splice(value, i, after, rest);
        metas := metas[i := rest];
        if |rest.bindings| == 0 { metas := metas[..i] + metas[i + 1..]; }
      }
      i := i - 1;
    }
  }

  lemma Splice<T>(s: seq<T>, i: nat, tail: seq<T>, x: T)
    requires i < |s|
    ensures var t := s[..i + 1] + tail;
            && t[i] == s[i] && t[i := x] == s[..i] + ([x] + tail) && t[..i] + t[i + 1..] == s[..i] + tail
            && t[i := x][..i] + t[i := x][i + 1..] == s[..i] + tail
            && t == s[..i] + ([s[i]] + tail)
  {
  }

  lemma Reassociate<T>(a: seq<T>, b: seq<T>, c: seq<T>)
    ensures (a + b) + c == a + (b + c)
  {
  }

  lemma RemoveLast(value: seq<BindRecord>, i: nat, meta: BindRecord, tail: seq<BindRecord>)
    requires i < |value|
    ensures RemoveRecords(value[..i + 1], meta) + tail == RemoveRecords(value[..i], meta) + (Left(value[i], meta) + tail)
  {
    assert value[..i + 1][..i] == value[..i];
    Reassociate(RemoveRecords(value[..i], meta), Left(value[i], meta), tail);
  }

  class Cache {
    var entries: seq<Entry>       // most recently used first
    var memTracker: int
    var memCapacity: int

    /** The tracked memory is the sum of the sizes of the entries. */
    ghost predicate Valid()
      reads this
    {
      DistinctKeys(entries) && memTracker == Total(entries)
    }

    constructor (capacity: int)
      ensures Valid() && entries == [] && memCapacity == capacity
    {
      entries, memTracker, memCapacity := [], 0, capacity;
    }

    /** A hit returns the value and moves the entry to the front; a miss changes nothing. */
    method Get(key: string) returns (hit: bool, value: seq<BindRecord>)
      requires Valid()
      modifies this
      ensures Valid() && memCapacity == old(memCapacity) && memTracker == old(memTracker)
      ensures hit == old(Find(entries, key) < |entries|)
      ensures value == old(ValueOf(entries, key))
      ensures entries == Front(hit, key, value) + old(Without(entries, key))
    {
      var i := Find(entries, key);
      hit, value := i < |entries|, [];
      if hit {
        value := entries[i].value;
        Promoted(entries, key);
        entries := [entries[i]] + (entries[..i] + entries[i + 1..]);
      }
    }

    /** RemoveOldest of the LRU, with its memory given back. */
    method RemoveOldest()
      requires Valid() && entries != []
      modifies this
      ensures Valid() && memCapacity == old(memCapacity) && entries == old(entries)[..|old(entries)| - 1]
    {
      var oldest := entries[|entries| - 1];
      TotalLast(entries);
      entries := entries[..|entries| - 1];
      memTracker := memTracker - Mem(oldest.key, oldest.value);
    }

    /** The eviction loop of set: `head` is the entry being replaced, if any, and stays. */
    method Evict(mem: int, ghost head: seq<Entry>, ghost rest: seq<Entry>, ghost budget: nat) returns (evicted: bool)
      requires Valid() && entries == head + rest && budget == memCapacity - mem - Total(head)
      modifies this
      ensures Valid() && memCapacity == old(memCapacity)
      ensures entries == head + EvictTo(rest, budget)
      ensures mem + memTracker <= memCapacity
      ensures evicted <==> Total(rest) > budget
    {
      evicted := false;
      ghost var kept := rest;
      TotalAppend(head, rest);
      while mem + memTracker > memCapacity
        invariant entries == head + kept && Valid() && memCapacity == old(memCapacity)
        invariant Total(entries) == Total(head) + Total(kept)
        invariant EvictTo(kept, budget) == EvictTo(rest, budget)
        invariant if evicted then Total(rest) > budget else kept == rest
        decreases |entries|
      {
        EvictStep(head, kept, budget);
        if |entries| == 0 { assert false; return; }
        evicted := true;
        RemoveOldest();
        kept := kept[..|kept| - 1];
      }
    }

    /** A set whose own size fits always stores its value, never evicts the key it replaces and ends within capacity.
        It reports the memory error whenever it evicts, also when it succeeds. */
    method Set(key: string, value: seq<BindRecord>) returns (ok: bool, err: bool)
      requires Valid()
      modifies this
      ensures Valid() && memCapacity == old(memCapacity)
      ensures ok <==> Mem(key, value) <= memCapacity
      ensures !ok ==> err && entries == old(entries)
      ensures ok ==> entries == AfterSet(old(entries), key, value, memCapacity) && memTracker <= memCapacity
      ensures ok ==> (err <==> Total(old(Without(entries, key))) > memCapacity - Mem(key, value))
    {
      var mem: int := Mem(key, value);
      if mem > memCapacity { return false, true; }
      ghost var rest, budget := Without(entries, key), memCapacity - mem;
      WithoutDistinct(entries, key);
      var hit, before := Get(key);
      ghost var head := Front(hit, key, before);
      if hit { mem := mem - Mem(key, before); }
      assert memCapacity - mem - Total(head) == budget by { TotalSingle(Entry(key, before)); }
      err := Evict(mem, head, rest, budget);
      KeptSound(rest, budget, key);
      Put(key, value, mem, hit, before, EvictTo(rest, budget));
      ok := true;
    }

    /** The end of set: account for the difference and put the new value in front. */
    method Put(key: string, value: seq<BindRecord>, mem: int, ghost hit: bool, ghost before: seq<BindRecord>, ghost kept: seq<Entry>)
      requires Valid() && entries == Front(hit, key, before) + kept
      requires mem == Mem(key, value) - Total(Front(hit, key, before))
      requires DistinctKeys(kept) && forall e :: e in kept ==> e.key != key
      modifies this
      ensures Valid() && memCapacity == old(memCapacity)
      ensures entries == [Entry(key, value)] + kept && memTracker == old(memTracker) + mem
    {
      TotalAppend(Front(hit, key, before), kept);
      WithoutFront(hit, key, before, kept);
      PutFirst(kept, Entry(key, value));
      memTracker := memTracker + mem;
      entries := [Entry(key, value)] + Without(entries, key);
    }

    /** delete */
    method Delete(key: string) returns (deleted: bool)
      requires Valid()
      modifies this
      ensures Valid() && memCapacity == old(memCapacity)
      ensures deleted == old(Find(entries, key) < |entries|) && entries == old(Without(entries, key))
    {
      WithoutDistinct(entries, key);
      TotalWithout(entries, key);
      var hit, value := Get(key);
      if hit {
        memTracker := memTracker - Mem(key, value);
        entries := entries[1..];
      }
      deleted := hit;
    }

    method SetMemCapacity(capacity: int)
      requires Valid()
      modifies this
      ensures Valid() && memCapacity == capacity && entries == old(entries) && memTracker == old(memTracker)
    {
      memCapacity := capacity;
    }

    /** GetBindRecord: the record for the SQL text among those under its digest. */
    method GetBindRecord(hash: string, originalSQL: string) returns (found: bool, record: BindRecord)
      requires Valid()
      modifies this
      ensures Valid() && memCapacity == old(memCapacity) && memTracker == old(memTracker)
      ensures entries == Front(old(Find(entries, hash) < |entries|), hash, old(ValueOf(entries, hash))) + old(Without(entries, hash))
      ensures found <==> RecordFor(old(ValueOf(entries, hash)), originalSQL).Found?
      ensures found ==> RecordFor(old(ValueOf(entries, hash)), originalSQL) == Found(record)
    {
      var hit, value := Get(hash);
      record := BindRecord("", "", []);
      var i := 0;
      while i < |value|
        invariant 0 <= i <= |value|
        invariant RecordFor(value, originalSQL) == RecordFor(value[i..], originalSQL)
      {
        assert value[i..][1..] == value[i + 1..] && value[i..][0] == value[i];
        if value[i].originalSQL == originalSQL { return true, value[i]; }
        i := i + 1;
      }
      assert value[i..] == [];
      found := false;
    }

    /** SetBindRecord: the record becomes the only one under its digest. */
    method SetBindRecord(hash: string, meta: BindRecord) returns (err: bool)
      requires Valid()
      modifies this
      ensures Valid() && memCapacity == old(memCapacity)
      ensures Mem(hash, [meta]) > memCapacity ==> err && entries == old(Promote(entries, hash))
      ensures Mem(hash, [meta]) <= memCapacity ==> entries == AfterSet(old(entries), hash, [meta], memCapacity)
      ensures Mem(hash, [meta]) <= memCapacity ==>
                (err <==> Total(old(Without(entries, hash))) > memCapacity - Mem(hash, [meta]))
    {
      ghost var before := entries;
      var hit, metas := Get(hash);
      AgainWithout(before, hash);
      var ok;
      ok, err := Set(hash, [meta]);
    }

    /**
      RemoveBindRecord: take the given bindings out of the matching records. An empty list deletes the entry; otherwise
      the shorter list is stored, unless it does not fit a capacity that was lowered meanwhile: then nothing is removed.
     */
    method RemoveBindRecord(hash: string, meta: BindRecord)
      requires Valid()
      modifies this
      ensures Valid() && memCapacity == old(memCapacity)
      ensures entries == AfterRemove(old(entries), hash, meta, memCapacity)
    {
      ghost var before := entries;
      var hit, metas := Get(hash);
      AgainWithout(before, hash);
      if !hit { return; }
      metas := RemoveFromRecords(metas, meta);
      if |metas| == 0 {
        var deleted := Delete(hash);
        return;
      }
      var ok, err := Set(hash, metas);
    }

    /** One round of Copy: the key at position i is read from this cache and set into the new one. */
    method CopyKey(newCache: Cache, key: string, ghost keys: seq<Entry>, ghost i: nat, ghost quota: int)
      requires Valid() && DistinctKeys(keys) && i < |keys| && entries == Reverse(keys[..i]) + keys[i..]
      requires key == keys[i].key
      requires newCache != this && newCache.Valid() && newCache.memCapacity == quota
      requires forall e :: e in newCache.entries ==> e in keys[..i]
      modifies this, newCache
      ensures Valid() && memCapacity == old(memCapacity) && entries == Reverse(keys[..i + 1]) + keys[i + 1..]
      ensures newCache.Valid() && newCache.memCapacity == quota
      ensures old(newCache.entries) == Reverse(keys[..i]) && Total(keys) <= quota ==> newCache.entries == Reverse(keys[..i + 1])
      ensures forall e :: e in newCache.entries ==> e in keys[..i + 1]
    {
      CopyOne(keys, i);
      if Total(keys) <= quota { CopyFits(keys, i, quota); }
      CopySubset(keys, i, newCache.entries, quota);
      var hit, v := Get(key);
      var ok, setErr := newCache.Set(key, v);
    }

    /** Copy: read the keys from most to least recent and set each into a new cache with the current quota. */
    method Copy(quota: int) returns (newCache: Cache, err: bool)
      requires Valid()
      modifies this
      ensures Valid() && memCapacity == old(memCapacity) && entries == Reverse(old(entries))
      ensures fresh(newCache) && newCache.Valid() && newCache.memCapacity == quota
      ensures err <==> old(memTracker) > quota
      ensures !err ==> newCache.entries == Reverse(old(entries))
      ensures forall e :: e in newCache.entries ==> e in old(entries)
    {
      newCache := new Cache(quota);
      err := memTracker > quota;
      var keys := entries;
      assert entries[..0] == [];
      for i := 0 to |keys|
        invariant Valid() && memCapacity == old(memCapacity) && keys == old(entries)
        invariant entries == Reverse(keys[..i]) + keys[i..]
        invariant fresh(newCache) && newCache.Valid() && newCache.memCapacity == quota
        invariant !err ==> newCache.entries == Reverse(keys[..i])
        invariant forall e :: e in newCache.entries ==> e in keys[..i]
      {
        CopyKey(newCache, keys[i].key, keys, i, quota);
      }
      assert keys[..|keys|] == keys;
    }
  }

  /** Promoting a key does not change the rest of the list. */
  lemma AgainWithout(entries: seq<Entry>, key: string)
    requires DistinctKeys(entries)
    ensures Without(Promote(entries, key), key) == Without(entries, key)
    ensures ValueOf(Promote(entries, key), key) == ValueOf(entries, key)
    ensures Find(Promote(entries, key), key) < |Promote(entries, key)| <==> Find(entries, key) < |entries|
  {
    WithoutDistinct(entries, key);
    WithoutFront(Find(entries, key) < |entries|, key, ValueOf(entries, key), Without(entries, key));
  }

  lemma {:induction false} ReverseMembers(entries: seq<Entry>)
    ensures forall e :: e in Reverse(entries) <==> e in entries
    ensures Total(Reverse(entries)) == Total(entries)
    decreases |entries|
  {
    if entries != [] {
      var n := |entries| - 1;
      ReverseMembers(entries[..n]);
      assert entries == entries[..n] + [entries[n]];
      TotalAppend(entries[..n], [entries[n]]);
      TotalSingle(entries[n]);
      TotalAppend([entries[n]], Reverse(entries[..n]));
    }
  }

  /** Reading the key at position i of a list whose first i entries are already reversed. */
  lemma CopyOne(keys: seq<Entry>, i: nat)
    requires DistinctKeys(keys) && i < |keys|
    ensures var now, key := Reverse(keys[..i]) + keys[i..], keys[i].key;
            && Find(now, key) < |now| && now[Find(now, key)] == keys[i]
            && [keys[i]] + Without(now, key) == Reverse(keys[..i + 1]) + keys[i + 1..]
  {
    var r := Reverse(keys[..i]);
    ReverseMembers(keys[..i]);
    FindAfter(r, keys[i..], keys[i].key);
    assert keys[..i + 1][..i] == keys[..i];
    var now := r + keys[i..];
    assert now[|r|] == keys[i] && now[..|r|] == r && now[|r| + 1..] == keys[i + 1..];
  }

  lemma {:induction false} FindAfter(a: seq<Entry>, b: seq<Entry>, key: string)
    requires (forall e :: e in a ==> e.key != key) && b != [] && b[0].key == key
    ensures Find(a + b, key) == |a|
  {
    if a == [] {
      assert a + b == b;
    } else {
      assert (a + b)[1..] == a[1..] + b;
      assert a[0] in a;
      FindAfter(a[1..], b, key);
    }
  }

  lemma TotalAt(keys: seq<Entry>, i: nat)
    requires i < |keys|
    ensures Total(keys[..i]) + Mem(keys[i].key, keys[i].value) <= Total(keys)
  {
    assert keys == keys[..i] + keys[i..];
    TotalAppend(keys[..i], keys[i..]);
    assert keys[i..][0] == keys[i];
  }

  lemma {:induction false} CopyFits(keys: seq<Entry>, i: nat, quota: int)
    requires DistinctKeys(keys) && i < |keys| && Total(keys) <= quota
    ensures Mem(keys[i].key, keys[i].value) <= quota
    ensures AfterSet(Reverse(keys[..i]), keys[i].key, keys[i].value, quota) == Reverse(keys[..i + 1])
  {
    var r, e := Reverse(keys[..i]), keys[i];
    ReverseMembers(keys[..i]);
    TotalAt(keys, i);
    assert Without(r, e.key) == r by {
      assert Front(false, e.key, e.value) + r == r;
      WithoutFront(false, e.key, e.value, r);
    }
    assert keys[..i + 1][..i] == keys[..i] && keys[..i + 1][i] == e;
    assert EvictTo(r, quota - Mem(e.key, e.value)) == r;
  }

  lemma CopySubset(keys: seq<Entry>, i: nat, before: seq<Entry>, quota: int)
    requires DistinctKeys(before) && i < |keys| && forall e :: e in before ==> e in keys[..i]
    ensures forall e :: e in before ==> e in keys[..i + 1]
    ensures Mem(keys[i].key, keys[i].value) <= quota ==>
              forall e :: e in AfterSet(before, keys[i].key, keys[i].value, quota) ==> e in keys[..i + 1]
  {
    assert keys[..i + 1] == keys[..i] + [keys[i]];
    WithoutDistinct(before, keys[i].key);
    if Mem(keys[i].key, keys[i].value) <= quota {
      EvictToIsLongest(Without(before, keys[i].key), quota - Mem(keys[i].key, keys[i].value));
    }
  }

  lemma KeptSound(rest: seq<Entry>, budget: int, key: string)
    requires DistinctKeys(rest) && budget >= 0 && forall e :: e in rest ==> e.key != key
    ensures DistinctKeys(EvictTo(rest, budget)) && forall e :: e in EvictTo(rest, budget) ==> e.key != key
    ensures Total(EvictTo(rest, budget)) <= budget
  {
    EvictToIsLongest(rest, budget);
  }

  lemma TotalSingle(e: Entry)
    ensures Total([e]) == Mem(e.key, e.value) && Total([]) == 0
  {
    assert [e][1..] == [];
  }

  lemma TotalLast(entries: seq<Entry>)
    requires entries != []
    ensures var n := |entries| - 1; Total(entries) == Total(entries[..n]) + Mem(entries[n].key, entries[n].value)
  {
    var n := |entries| - 1;
    assert entries == entries[..n] + [entries[n]];
    TotalAppend(entries[..n], [entries[n]]);
    TotalSingle(entries[n]);
  }

  /** One eviction takes the last entry and its memory. */
  lemma EvictStep(head: seq<Entry>, kept: seq<Entry>, budget: int)
    requires 0 <= budget < Total(kept)
    ensures var all, n := head + kept, |kept| - 1;
            && n >= 0 && all[|all| - 1] == kept[n] && all[..|all| - 1] == head + kept[..n]
            && Total(head + kept[..n]) == Total(head) + Total(kept[..n])
            && Total(all) == Total(head + kept[..n]) + Mem(kept[n].key, kept[n].value)
            && EvictTo(kept, budget) == EvictTo(kept[..n], budget)
  {
    var n := |kept| - 1;
    assert kept == kept[..n] + [kept[n]];
    TotalAppend(kept[..n], [kept[n]]);
    TotalSingle(kept[n]);
    TotalAppend(head, kept[..n]);
    TotalAppend(head, kept);
  }

  lemma PutFirst(kept: seq<Entry>, e: Entry)
    requires DistinctKeys(kept) && forall f :: f in kept ==> f.key != e.key
    ensures DistinctKeys([e] + kept) && Total([e] + kept) == Mem(e.key, e.value) + Total(kept)
  {
    TotalSingle(e);
    TotalAppend([e], kept);
  }

  /** Moving an entry to the front keeps the keys distinct and the total. */
  lemma Promoted(entries: seq<Entry>, key: string)
    requires DistinctKeys(entries) && Find(entries, key) < |entries|
    ensures var e := entries[Find(entries, key)];
            DistinctKeys([e] + Without(entries, key)) && Total([e] + Without(entries, key)) == Total(entries)
  {
    TotalWithout(entries, key);
    WithoutDistinct(entries, key);
    PutFirst(Without(entries, key), entries[Find(entries, key)]);
  }

  lemma WithoutFront(hit: bool, key: string, value: seq<BindRecord>, kept: seq<Entry>)
    requires forall e :: e in kept ==> e.key != key
    ensures Without(Front(hit, key, value) + kept, key) == kept
  {
    var all := Front(hit, key, value) + kept;
    if hit {
      assert all[0] == Entry(key, value) && all[1..] == kept;
    } else {
      assert all == kept;
      assert forall i :: 0 <= i < |kept| ==> kept[i] in kept;
    }
  }

  lemma RecordsSizeSnoc(value: seq<BindRecord>, r: BindRecord)
    ensures RecordsSize(value + [r]) == RecordsSize(value) + r.Size()
  {
    assert (value + [r])[..|value|] == value;
  }

  lemma LeftIsNotLarger(record: BindRecord, meta: BindRecord)
    ensures |Left(record, meta)| <= 1
    ensures forall r :: r in Left(record, meta) ==> r.Size() <= record.Size()
  {
    RemoveShrinks(record.bindings, meta.bindings);
  }

  lemma {:induction false} RemoveNeverGrows(value: seq<BindRecord>, meta: BindRecord)
    ensures RecordsSize(RemoveRecords(value, meta)) <= RecordsSize(value)
    decreases |value|
  {
    if value != [] {
      var init, last := value[..|value| - 1], value[|value| - 1];
      RemoveNeverGrows(init, meta);
      LeftIsNotLarger(last, meta);
      var r, left := RemoveRecords(init, meta), Left(last, meta);
      assert RemoveRecords(value, meta) == r + left;
      if |left| == 0 {
        assert r + left == r;
      } else {
        assert left == [left[0]];
        RecordsSizeSnoc(r, left[0]);
      }
    }
  }

  /** While usage is within capacity, RemoveBindRecord takes effect and evicts nothing else. */
  lemma RemoveTakesEffect(entries: seq<Entry>, key: string, meta: BindRecord, capacity: int)
    requires DistinctKeys(entries) && Find(entries, key) < |entries| && Total(entries) <= capacity
    ensures var left := RemoveRecords(ValueOf(entries, key), meta);
            && Mem(key, left) <= capacity
            && AfterSet(entries, key, left, capacity) == [Entry(key, left)] + Without(entries, key)
  {
    var left := RemoveRecords(ValueOf(entries, key), meta);
    RemoveNeverGrows(ValueOf(entries, key), meta);
    TotalWithout(entries, key);
  }
}
