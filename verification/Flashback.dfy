/** The key ranges a cluster flashback covers and the walk over their regions (ddl/cluster.go). */
module Flashback {
  import opened Keys

  // ----- Table prefixes -----

  const TABLE_PREFIX: byte := 116     // 't'
  const SIGN := 0x8000_0000_0000_0000
  const LIMIT := 0x1_0000_0000_0000_0000

  predicate IsInt64(x: int) {
    -SIGN <= x < SIGN
  }

  function Pow256(w: nat): int {
    if w == 0 then 1 else 256 * Pow256(w - 1)
  }

  /** The last w bytes of n, most significant first. */
  function BigEndian(n: nat, w: nat): (r: Key)
    ensures |r| == w
  {
    if w == 0 then [] else BigEndian(n / 256, w - 1) + [(n % 256) as byte]
  }

  lemma {:induction false} BigEndianOrder(m: nat, n: nat, w: nat)
    requires m < n < Pow256(w)
    ensures Lt(BigEndian(m, w), BigEndian(n, w))
    decreases w
  {
    if m / 256 < n / 256 {
      BigEndianOrder(m / 256, n / 256, w - 1);
      LtAppend(BigEndian(m / 256, w - 1), BigEndian(n / 256, w - 1), [(m % 256) as byte], [(n % 256) as byte]);
    } else {
      assert m / 256 == n / 256 && m % 256 < n % 256;
      LtCommonPrefix(BigEndian(m / 256, w - 1), [(m % 256) as byte], [(n % 256) as byte]);
    }
  }

  /** EncodeTablePrefix: 't' and the ID with its sign bit flipped, in eight bytes. */
  function EncodeTablePrefix(id: int): Key
    requires IsInt64(id)
  {
    [TABLE_PREFIX] + BigEndian(id + SIGN, 8)
  }

  lemma PrefixOrder(a: int, b: int)
    requires IsInt64(a) && IsInt64(b) && a < b
    ensures Lt(EncodeTablePrefix(a), EncodeTablePrefix(b))
  {
    assert Pow256(8) == LIMIT by {
      assert Pow256(2) == 0x1_0000 && Pow256(4) == 0x1_0000_0000 && Pow256(6) == 0x1_0000_0000_0000;
    }
    BigEndianOrder(a + SIGN, b + SIGN, 8);
    LtCommonPrefix([TABLE_PREFIX], BigEndian(a + SIGN, 8), BigEndian(b + SIGN, 8));
  }

  predicate KeyOf(k: Key, id: int) {
    IsInt64(id) && HasPrefix(k, EncodeTablePrefix(id))
  }

  /** A key of table `id` compared with a table prefix: only the IDs count. */
  lemma KeyAgainstPrefix(k: Key, id: int, bound: int)
    requires KeyOf(k, id) && IsInt64(bound)
    ensures Le(EncodeTablePrefix(bound), k) <==> bound <= id
    ensures Lt(k, EncodeTablePrefix(bound)) <==> id < bound
  {
    var p, q := EncodeTablePrefix(id), EncodeTablePrefix(bound);
    var tail := k[|p|..];
    assert k == p + tail;
    if id < bound {
      PrefixOrder(id, bound);
      LtAppend(p, q, tail, []);
      assert q + [] == q;
      Asymmetric(k, q);
    } else {
      if bound < id {
        PrefixOrder(bound, id);
        LtAppend(q, p, [], tail);
        assert q + [] == q;
      } else {
        PrefixBelow(p, tail);
      }
      Asymmetric(q, k);
    }
  }

  lemma {:induction false} PrefixBelow(p: Key, tail: Key)
    ensures Le(p, p + tail)
  {
    if p == [] {
      assert p + tail == tail;
    } else {
      assert (p + tail)[1..] == p[1..] + tail;
      PrefixBelow(p[1..], tail);
      assert p == [p[0]] + p[1..];
      assert p + tail == [p[0]] + (p[1..] + tail);
    }
  }

  // ----- GetFlashbackKeyRanges -----

  datatype FlashbackID = FlashbackID(id: int, excluded: bool)

  /** The keys of the IDs first..last - 1. */
  datatype IDRange = IDRange(first: int, last: int)

  /** The list after sorting, for distinct IDs. */
  predicate SortedIDs(ids: seq<FlashbackID>) {
    forall i, j :: 0 <= i < j < |ids| ==> ids[i].id < ids[j].id
  }

  predicate Within(r: IDRange, id: int) {
    r.first <= id < r.last
  }

  predicate InSome(ranges: seq<IDRange>, id: int) {
    exists i :: 0 <= i < |ranges| && Within(ranges[i], id)
  }

  /** In ascending order, none empty, no two overlapping. */
  predicate Disjoint(ranges: seq<IDRange>) {
    && (forall i :: 0 <= i < |ranges| ==> ranges[i].first < ranges[i].last)
    && (forall i, j :: 0 <= i < j < |ranges| ==> ranges[i].last <= ranges[j].first)
  }

  /** No range begins before the first ID or ends behind the last, so its ends can be encoded if the IDs can. */
  predicate WithinIDs(ids: seq<FlashbackID>, ranges: seq<IDRange>) {
    forall i :: 0 <= i < |ranges| ==> ids != [] && ids[0].id <= ranges[i].first && ranges[i].last <= ids[|ids| - 1].id + 1
  }

  predicate EndBy(ranges: seq<IDRange>, bound: int) {
    forall i :: 0 <= i < |ranges| ==> ranges[i].last <= bound
  }

  /** The ranges hold exactly the IDs that are not excluded, among the first n. */
  predicate Exact(ids: seq<FlashbackID>, n: nat, ranges: seq<IDRange>)
    requires n <= |ids|
  {
    forall i :: 0 <= i < n ==> RightFor(ids, i, ranges)
  }

  predicate RightFor(ids: seq<FlashbackID>, i: nat, ranges: seq<IDRange>)
    requires i < |ids|
  {
    InSome(ranges, ids[i].id) <==> !ids[i].excluded
  }

  lemma InSomeSnoc(ranges: seq<IDRange>, r: IDRange, id: int)
    ensures InSome(ranges + [r], id) <==> InSome(ranges, id) || Within(r, id)
  {
    var all := ranges + [r];
    if InSome(ranges, id) {
      var i :| 0 <= i < |ranges| && Within(ranges[i], id);
      assert Within(all[i], id);
    }
    if Within(r, id) { assert Within(all[|ranges|], id); }
  }

  /** The ranges are right for the IDs before `from`, which follows an excluded ID or is the first. */
  predicate DoneUpTo(ids: seq<FlashbackID>, from: nat, ranges: seq<IDRange>) {
    && from <= |ids| && Disjoint(ranges) && Exact(ids, from, ranges)
    && (if from == 0 then ranges == [] else EndBy(ranges, ids[from - 1].id))
  }

  predicate NoneExcluded(ids: seq<FlashbackID>, from: int, to: int) {
    0 <= from <= to <= |ids| && forall k :: from <= k < to ==> !ids[k].excluded
  }

  /** An ID, listed or not, lies between two listed ones with no excluded one from the first to the second. */
  ghost predicate InStretch(ids: seq<FlashbackID>, n: nat, id: int)
    requires n <= |ids|
  {
    exists i, j :: 0 <= i <= j < n && NoneExcluded(ids, i, j + 1) && ids[i].id <= id <= ids[j].id
  }

  /** The ranges are the stretches among the first n: they hold the IDs in between too, and no other. */
  ghost predicate WholeStretches(ids: seq<FlashbackID>, n: nat, ranges: seq<IDRange>)
    requires n <= |ids|
  {
    forall id :: InSome(ranges, id) <==> InStretch(ids, n, id)
  }

  /** A stretch that begins after an excluded ID. */
  lemma StretchFrom(ids: seq<FlashbackID>, from: nat, to: nat, id: int)
    requires SortedIDs(ids) && from <= to <= |ids| && NoneExcluded(ids, from, to) && (from == 0 || ids[from - 1].excluded)
    ensures InStretch(ids, to, id) <==> InStretch(ids, from, id) || (from < to && ids[from].id <= id <= ids[to - 1].id)
  {
    if InStretch(ids, to, id) && !InStretch(ids, from, id) {
      var i, j :| 0 <= i <= j < to && NoneExcluded(ids, i, j + 1) && ids[i].id <= id <= ids[j].id;
      assert j >= from && i >= from;
    }
    if from < to && ids[from].id <= id <= ids[to - 1].id { assert NoneExcluded(ids, from, to - 1 + 1); }
  }

  /** Appending the range of a stretch of IDs that are not excluded. */
  lemma AppendStretch(ids: seq<FlashbackID>, from: nat, to: nat, ranges: seq<IDRange>)
    requires SortedIDs(ids) && from < to <= |ids| && DoneUpTo(ids, from, ranges)
    requires NoneExcluded(ids, from, to)
    ensures var all := ranges + [IDRange(ids[from].id, ids[to - 1].id + 1)];
            Disjoint(all) && Exact(ids, to, all) && EndBy(all, ids[to - 1].id + 1)
  {
    var r := IDRange(ids[from].id, ids[to - 1].id + 1);
    forall k | 0 <= k < to ensures RightFor(ids, k, ranges + [r]) {
      InSomeSnoc(ranges, r, ids[k].id);
      assert k < from ==> RightFor(ids, k, ranges);
    }
  }

  /** The ranges with that of the stretch from..to - 1, if it is not empty. */
  function Extend(ids: seq<FlashbackID>, from: nat, to: nat, ranges: seq<IDRange>): seq<IDRange>
    requires from <= to <= |ids|
  {
    if to > from then ranges + [IDRange(ids[from].id, ids[to - 1].id + 1)] else ranges
  }

  lemma ExtendWhole(ids: seq<FlashbackID>, from: nat, to: nat, ranges: seq<IDRange>)
    requires SortedIDs(ids) && from <= to <= |ids| && NoneExcluded(ids, from, to) && WholeStretches(ids, from, ranges)
    requires from == 0 || ids[from - 1].excluded
    ensures WholeStretches(ids, to, Extend(ids, from, to, ranges))
  {
    forall id ensures InSome(Extend(ids, from, to, ranges), id) <==> InStretch(ids, to, id) {
      StretchFrom(ids, from, to, id);
      if from < to { InSomeSnoc(ranges, IDRange(ids[from].id, ids[to - 1].id + 1), id); }
    }
  }

  /** An excluded ID ends a stretch. */
  lemma EndStretch(ids: seq<FlashbackID>, from: nat, i: nat, ranges: seq<IDRange>)
    requires SortedIDs(ids) && from <= i < |ids| && DoneUpTo(ids, from, ranges) && ids[i].excluded && NoneExcluded(ids, from, i)
    ensures DoneUpTo(ids, i + 1, Extend(ids, from, i, ranges))
  {
    var now := Extend(ids, from, i, ranges);
    if i > from { AppendStretch(ids, from, i, ranges); }
    forall k | 0 <= k < i + 1 ensures RightFor(ids, k, now) {
      if k < i { assert RightFor(ids, k, now); }
    }
  }

  lemma EndWhole(ids: seq<FlashbackID>, i: nat, ranges: seq<IDRange>)
    requires i < |ids| && ids[i].excluded && WholeStretches(ids, i, ranges)
    ensures WholeStretches(ids, i + 1, ranges)
  {
    forall id ensures InStretch(ids, i + 1, id) <==> InStretch(ids, i, id) {
      if InStretch(ids, i + 1, id) {
        var a, b :| 0 <= a <= b < i + 1 && NoneExcluded(ids, a, b + 1) && ids[a].id <= id <= ids[b].id;
        assert b < i;
      }
    }
  }

  /** The list ends the last stretch. */
  lemma LastStretch(ids: seq<FlashbackID>, from: nat, ranges: seq<IDRange>)
    requires SortedIDs(ids) && from <= |ids| && DoneUpTo(ids, from, ranges) && NoneExcluded(ids, from, |ids|)
    ensures Disjoint(Extend(ids, from, |ids|, ranges)) && Exact(ids, |ids|, Extend(ids, from, |ids|, ranges))
  {
    if |ids| > from { AppendStretch(ids, from, |ids|, ranges); }
  }

  lemma ExtendWithin(ids: seq<FlashbackID>, from: nat, to: nat, ranges: seq<IDRange>)
    requires SortedIDs(ids) && from <= to <= |ids| && WithinIDs(ids, ranges)
    ensures WithinIDs(ids, Extend(ids, from, to, ranges))
  {
  }

  /** What the loop of GetFlashbackKeyRanges does at an excluded ID. */
  method CloseStretch(ids: seq<FlashbackID>, lastExcludeIdx: int, i: nat, ranges: seq<IDRange>) returns (r: seq<IDRange>)
    requires SortedIDs(ids) && -1 <= lastExcludeIdx < i < |ids| && ids[i].excluded
    requires DoneUpTo(ids, lastExcludeIdx + 1, ranges) && NoneExcluded(ids, lastExcludeIdx + 1, i) && WithinIDs(ids, ranges)
    requires WholeStretches(ids, lastExcludeIdx + 1, ranges) && (lastExcludeIdx >= 0 ==> ids[lastExcludeIdx].excluded)
    ensures DoneUpTo(ids, i + 1, r) && WholeStretches(ids, i + 1, r) && WithinIDs(ids, r)
  {
    r := Extend(ids, lastExcludeIdx + 1, i, ranges);
    EndStretch(ids, lastExcludeIdx + 1, i, ranges);
    ExtendWhole(ids, lastExcludeIdx + 1, i, ranges);
    EndWhole(ids, i, r);
    ExtendWithin(ids, lastExcludeIdx + 1, i, ranges);
  }

  /** The last part of GetFlashbackKeyRanges. */
  method CloseLast(ids: seq<FlashbackID>, lastExcludeIdx: int, ranges: seq<IDRange>) returns (r: seq<IDRange>)
    requires SortedIDs(ids) && -1 <= lastExcludeIdx < |ids|
    requires DoneUpTo(ids, lastExcludeIdx + 1, ranges) && NoneExcluded(ids, lastExcludeIdx + 1, |ids|) && WithinIDs(ids, ranges)
    requires WholeStretches(ids, lastExcludeIdx + 1, ranges) && (lastExcludeIdx >= 0 ==> ids[lastExcludeIdx].excluded)
    ensures Disjoint(r) && Exact(ids, |ids|, r) && WithinIDs(ids, r) && WholeStretches(ids, |ids|, r)
  {
    r := Extend(ids, lastExcludeIdx + 1, |ids|, ranges);
    LastStretch(ids, lastExcludeIdx + 1, ranges);
    ExtendWhole(ids, lastExcludeIdx + 1, |ids|, ranges);
    ExtendWithin(ids, lastExcludeIdx + 1, |ids|, ranges);
  }

  /** GetFlashbackKeyRanges over the sorted IDs */
  method GetFlashbackKeyRanges(ids: seq<FlashbackID>) returns (ranges: seq<IDRange>)
    requires SortedIDs(ids)
    ensures Disjoint(ranges) && Exact(ids, |ids|, ranges) && WithinIDs(ids, ranges) && WholeStretches(ids, |ids|, ranges)
  {
    ranges := [];
    var lastExcludeIdx := -1;
    for i := 0 to |ids|
      invariant -1 <= lastExcludeIdx < i && DoneUpTo(ids, lastExcludeIdx + 1, ranges)
      invariant NoneExcluded(ids, lastExcludeIdx + 1, i) && WithinIDs(ids, ranges)
      invariant WholeStretches(ids, lastExcludeIdx + 1, ranges) && (lastExcludeIdx >= 0 ==> ids[lastExcludeIdx].excluded)
    {
      if ids[i].excluded {
        ranges := CloseStretch(ids, lastExcludeIdx, i, ranges);
        lastExcludeIdx := i;
      }
    }
    ranges := CloseLast(ids, lastExcludeIdx, ranges);
  }

  datatype KeyRange = KeyRange(start: Key, end: Key)

  predicate Holds(r: KeyRange, k: Key) {
    Le(r.start, k) && (r.end == [] || Lt(k, r.end))
  }

  function KeysOf(r: IDRange): KeyRange
    requires IsInt64(r.first) && IsInt64(r.last)
  {
    KeyRange(EncodeTablePrefix(r.first), EncodeTablePrefix(r.last))
  }

  /** IDs that can be encoded together with their successors, as table IDs up to MaxGlobalID can. */
  predicate Encodable(ids: seq<FlashbackID>) {
    forall i :: 0 <= i < |ids| ==> IsInt64(ids[i].id) && IsInt64(ids[i].id + 1)
  }

  predicate HoldsKeys(r: IDRange, k: Key) {
    IsInt64(r.first) && IsInt64(r.last) && Holds(KeysOf(r), k)
  }

  /** On keys: a key of a table that is not excluded is in exactly one of the ranges, a key of an excluded table in none. */
  lemma RangesOnKeys(ids: seq<FlashbackID>, ranges: seq<IDRange>, m: nat, k: Key)
    requires Encodable(ids) && WithinIDs(ids, ranges) && Disjoint(ranges) && Exact(ids, |ids|, ranges)
    requires m < |ids| && KeyOf(k, ids[m].id)
    ensures !ids[m].excluded <==> exists i :: 0 <= i < |ranges| && HoldsKeys(ranges[i], k)
    ensures forall i, j :: 0 <= i < |ranges| && 0 <= j < |ranges| && HoldsKeys(ranges[i], k) && HoldsKeys(ranges[j], k) ==> i == j
  {
    forall i | 0 <= i < |ranges| ensures HoldsKeys(ranges[i], k) <==> Within(ranges[i], ids[m].id) {
      assert IsInt64(ids[0].id) && IsInt64(ids[|ids| - 1].id + 1);
      KeyAgainstPrefix(k, ids[m].id, ranges[i].first);
      KeyAgainstPrefix(k, ids[m].id, ranges[i].last);
    }
    assert RightFor(ids, m, ranges);
    if !ids[m].excluded {
      var i :| 0 <= i < |ranges| && Within(ranges[i], ids[m].id);
      assert HoldsKeys(ranges[i], k);
    }
  }

  // ----- The region walk -----

  /** The regions' boundaries in ascending order: region i ends at bounds[i], the last region at infinity. */
  predicate Layout(bounds: seq<Key>) {
    Sorted(bounds) && forall i :: 0 <= i < |bounds| ==> bounds[i] != []
  }

  /** The end of the region holding k: the first boundary above it; the empty key stands for infinity. */
  function RegionEnd(bounds: seq<Key>, k: Key): Key {
    var r := Rank(bounds, Next(k));
    if r < |bounds| then bounds[r] else []
  }

  /** Consecutive requests from `start` to `end`, each inside one region. */
  predicate Tiles(bounds: seq<Key>, requests: seq<KeyRange>, start: Key, end: Key) {
    && requests != [] && requests[0].start == start && requests[|requests| - 1].end == end
    && (forall i :: 0 <= i < |requests| - 1 ==> requests[i].end != [] && requests[i].end == requests[i + 1].start)
    && (forall i :: 0 <= i < |requests| ==> requests[i].end == [] || Lt(requests[i].start, requests[i].end))
    && (forall i :: 0 <= i < |requests| ==> InOneRegion(bounds, requests[i]))
  }

  /** The requests tile the range up to a key inside it. */
  predicate TilesPrefix(bounds: seq<Key>, requests: seq<KeyRange>, start: Key, end: Key) {
    && requests != []
    && var reached := requests[|requests| - 1].end;
       Tiles(bounds, requests, start, reached) && reached != [] && (end == [] || Lt(reached, end))
  }

  predicate InOneRegion(bounds: seq<Key>, r: KeyRange) {
    forall i :: 0 <= i < |bounds| && Lt(r.start, bounds[i]) ==> r.end != [] && Le(r.end, bounds[i])
  }

  /** The end of the region is above k, and no boundary lies between. */
  lemma RegionEndIsNext(bounds: seq<Key>, k: Key)
    requires Layout(bounds)
    ensures var e := RegionEnd(bounds, k);
            && (e != [] ==> Lt(k, e) && Rank(bounds, Next(e)) > Rank(bounds, Next(k)))
            && (forall i :: 0 <= i < |bounds| && Lt(k, bounds[i]) ==> e != [] && Le(e, bounds[i]))
  {
    var r := Rank(bounds, Next(k));
    RankCounts(bounds, Next(k));
    forall i | 0 <= i < |bounds| ensures Lt(bounds[i], Next(k)) <==> Le(bounds[i], k) {
      NextIsSuccessor(bounds[i], k);
    }
    forall i | 0 <= i < |bounds| && Lt(k, bounds[i]) ensures i >= r {
      Asymmetric(k, bounds[i]);
    }
    if r < |bounds| {
      LtTotal(k, bounds[r]);
      RankOfMember(bounds, r);
    }
  }

  /**
    SendPrepareFlashbackToVersionRPC and SendFlashbackToVersionRPC: `fails(i)` says whether the i-th request ends in an
    error. A successful walk over a range that is not empty tiles it; one that fails has tiled the range up to the request
    that fails.
   */
  method SendToRegions(bounds: seq<Key>, start: Key, rangeEnd: Key, fails: nat -> bool) returns (ok: bool, requests: seq<KeyRange>)
    requires Layout(bounds)
    ensures ok && (rangeEnd == [] || Lt(start, rangeEnd)) ==> Tiles(bounds, requests, start, rangeEnd)
    ensures rangeEnd != [] && Le(rangeEnd, start) ==> ok && requests == []
    ensures forall i :: 0 <= i < |requests| ==> !fails(i)
    ensures !ok ==> fails(|requests|) && (rangeEnd == [] || Lt(start, rangeEnd))
    ensures !ok && requests != [] ==> TilesPrefix(bounds, requests, start, rangeEnd)
  {
    requests := [];
    var startKey := start;
    var done := false;
    LtTotal(start, rangeEnd);
    if rangeEnd != [] && Le(rangeEnd, start) { Asymmetric(rangeEnd, start); }
    while !done && !(rangeEnd != [] && !Lt(startKey, rangeEnd))
      invariant requests == [] ==> startKey == start && !done
      invariant forall i :: 0 <= i < |requests| ==> !fails(i)
      invariant rangeEnd != [] && Le(rangeEnd, start) ==> requests == []
      invariant done ==> Tiles(bounds, requests, start, rangeEnd)
      invariant !done && requests != [] ==> Tiles(bounds, requests, start, startKey) && startKey != [] && (rangeEnd == [] || Lt(startKey, rangeEnd))
      decreases !done, |bounds| - Rank(bounds, Next(startKey))
    {
      var endKey := RegionEnd(bounds, startKey);
      RegionEndIsNext(bounds, startKey);
      var isLast := endKey == [] || (rangeEnd != [] && !Lt(endKey, rangeEnd));
      ExtendTiles(bounds, requests, start, startKey, if isLast then rangeEnd else endKey, rangeEnd);
      if isLast { endKey := rangeEnd; }
      if fails(|requests|) { return false, requests; }
      requests := requests + [KeyRange(startKey, endKey)];
      if isLast { done := true; } else { startKey := endKey; }
    }
    ok := true;
  }

  lemma ExtendTiles(bounds: seq<Key>, requests: seq<KeyRange>, start: Key, from: Key, to: Key, rangeEnd: Key)
    requires Layout(bounds) && (requests == [] ==> from == start)
    requires requests != [] ==> Tiles(bounds, requests, start, from) && from != []
    requires var e := RegionEnd(bounds, from);
             to == if e == [] || (rangeEnd != [] && !Lt(e, rangeEnd)) then rangeEnd else e
    requires rangeEnd == [] || Lt(from, rangeEnd)
    ensures Tiles(bounds, requests + [KeyRange(from, to)], start, to)
  {
    var e, r := RegionEnd(bounds, from), KeyRange(from, to);
    RegionEndIsNext(bounds, from);
    LtTotal(e, rangeEnd);
    forall i | 0 <= i < |bounds| && Lt(from, bounds[i]) ensures to != [] && Le(to, bounds[i]) {
      if to == rangeEnd && e != rangeEnd && Lt(rangeEnd, e) && e != bounds[i] { LtTransitive(rangeEnd, e, bounds[i]); }
    }
    var all := requests + [r];
    forall i | 0 <= i < |all| ensures InOneRegion(bounds, all[i]) && (all[i].end == [] || Lt(all[i].start, all[i].end)) {
      if i < |requests| { assert all[i] == requests[i]; }
    }
  }

  /** No gap and no overlap: every key of the range is in exactly one request, and no request leaves the range. */
  lemma {:induction false} TilesOnce(bounds: seq<Key>, requests: seq<KeyRange>, start: Key, end: Key, k: Key)
    requires Tiles(bounds, requests, start, end)
    ensures Holds(KeyRange(start, end), k) <==> exists i :: 0 <= i < |requests| && Holds(requests[i], k)
    ensures forall i, j :: 0 <= i < j < |requests| ==> !(Holds(requests[i], k) && Holds(requests[j], k))
    decreases |requests|
  {
    var n := |requests| - 1;
    if n == 0 {
      assert requests[0] == KeyRange(start, end);
    } else {
      var init, mid := requests[..n], requests[n - 1].end;
      assert Tiles(bounds, init, start, mid) by {
        assert forall i :: 0 <= i < n ==> init[i] == requests[i];
      }
      TilesOnce(bounds, init, start, mid, k);
      OneMore(start, mid, end, k);
      StartBelow(bounds, init, start, mid);
      assert requests[n] == KeyRange(mid, end);
      SplitAt(requests, n, start, mid, end, k);
    }
  }

  lemma SplitAt(requests: seq<KeyRange>, n: nat, start: Key, mid: Key, end: Key, k: Key)
    requires |requests| == n + 1 && requests[n] == KeyRange(mid, end) && mid != []
    requires Holds(KeyRange(start, mid), k) <==> exists i :: 0 <= i < n && Holds(requests[..n][i], k)
    requires forall i, j :: 0 <= i < j < n ==> !(Holds(requests[..n][i], k) && Holds(requests[..n][j], k))
    requires Lt(start, mid) && (end == [] || Lt(mid, end))
    ensures Holds(KeyRange(start, end), k) <==> exists i :: 0 <= i < |requests| && Holds(requests[i], k)
    ensures forall i, j :: 0 <= i < j < |requests| ==> !(Holds(requests[i], k) && Holds(requests[j], k))
  {
    OneMore(start, mid, end, k);
    var init := requests[..n];
    forall i | 0 <= i < n ensures Holds(init[i], k) <==> Holds(requests[i], k) {
      assert init[i] == requests[i];
    }
    if Holds(KeyRange(start, mid), k) {
      var i :| 0 <= i < n && Holds(init[i], k);
      assert Holds(requests[i], k);
    }
    if Holds(KeyRange(mid, end), k) { assert Holds(requests[n], k); }
    forall i, j | 0 <= i < j < |requests| ensures !(Holds(requests[i], k) && Holds(requests[j], k)) {
      if j < n { assert !(Holds(init[i], k) && Holds(init[j], k)); }
    }
  }

  /** A range cut in two. */
  lemma OneMore(start: Key, mid: Key, end: Key, k: Key)
    requires mid != []
    ensures Lt(start, mid) && (end == [] || Lt(mid, end)) ==>
              (Holds(KeyRange(start, end), k) <==> Holds(KeyRange(start, mid), k) || Holds(KeyRange(mid, end), k))
    ensures !(Holds(KeyRange(start, mid), k) && Holds(KeyRange(mid, end), k))
  {
    LtTotal(k, mid);
    if Le(mid, k) { Asymmetric(mid, k); }
    if Lt(start, mid) {
      if Lt(mid, k) { LtTransitive(start, mid, k); }
      if Lt(k, mid) && end != [] && Lt(mid, end) { LtTransitive(k, mid, end); }
    }
  }

  lemma {:induction false} StartBelow(bounds: seq<Key>, requests: seq<KeyRange>, start: Key, end: Key)
    requires Tiles(bounds, requests, start, end)
    ensures end == [] || Lt(start, end)
    decreases |requests|
  {
    var n := |requests| - 1;
    if n > 0 {
      var init, mid := requests[..n], requests[n - 1].end;
      assert forall i :: 0 <= i < n ==> init[i] == requests[i];
      StartBelow(bounds, init, start, mid);
      if end != [] { LtTransitive(start, mid, end); }
    }
  }
}
