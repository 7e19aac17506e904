/** SQL bindings and the records that hold them (bindinfo/bind_record.go). */
module BindRecords {
  import opened Search

  const DELETED: string := "deleted"
  const TIME_SIZE: nat := 8

  datatype Binding = Binding(bindSQL: string, status: string, createTime: int, updateTime: int,
                             charset: string, collation: string, id: string) {
    /** Compared by hint string when both have one, and by SQL text otherwise. */
    predicate IsSame(other: Binding) {
      if id != "" && other.id != "" then id == other.id else bindSQL == other.bindSQL
    }

    function Size(): nat {
      |bindSQL| + |status| + 2 * TIME_SIZE + |charset| + |collation| + |id|
    }
  }

  datatype BindRecord = BindRecord(originalSQL: string, db: string, bindings: seq<Binding>) {
    predicate IsSame(other: BindRecord) {
      originalSQL == other.originalSQL
    }

    function Size(): nat {
      |originalSQL| + |db| + BindingsSize(bindings)
    }
  }

  function BindingsSize(bs: seq<Binding>): nat {
    if bs == [] then 0 else BindingsSize(bs[..|bs| - 1]) + bs[|bs| - 1].Size()
  }

  /** Position of the first binding that is the same as b, or the length. */
  function FirstSame(bs: seq<Binding>, b: Binding): (i: nat)
    ensures i <= |bs| && (i < |bs| ==> bs[i].IsSame(b))
    ensures forall j :: 0 <= j < i ==> !bs[j].IsSame(b)
  {
    if bs == [] || bs[0].IsSame(b) then 0 else 1 + FirstSame(bs[1..], b)
  }

  /** What merging one new binding into `result`, a copy of `left` so far merged, does. */
  function MergeOne(left: seq<Binding>, result: seq<Binding>, b: Binding): seq<Binding>
    requires |left| <= |result|
  {
    var j := FirstSame(left, b);
    if j == |left| then result + [b]
    else if b.updateTime >= left[j].updateTime then result[j := b]
    else result
  }

  function MergeAll(left: seq<Binding>, right: seq<Binding>): (r: seq<Binding>)
    ensures |left| <= |r|
  {
    if right == [] then left else MergeOne(left, MergeAll(left, right[..|right| - 1]), right[|right| - 1])
  }

  /** merge: bindings of the right record replace the same, not newer, ones of the left record or are appended. */
  method Merge(left: BindRecord, right: BindRecord) returns (result: BindRecord)
    ensures result == BindRecord(left.originalSQL, left.db, MergeAll(left.bindings, right.bindings))
  {
    var bs := left.bindings;
    for i := 0 to |right.bindings|
      invariant bs == MergeAll(left.bindings, right.bindings[..i])
    {
      var rbind := right.bindings[i];
      var found, j := false, 0;
      while j < |left.bindings| && !found
        invariant 0 <= j <= |left.bindings| && |left.bindings| <= |bs|
        invariant !found ==> bs == MergeAll(left.bindings, right.bindings[..i])
        invariant !found ==> forall k :: 0 <= k < j ==> !left.bindings[k].IsSame(rbind)
        invariant found ==> j < |left.bindings| && j == FirstSame(left.bindings, rbind)
        invariant found ==> bs == MergeOne(left.bindings, MergeAll(left.bindings, right.bindings[..i]), rbind)
        decreases !found, |left.bindings| - j
      {
        if left.bindings[j].IsSame(rbind) {
          found := true;
          if rbind.updateTime >= left.bindings[j].updateTime { bs := bs[j := rbind]; }
        } else {
          j := j + 1;
        }
      }
      if !found { bs := bs + [rbind]; }
      assert right.bindings[..i + 1][..i] == right.bindings[..i];
    }
    assert right.bindings[..|right.bindings|] == right.bindings;
    result := BindRecord(left.originalSQL, left.db, bs);
  }

  function DropFirstSame(bs: seq<Binding>, b: Binding): seq<Binding> {
    var i := FirstSame(bs, b);
    if i == |bs| then bs else bs[..i] + bs[i + 1..]
  }

  function RemoveAll(bs: seq<Binding>, gone: seq<Binding>): seq<Binding> {
    if gone == [] then bs else DropFirstSame(RemoveAll(bs, gone[..|gone| - 1]), gone[|gone| - 1])
  }

  /** BindRecord.remove: without bindings to delete, all of them go. */
  function Remove(record: BindRecord, gone: BindRecord): BindRecord {
    record.(bindings := if gone.bindings == [] then [] else RemoveAll(record.bindings, gone.bindings))
  }

  method RemoveBindings(record: BindRecord, gone: BindRecord) returns (result: BindRecord)
    ensures result == Remove(record, gone)
  {
    if |gone.bindings| == 0 { return record.(bindings := []); }
    var bs := record.bindings;
    for j := 0 to |gone.bindings|
      invariant bs == RemoveAll(record.bindings, gone.bindings[..j])
    {
      ghost var before := bs;
      var i := 0;
      while i < |bs|
        invariant 0 <= i <= |bs| && bs == before
        invariant forall k :: 0 <= k < i ==> !bs[k].IsSame(gone.bindings[j])
      {
        if bs[i].IsSame(gone.bindings[j]) {
          bs := bs[..i] + bs[i + 1..];
          break;
        }
        i := i + 1;
      }
      assert bs == DropFirstSame(before, gone.bindings[j]);
      assert gone.bindings[..j + 1][..j] == gone.bindings[..j];
    }
    assert gone.bindings[..|gone.bindings|] == gone.bindings;
    result := record.(bindings := bs);
  }

  function NotDeleted(bs: seq<Binding>): seq<Binding> {
    if bs == [] then [] else
      NotDeleted(bs[..|bs| - 1]) + if bs[|bs| - 1].status != DELETED then [bs[|bs| - 1]] else []
  }

  /** removeDeletedBindings */
  method RemoveDeletedBindings(record: BindRecord) returns (result: BindRecord)
    ensures result == record.(bindings := NotDeleted(record.bindings))
  {
    var bs := [];
    for i := 0 to |record.bindings|
      invariant bs == NotDeleted(record.bindings[..i])
    {
      if record.bindings[i].status != DELETED { bs := bs + [record.bindings[i]]; }
      assert record.bindings[..i + 1][..i] == record.bindings[..i];
    }
    assert record.bindings[..|record.bindings|] == record.bindings;
    result := record.(bindings := bs);
  }

  lemma {:induction false} NotDeletedMembers(bs: seq<Binding>)
    ensures forall b :: b in NotDeleted(bs) <==> b in bs && b.status != DELETED
    decreases |bs|
  {
    if bs != [] {
      NotDeletedMembers(bs[..|bs| - 1]);
      assert bs == bs[..|bs| - 1] + [bs[|bs| - 1]];
    }
  }

  lemma {:induction false} BindingsSizeAppend(a: seq<Binding>, b: seq<Binding>)
    ensures BindingsSize(a + b) == BindingsSize(a) + BindingsSize(b)
    decreases |b|
  {
    if b == [] {
      assert a + b == a;
    } else {
      assert (a + b)[..|a + b| - 1] == a + b[..|b| - 1];
      BindingsSizeAppend(a, b[..|b| - 1]);
    }
  }

  lemma DropShrinks(bs: seq<Binding>, b: Binding)
    ensures BindingsSize(DropFirstSame(bs, b)) <= BindingsSize(bs)
  {
    var i := FirstSame(bs, b);
    if i < |bs| {
      var x, y, z := bs[..i], [bs[i]], bs[i + 1..];
      assert bs == x + (y + z);
      BindingsSizeAppend(x, y + z);
      BindingsSizeAppend(y, z);
      BindingsSizeAppend(x, z);
    }
  }

  /** Removing bindings never makes a record larger. */
  lemma {:induction false} RemoveShrinks(bs: seq<Binding>, gone: seq<Binding>)
    ensures BindingsSize(RemoveAll(bs, gone)) <= BindingsSize(bs)
    decreases |gone|
  {
    if gone != [] {
      RemoveShrinks(bs, gone[..|gone| - 1]);
      DropShrinks(RemoveAll(bs, gone[..|gone| - 1]), gone[|gone| - 1]);
    }
  }

  // ----- What merging and removing mean -----

  predicate NoTwins(bs: seq<Binding>) {
    forall i, j :: 0 <= i < j < |bs| ==> !bs[i].IsSame(bs[j])
  }

  lemma IsSameSymmetric(a: Binding, b: Binding)
    ensures a.IsSame(b) <==> b.IsSame(a)
  {
  }

  /** Being the same binding is an equivalence among these. */
  ghost predicate SameTransitive(bs: seq<Binding>) {
    forall x, y, z :: x in bs && y in bs && z in bs && x.IsSame(y) && y.IsSame(z) ==> x.IsSame(z)
  }

  function SameAsNone(others: seq<Binding>): Binding -> bool {
    (b: Binding) => forall i :: 0 <= i < |others| ==> !b.IsSame(others[i])
  }

  lemma {:induction false} NotDeletedFilters(bs: seq<Binding>) returns (at: seq<nat>)
    ensures Filters(bs, NotDeleted(bs), at, (b: Binding) => b.status != DELETED)
    decreases |bs|
  {
    at := [];
    if bs != [] {
      var n := |bs| - 1;
      var init := NotDeletedFilters(bs[..n]);
      FiltersSnoc(bs, NotDeleted(bs[..n]), init, (b: Binding) => b.status != DELETED);
      at := if bs[n].status != DELETED then init + [n] else init;
    }
  }

  /** At most one binding of a list without twins is the same as b. */
  lemma OnlyOneSame(bs: seq<Binding>, b: Binding, i: nat, j: nat)
    requires NoTwins(bs) && SameTransitive(bs + [b]) && i < |bs| && j < |bs| && bs[i].IsSame(b) && bs[j].IsSame(b)
    ensures i == j
  {
    var all := bs + [b];
    assert all[i] == bs[i] && all[j] == bs[j] && all[|bs|] == b;
    assert bs[i] in all && bs[j] in all && b in all;
    IsSameSymmetric(bs[i], b);
    IsSameSymmetric(bs[j], b);
    assert bs[i].IsSame(bs[j]) && bs[j].IsSame(bs[i]);
  }

  lemma DropFilters(bs: seq<Binding>, b: Binding) returns (at: seq<nat>)
    requires NoTwins(bs) && SameTransitive(bs + [b])
    ensures Filters(bs, DropFirstSame(bs, b), at, SameAsNone([b]))
  {
    var i, n := FirstSame(bs, b), |bs|;
    forall k | 0 <= k < n ensures SameAsNone([b])(bs[k]) <==> k != i {
      assert [b][0] == b;
      if k > i && bs[k].IsSame(b) { OnlyOneSame(bs, b, i, k); }
    }
    if i == n { at := FiltersAll(bs, SameAsNone([b])); } else { at := FiltersAllButOne(bs, i, SameAsNone([b])); }
  }

  lemma SubsetTransitive(bs: seq<Binding>, cs: seq<Binding>)
    requires SameTransitive(cs) && forall b :: b in bs ==> b in cs
    ensures SameTransitive(bs)
  {
  }

  lemma FilteredNoTwins(bs: seq<Binding>, r: seq<Binding>, at: seq<nat>, p: Binding -> bool)
    requires NoTwins(bs) && Filters(bs, r, at, p)
    ensures NoTwins(r) && forall b :: b in r ==> b in bs
  {
  }

  /** Removing given bindings leaves exactly those that are the same as none of them, in their order. */
  lemma {:induction false} RemoveAllFilters(bs: seq<Binding>, gone: seq<Binding>) returns (at: seq<nat>)
    requires NoTwins(bs) && SameTransitive(bs + gone)
    ensures Filters(bs, RemoveAll(bs, gone), at, SameAsNone(gone))
    decreases |gone|
  {
    if gone == [] {
      at := FiltersAll(bs, SameAsNone(gone));
    } else {
      var n := |gone| - 1;
      var init, last := gone[..n], gone[n];
      SubsetTransitive(bs + init, bs + gone);
      var at0 := RemoveAllFilters(bs, init);
      at := RemoveOneMore(bs, RemoveAll(bs, init), at0, init, last);
      SameAsNoneSnoc(init, last);
      assert init + [last] == gone;
    }
  }

  lemma SameAsNoneSnoc(init: seq<Binding>, last: Binding)
    ensures forall b :: SameAsNone(init + [last])(b) <==> SameAsNone(init)(b) && SameAsNone([last])(b)
  {
    var all := init + [last];
    assert all[|init|] == last && [last][0] == last && forall k :: 0 <= k < |init| ==> all[k] == init[k];
  }

  lemma RemoveOneMore(bs: seq<Binding>, rest: seq<Binding>, at: seq<nat>, init: seq<Binding>, last: Binding) returns (ct: seq<nat>)
    requires NoTwins(bs) && Filters(bs, rest, at, SameAsNone(init)) && SameTransitive(bs + (init + [last]))
    ensures Filters(bs, DropFirstSame(rest, last), ct, SameAsNone(init + [last]))
  {
    FilteredNoTwins(bs, rest, at, SameAsNone(init));
    SubsetTransitive(rest + [last], bs + (init + [last]));
    var bt := DropFilters(rest, last);
    SameAsNoneSnoc(init, last);
    ct := FiltersTwice(bs, rest, at, SameAsNone(init), DropFirstSame(rest, last), bt, SameAsNone([last]), SameAsNone(init + [last]));
  }

  /** What merging makes of a binding of the left record: the same one of the right record unless all of those are older. */
  predicate MergedTo(l: Binding, right: seq<Binding>, x: Binding) {
    || (exists i :: 0 <= i < |right| && right[i].IsSame(l) && right[i].updateTime >= l.updateTime && x == right[i])
    || (x == l && forall i :: 0 <= i < |right| && right[i].IsSame(l) ==> right[i].updateTime < l.updateTime)
  }

  /** One more binding on the right: it replaces its twin if it is not older. */
  lemma MergedToSnoc(l: Binding, init: seq<Binding>, last: Binding, x: Binding)
    requires MergedTo(l, init, x)
    ensures !last.IsSame(l) || last.updateTime < l.updateTime ==> MergedTo(l, init + [last], x)
    ensures last.IsSame(l) && last.updateTime >= l.updateTime ==> MergedTo(l, init + [last], last)
  {
    var right := init + [last];
    assert right[|init|] == last;
    if i :| 0 <= i < |init| && init[i].IsSame(l) && init[i].updateTime >= l.updateTime && x == init[i] {
      assert right[i] == init[i];
    }
  }

  lemma MergeStep(left: seq<Binding>, init: seq<Binding>, last: Binding, before: seq<Binding>, at: seq<nat>)
    returns (now: seq<nat>)
    requires NoTwins(left) && SameTransitive(left + [last]) && |before| == |left| + |at|
    requires forall j :: 0 <= j < |left| ==> MergedTo(left[j], init, before[j])
    requires Filters(init, before[|left|..], at, SameAsNone(left))
    ensures var r, right := MergeOne(left, before, last), init + [last];
            && |r| == |left| + |now| && (forall j :: 0 <= j < |left| ==> MergedTo(left[j], right, r[j]))
            && Filters(right, r[|left|..], now, SameAsNone(left))
  {
    var j, right, r := FirstSame(left, last), init + [last], MergeOne(left, before, last);
    forall i | 0 <= i < |left| ensures last.IsSame(left[i]) <==> i == j {
      IsSameSymmetric(left[i], last);
      if i > j && left[i].IsSame(last) { OnlyOneSame(left, last, j, i); }
    }
    forall i | 0 <= i < |left| ensures MergedTo(left[i], right, r[i]) {
      MergedToSnoc(left[i], init, last, before[i]);
    }
    assert right[..|init|] == init && right[|init|] == last;
    assert SameAsNone(left)(last) <==> j == |left|;
    FiltersSnoc(right, before[|left|..], at, SameAsNone(left));
    now := if j == |left| then at + [|init|] else at;
    assert r[|left|..] == if j == |left| then before[|left|..] + [last] else before[|left|..];
  }

  /**
    Merging: each binding of the left record stays in its place, replaced by the same one of the right record unless that is
    older, and the bindings of the right record that are the same as none of the left one follow in their order.
   */
  lemma {:induction false} MergeMeans(left: seq<Binding>, right: seq<Binding>) returns (at: seq<nat>)
    requires NoTwins(left) && SameTransitive(left + right)
    ensures var r := MergeAll(left, right);
            && |r| == |left| + |at| && (forall j :: 0 <= j < |left| ==> MergedTo(left[j], right, r[j]))
            && Filters(right, r[|left|..], at, SameAsNone(left))
    decreases |right|
  {
    at := [];
    if right != [] {
      var n := |right| - 1;
      SubsetTransitive(left + right[..n], left + right);
      SubsetTransitive(left + [right[n]], left + right);
      var init := MergeMeans(left, right[..n]);
      at := MergeStep(left, right[..n], right[n], MergeAll(left, right[..n]), init);
      assert right[..n] + [right[n]] == right;
    }
  }
}
