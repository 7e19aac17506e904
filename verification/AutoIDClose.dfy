/** What Service.Close does to the IDs of the other instances (autoid_service/autoid.go). */
module AutoIDClose {
  import opened AutoIDArithmetic
  import opened AutoIDService
  import opened AutoIDUniqueness

  /** An ID above the closing instance's base was handed out, or is cached by another instance. */
  ghost predicate Taken(s: System, i: nat)
    requires i < |s.segs|
  {
    (exists k :: IssuedAbove(s, k, s.segs[i].lo)) || (exists j :: j != i && CachedAbove(s, j, s.segs[i].lo))
  }

  predicate IssuedAbove(s: System, k: int, b: int) {
    0 <= k < |s.issued| && Max(s.issued[k].lo, b) < s.issued[k].hi
  }

  predicate CachedAbove(s: System, j: int, b: int) {
    0 <= j < |s.segs| && Max(s.segs[j].lo, b) < s.segs[j].hi
  }

  /** Some continuation hands out an ID twice. */
  ghost predicate CanRepeat(s: System) {
    exists steps :: ValidRun(s, steps) && !Unique(RunState(s, steps).issued)
  }

  // ----- Building continuations -----

  lemma RepeatsNow(s: System, j: nat, k: nat, id: int)
    requires j < k < |s.issued| && s.issued[j].Has(id) && s.issued[k].Has(id)
    ensures CanRepeat(s)
  {
    assert ValidRun(s, []) && !Unique(RunState(s, []).issued);
  }

  lemma RepeatsAfter(s: System, step: Step)
    requires Enabled(s, step) && CanRepeat(Apply(s, step))
    ensures CanRepeat(s)
  {
    var t := Apply(s, step);
    var rest :| ValidRun(t, rest) && !Unique(RunState(t, rest).issued);
    var steps := [step] + rest;
    assert steps[0] == step && steps[1..] == rest;
    assert ValidRun(s, steps) && RunState(s, steps) == RunState(t, rest);
  }

  /** An instance whose segment is the IDs after x - 1, and ends the counter or lies above it. */
  lemma IssueOne(s: System, k: nat, x: int) returns (t: System)
    requires k < |s.segs| && s.segs[k].lo == x - 1 && 2 <= x <= s.segs[k].hi && 0 <= s.counter
    requires x <= MAX_INT64 - 1 || (s.unsigned && x <= MAX_UINT64)
    ensures Enabled(s, AllocStep(k, Request(1, 1, 1), true)) && t == Apply(s, AllocStep(k, Request(1, 1, 1), true))
    ensures t == s.(segs := s.segs[k := Seg(x, s.segs[k].hi)], issued := s.issued + [Seg(x - 1, x)])
  {
    Fits(1);
    Fits(x);
    t := Apply(s, AllocStep(k, Request(1, 1, 1), true));
  }

  /** A fresh instance can be brought to hand out any ID above the counter that is not the last signed one. */
  lemma FreshIssues(s: System, x: int) returns (t: System)
    requires 1 <= s.counter < x && (x <= MAX_INT64 - 1 || (s.unsigned && x <= MAX_UINT64))
    ensures t.issued == s.issued + [Seg(x - 1, x)] && (CanRepeat(t) ==> CanRepeat(s))
  {
    var n := |s.segs|;
    var s1 := Apply(s, NewInstance);
    var s2 := Apply(s1, RebaseStep(n, x - 1, true));
    t := IssueOne(s2, n, x);
    if CanRepeat(t) {
      RepeatsAfter(s2, AllocStep(n, Request(1, 1, 1), true));
      RepeatsAfter(s1, RebaseStep(n, x - 1, true));
      RepeatsAfter(s, NewInstance);
    }
  }

  /** A fresh instance can fetch everything up to the last signed ID. */
  lemma FreshFetches(s: System) returns (t: System)
    requires !s.unsigned && 1 <= s.counter < MAX_INT64
    ensures |t.segs| == |s.segs| + 1 && t.segs[..|s.segs|] == s.segs && t.counter == MAX_INT64 && t.unsigned == s.unsigned
    ensures t.issued == s.issued + [Seg(s.counter, MAX_INT64)] && (CanRepeat(t) ==> CanRepeat(s))
  {
    var n, req := |s.segs|, Request(MAX_INT64 - s.counter, 1, 1);
    var s1 := Apply(s, NewInstance);
    Fits(req.n);
    Fits(MAX_INT64);
    t := Apply(s1, AllocStep(n, req, true));
    if CanRepeat(t) {
      RepeatsAfter(s1, AllocStep(n, req, true));
      RepeatsAfter(s, NewInstance);
    }
  }

  /** An ID at or below the limit that was handed out above the counter can be handed out again. */
  lemma IssuedRepeats(s: System, k: nat)
    requires 1 <= s.counter && IssuedAbove(s, k, s.counter) && s.issued[k].hi <= Top(s.unsigned)
    ensures CanRepeat(s)
  {
    var x := Max(s.issued[k].lo, s.counter) + 1;
    var t;
    if !s.unsigned && x == MAX_INT64 {
      t := FreshFetches(s);
    } else {
      t := FreshIssues(s, x);
    }
    RepeatsNow(t, k, |s.issued|, x);
  }

  /** An ID above the counter that another instance has cached can be handed out by both. */
  lemma CachedRepeats(s: System, j: nat)
    requires 1 <= s.counter && CachedAbove(s, j, s.counter) && s.segs[j].hi <= Top(s.unsigned)
    ensures CanRepeat(s)
  {
    var b, hi := Max(s.segs[j].lo, s.counter), s.segs[j].hi;
    var s1 := Apply(s, RebaseStep(j, b, true));
    assert s1 == s.(segs := s.segs[j := Seg(b, hi)]);
    if !s.unsigned && b + 1 == MAX_INT64 {
      LastCachedRepeats(s1, j);
    } else {
      var t := IssueOne(s1, j, b + 1);
      IssuedRepeats(t, |s.issued|);
      RepeatsAfter(s1, AllocStep(j, Request(1, 1, 1), true));
    }
    RepeatsAfter(s, RebaseStep(j, b, true));
  }

  /** The last signed ID is only handed out by a fetch: fetch it, close the instance that caches it, fetch it again. */
  lemma LastCachedRepeats(s: System, j: nat)
    requires !s.unsigned && 1 <= s.counter < MAX_INT64 && j < |s.segs| && s.segs[j] == Seg(MAX_INT64 - 1, MAX_INT64)
    ensures CanRepeat(s)
  {
    var t := FreshFetches(s);
    assert t.segs[j] == s.segs[j];
    var u := Apply(t, CloseStep(j));
    assert IssuedAbove(u, |s.issued|, u.counter);
    IssuedRepeats(u, |s.issued|);
    RepeatsAfter(t, CloseStep(j));
  }

  // ----- When closing is safe -----

  lemma ClosedStateSafe(s: System, i: nat)
    requires Inv(s) && i < |s.segs| && 0 < s.segs[i].lo <= MAX_INT64 && !Taken(s, i)
    ensures Inv(CloseInstance(s, i))
  {
    var b := s.segs[i].lo;
    var t := CloseInstance(s, i);
    forall j | 0 <= j < |s.segs| && j != i ensures t.segs[j] == s.segs[j] && !CachedAbove(s, j, b) {
    }
    forall k | 0 <= k < |s.issued| ensures s.issued[k].hi <= b {
      assert !IssuedAbove(s, k, b);
    }
  }

  lemma CannotRepeat(s: System)
    requires Inv(s)
    ensures !CanRepeat(s)
  {
    if steps :| ValidRun(s, steps) && !Unique(RunState(s, steps).issued) {
      RunKeeps(s, steps);
    }
  }

  /**
    Closing an instance leaves a system that can hand out an ID twice if and only if the close stores its base and an ID
    above that base was handed out or is cached elsewhere.
   */
  lemma CloseExact(s: System, i: nat)
    requires Inv(s) && i < |s.segs|
    ensures CanRepeat(CloseInstance(s, i)) <==> 0 < s.segs[i].lo <= MAX_INT64 && Taken(s, i)
  {
    var b := s.segs[i].lo;
    var t := CloseInstance(s, i);
    if !(0 < b <= MAX_INT64) {
      CannotRepeat(t);
    } else if k :| IssuedAbove(s, k, b) {
      assert IssuedAbove(t, k, t.counter);
      IssuedRepeats(t, k);
    } else if j :| j != i && CachedAbove(s, j, b) {
      assert CachedAbove(t, j, t.counter);
      CachedRepeats(t, j);
    } else {
      ClosedStateSafe(s, i);
      CannotRepeat(t);
    }
  }

  /** The guard an instance can check by itself is enough; and if the counter's last ID is taken, it is also needed. */
  lemma GuardDecides(s: System, i: nat)
    requires Inv(s) && i < |s.segs| && s.segs[i].lo <= s.segs[i].hi <= s.counter
    ensures CloseGuard(s, i) ==> !Taken(s, i)
    ensures (exists k :: 0 <= k < |s.issued| && s.issued[k].hi == s.counter)
            || (exists j :: 0 <= j < |s.segs| && s.segs[j].lo < s.segs[j].hi == s.counter) ==>
              (CloseGuard(s, i) <==> !Taken(s, i))
  {
    var b := s.segs[i].lo;
    if CloseGuard(s, i) {
      forall k | 0 <= k < |s.issued| ensures !IssuedAbove(s, k, b) {
        assert Apart(s.issued[k], s.segs[i]);
      }
      forall j | 0 <= j < |s.segs| && j != i ensures !CachedAbove(s, j, b) {
        assert if j < i then Apart(s.segs[j], s.segs[i]) else Apart(s.segs[i], s.segs[j]);
      }
    } else if k :| 0 <= k < |s.issued| && s.issued[k].hi == s.counter {
      assert IssuedAbove(s, k, b);
    } else if j :| 0 <= j < |s.segs| && s.segs[j].lo < s.segs[j].hi == s.counter {
      assert CachedAbove(s, j, b);
    }
  }

  /** The end of the segment a first rebase fetches. */
  function FetchedEnd(base: int, unsigned: bool): int {
    Min(Top(unsigned) - BATCH, base) + BATCH
  }

  /**
    After a close at base b a fresh instance hands out the IDs right after b, so that none is lost, exactly when: without
    an offset, the size at b fits above b and the signed limit test at zero passes; with one, b plus the size lies in the
    segment that the offset rebase fetches.
   */
  lemma FreshInstanceContinues(s: System, i: nat, req: Request)
    requires Inv(s) && i < |s.segs| && req.offset - 1 <= s.segs[i].lo && 0 < s.segs[i].lo <= MAX_INT64 && InRange(req)
    ensures var b, unsigned := s.segs[i].lo, s.unsigned;
            var size := I64(RawSize(b, req, unsigned));
            var o := AllocAutoID(Seg(0, 0), CloseInstance(s, i).counter, req, unsigned, true, true).outcome;
            o.Ok? && o.min == b <==>
              if req.offset == 1
              then b < Top(unsigned) && size <= Top(unsigned) - b && (unsigned || I64(RawSize(0, req, false)) < MAX_INT64)
              else (unsigned || size < MAX_INT64 - b) && Wrap(unsigned, b + size) <= FetchedEnd(b, unsigned)
  {
    var b := s.segs[i].lo;
    SizeIsRaw(b, req, s.unsigned);
    SizeIsRaw(0, req, s.unsigned);
  }

  /** Two instances. The second has moved the counter on, so closing the first lowers it below IDs already handed out:
      a fresh instance then repeats them. */
  lemma CloseWithoutGuardRepeatsIds()
    ensures var req := Request(3900, 1, 1);
            var a := Alloc(Seg(0, 0), 0, Request(100, 1, 1), false, true);
            var b := Alloc(Seg(0, 0), a.counter, req, false, true);
            var s := System(false, b.counter, [a.seg, b.seg], [Seg(0, 100), Seg(b.outcome.min, b.outcome.max)]);
            var c := Alloc(Seg(0, 0), CloseInstance(s, 0).counter, Request(4000, 1, 1), false, true);
            && b.outcome == Ok(4000, 7900) && c.outcome == Ok(100, 4100)
            && Seg(4000, 7900).Has(4050) && Seg(100, 4100).Has(4050)
  {
    Fits(100);
    Fits(3900);
    Fits(4000);
    Fits(7900);
    Fits(8000);
    Fits(4100);
    var a := Alloc(Seg(0, 0), 0, Request(100, 1, 1), false, true);
    assert a == Call(Seg(100, 4000), 4000, Ok(0, 100));
    var b := Alloc(Seg(0, 0), a.counter, Request(3900, 1, 1), false, true);
    assert b == Call(Seg(7900, 8000), 8000, Ok(4000, 7900));
  }
}
