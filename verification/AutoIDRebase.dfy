/** What a rebase promises, and what an allocation takes and leaves (autoid_service/autoid.go). */
module AutoIDRebase {
  import opened AutoIDArithmetic
  import opened AutoIDService
  import opened AutoIDUniqueness

  // ----- One call -----

  /**
    A rebase fails only with its transaction. Otherwise the base is at or above what was required: inside the cached
    segment it is the larger of the two, and beyond it a new batch starts at the larger of required and counter.
   */
  lemma RebaseReaches(seg: Seg, counter: int, required: int, unsigned: bool, txnOk: bool)
    requires 0 <= counter <= Top(unsigned) && required <= Top(unsigned)
    ensures var c := Rebase(seg, counter, required, unsigned, txnOk);
            var cached := required <= Max(seg.lo, seg.hi);
            && (c.outcome.Failed? <==> !cached && !txnOk)
            && (c.outcome.Failed? ==> c.seg == seg && c.counter == counter)
            && (c.outcome.Ok? ==> Max(seg.lo, required) <= c.seg.lo && c.outcome == Ok(c.seg.lo, c.seg.lo))
            && (cached ==> c.seg == Seg(Max(seg.lo, required), seg.hi) && c.counter == counter)
            && (c.outcome.Ok? && !cached ==>
                  && c.seg.lo == Max(counter, required) && c.counter == c.seg.hi
                  && c.seg.lo <= c.seg.hi && (c.seg.hi == c.seg.lo + BATCH || c.seg.hi == Top(unsigned)))
  {
  }

  /**
    An allocation that does not wrap uses the cached segment whenever that is large enough. Otherwise it fails with its
    transaction or when the counter has no room, and else fetches one batch, or as much as the request needs, or the rest.
   */
  lemma AllocTakes(seg: Seg, counter: int, req: Request, unsigned: bool, txnOk: bool)
    requires req.increment > 0 && Bounded(seg, counter, unsigned) && NoWrap(seg, counter, req, unsigned, txnOk)
    ensures var c := Alloc(seg, counter, req, unsigned, txnOk);
            var size := I64(RawSize(counter, req, unsigned));
            var rejected := !unsigned && MAX_INT64 - seg.lo <= I64(RawSize(seg.lo, req, unsigned));
            && (c.outcome.Failed? <==> rejected || (!Served(seg, req, unsigned) && (!txnOk || Top(unsigned) - counter < Max(1, size))))
            && (c.outcome.Ok? && Served(seg, req, unsigned) ==> c.counter == counter && c.outcome.min == seg.lo)
            && (c.outcome.Ok? && !Served(seg, req, unsigned) ==>
                  && c.outcome == Ok(counter, counter + size)
                  && (c.counter == counter + Max(BATCH, size) || (c.counter == Top(unsigned) && c.counter < counter + BATCH)))
  {
    var n, m := RawSize(seg.lo, req, unsigned), RawSize(counter, req, unsigned);
    SizeIsRaw(seg.lo, req, unsigned);
    SizeIsRaw(counter, req, unsigned);
    SameSum(seg.lo, n, unsigned);
    Fits(counter + I64(m));
    Fits(counter + Min(Top(unsigned) - counter, Max(BATCH, I64(m))));
  }

  /**
    A whole allocation, offset rebase included: the IDs it hands out are at or above the offset, and they hold exactly n
    congruent to it if and only if the size before the cut is the needed one and fits 64 bits.
   */
  lemma WholeAllocExact(seg: Seg, counter: int, req: Request, unsigned: bool, rebaseOk: bool, txnOk: bool)
    requires InRange(req) && req.n >= 1 && 0 <= seg.lo <= seg.hi <= counter <= Top(unsigned)
    requires var r := Rebase(seg, counter, req.offset - 1, unsigned, rebaseOk);
             r.outcome.Ok? && NoWrap(r.seg, r.counter, req, unsigned, txnOk)
    ensures var o := AllocAutoID(seg, counter, req, unsigned, rebaseOk, txnOk).outcome;
            o.Ok? ==>
              && req.offset - 1 <= o.min < o.max
              && (HoldsN(o.min, o.max, req) <==>
                  RawSize(o.min, req, unsigned) == Needed(o.min, req) && Needed(o.min, req) <= MAX_UINT64)
  {
    var r := Rebase(seg, counter, req.offset - 1, unsigned, rebaseOk);
    RebaseReaches(seg, counter, req.offset - 1, unsigned, rebaseOk);
    FromTheBase(r.seg, r.counter, req, unsigned, txnOk);
    if Alloc(r.seg, r.counter, req, unsigned, txnOk).outcome.Ok? {
      AllocExact(r.seg, r.counter, req, unsigned, txnOk);
    }
  }

  /** What is handed out starts at or above the base. */
  lemma FromTheBase(seg: Seg, counter: int, req: Request, unsigned: bool, txnOk: bool)
    requires InRange(req) && 0 <= seg.lo <= seg.hi <= counter <= Top(unsigned) && NoWrap(seg, counter, req, unsigned, txnOk)
    ensures var o := Alloc(seg, counter, req, unsigned, txnOk).outcome; o.Ok? ==> seg.lo <= o.min
  {
    AllocTakes(seg, counter, req, unsigned, txnOk);
  }

  // ----- Over runs -----

  /** The ID at the end of instance i's segment belongs to it; or the instance is at the very top and hands out nothing. */
  ghost predicate Owns(s: System, i: nat) {
    i < |s.segs| &&
    var g := s.segs[i];
    || (g.lo <= g.hi <= s.counter
        && forall k :: 0 <= k < |s.segs| && k != i && s.segs[k].lo < s.segs[k].hi ==> g.hi <= s.segs[k].lo || s.segs[k].hi < g.hi)
    || g == Seg(Top(s.unsigned), Top(s.unsigned))
  }

  /** At the very top nothing can be handed out. */
  lemma NothingAtTop(counter: int, req: Request, unsigned: bool, txnOk: bool)
    requires InRange(req) && 0 <= counter <= Top(unsigned)
    requires NoWrap(Seg(Top(unsigned), Top(unsigned)), counter, req, unsigned, txnOk)
    ensures Alloc(Seg(Top(unsigned), Top(unsigned)), counter, req, unsigned, txnOk).outcome.Failed?
  {
    var top, n := Top(unsigned), RawSize(Top(unsigned), req, unsigned);
    SizeIsRaw(top, req, unsigned);
    SameSum(top, n, unsigned);
    if unsigned { UnsignedSum(top, U64(n)); } else { Fits(top + I64(n)); }
  }

  /** What one allocation of an instance means for its segment. */
  lemma AllocMoves(s: System, i: nat, req: Request, txnOk: bool)
    requires Inv(s) && Owns(s, i) && Enabled(s, AllocStep(i, req, txnOk))
    ensures var c := Alloc(s.segs[i], s.counter, req, s.unsigned, txnOk);
            && (c.outcome.Ok? ==> s.segs[i].lo <= c.outcome.min)
            && s.segs[i].lo <= c.seg.lo
            && (|| (c.seg.hi == s.segs[i].hi && c.counter == s.counter && c.seg.lo <= Max(c.seg.hi, s.segs[i].lo))
                || (s.counter < c.counter == c.seg.hi <= Top(s.unsigned) && c.seg.lo <= c.seg.hi))
  {
    ForwardExact(s.segs[i], s.counter, req, s.unsigned, txnOk);
    if s.segs[i] == Seg(Top(s.unsigned), Top(s.unsigned)) { NothingAtTop(s.counter, req, s.unsigned, txnOk); }
  }

  /** A step of instance i that leaves its end alone, or takes a new end above everything. */
  lemma OwnerActs(s: System, i: nat, seg: Seg, counter: int)
    requires Inv(s) && Owns(s, i) && s.segs[i].lo <= seg.lo <= Max(seg.hi, s.segs[i].lo) && counter <= Top(s.unsigned)
    requires (seg.hi == s.segs[i].hi && counter == s.counter) || (seg.lo <= seg.hi == counter && s.counter < counter)
             || (seg == Seg(Top(s.unsigned), Top(s.unsigned)) && counter == s.counter)
    ensures Owns(s.(counter := counter, segs := s.segs[i := seg]), i)
  {
  }

  /** A step of another instance j that narrows its segment, or fetches one at or above the counter. */
  lemma OtherActs(s: System, i: nat, j: nat, seg: Seg, counter: int)
    requires Inv(s) && Owns(s, i) && j < |s.segs| && j != i
    requires (s.segs[j].lo <= seg.lo && seg.hi == s.segs[j].hi && counter == s.counter) || (s.counter <= seg.lo && s.counter <= counter)
    ensures Owns(s.(counter := counter, segs := s.segs[j := seg]), i)
  {
  }

  lemma OtherCloses(s: System, i: nat, j: nat)
    requires Inv(s) && Owns(s, i) && j != i && Enabled(s, CloseStep(j))
    ensures Owns(CloseInstance(s, j), i)
  {
  }

  lemma RebaseActs(s: System, i: nat, j: nat, required: int, txnOk: bool)
    requires Inv(s) && Owns(s, i) && Enabled(s, RebaseStep(j, required, txnOk))
    ensures Owns(Apply(s, RebaseStep(j, required, txnOk)), i)
    ensures Apply(s, RebaseStep(j, required, txnOk)).segs[i].lo >= s.segs[i].lo
  {
    var c := Rebase(s.segs[j], s.counter, required, s.unsigned, txnOk);
    RebaseReaches(s.segs[j], s.counter, required, s.unsigned, txnOk);
    if j == i { OwnerActs(s, i, c.seg, c.counter); } else { OtherActs(s, i, j, c.seg, c.counter); }
  }

  lemma AllocActs(s: System, i: nat, j: nat, req: Request, txnOk: bool)
    requires Inv(s) && Owns(s, i) && Enabled(s, AllocStep(j, req, txnOk))
    ensures Owns(Apply(s, AllocStep(j, req, txnOk)), i)
    ensures Apply(s, AllocStep(j, req, txnOk)).segs[i].lo >= s.segs[i].lo
  {
    var c := Alloc(s.segs[j], s.counter, req, s.unsigned, txnOk);
    if j == i {
      AllocMoves(s, i, req, txnOk);
      OwnerActs(s, i, c.seg, c.counter);
    } else {
      ForwardExact(s.segs[j], s.counter, req, s.unsigned, txnOk);
      OtherActs(s, i, j, c.seg, c.counter);
    }
  }

  /** An instance that is not closed keeps what it owns, and its base never goes down. */
  lemma OwnsStep(s: System, step: Step, i: nat)
    requires Inv(s) && Owns(s, i) && Enabled(s, step) && step != CloseStep(i)
    ensures Owns(Apply(s, step), i) && Apply(s, step).segs[i].lo >= s.segs[i].lo
  {
    match step
    case NewInstance =>
    case RebaseStep(j, required, txnOk) => RebaseActs(s, i, j, required, txnOk);
    case AllocStep(j, req, txnOk) => AllocActs(s, i, j, req, txnOk);
    case CloseStep(j) => OtherCloses(s, i, j);
  }

  predicate NeverClosed(steps: seq<Step>, i: nat) {
    CloseStep(i) !in steps
  }

  lemma {:induction false} OwnsAlways(s: System, steps: seq<Step>, i: nat)
    requires Inv(s) && (i < |s.segs| ==> Owns(s, i)) && ValidRun(s, steps) && NeverClosed(steps, i)
    ensures i < |RunState(s, steps).segs| ==> Owns(RunState(s, steps), i)
    decreases |steps|
  {
    if steps != [] {
      assert steps[0] in steps && forall step :: step in steps[1..] ==> step in steps;
      StepKeeps(s, steps[0]);
      if i < |s.segs| { OwnsStep(s, steps[0], i); }
      OwnsAlways(Apply(s, steps[0]), steps[1..], i);
    }
  }

  /** The intervals instance i hands out along a run. */
  ghost function HandedOut(s: System, steps: seq<Step>, i: nat): seq<Seg>
    requires ValidRun(s, steps)
    decreases |steps|
  {
    if steps == [] then [] else
      (if steps[0].AllocStep? && steps[0].i == i then
         match Alloc(s.segs[i], s.counter, steps[0].req, s.unsigned, steps[0].txnOk).outcome
         case Ok(min, max) => [Seg(min, max)]
         case Failed => []
       else [])
      + HandedOut(Apply(s, steps[0]), steps[1..], i)
  }

  lemma {:induction false} NothingBelow(s: System, steps: seq<Step>, i: nat, required: int)
    requires Inv(s) && Owns(s, i) && required <= s.segs[i].lo && ValidRun(s, steps) && NeverClosed(steps, i)
    ensures forall k :: 0 <= k < |HandedOut(s, steps, i)| ==> required <= HandedOut(s, steps, i)[k].lo
    decreases |steps|
  {
    if steps != [] {
      assert steps[0] in steps && forall step :: step in steps[1..] ==> step in steps;
      StepKeeps(s, steps[0]);
      OwnsStep(s, steps[0], i);
      NothingBelow(Apply(s, steps[0]), steps[1..], i, required);
      if steps[0].AllocStep? && steps[0].i == i { AllocMoves(s, i, steps[0].req, steps[0].txnOk); }
    }
  }

  /**
    In every run, however the instances interleave: once a rebase of an instance to `required` has succeeded, no ID at or
    below `required` is handed out by that instance until it is closed.
   */
  lemma RebaseHolds(s0: System, before: seq<Step>, i: nat, required: int, txnOk: bool, after: seq<Step>)
    requires Init(s0) && ValidRun(s0, before) && NeverClosed(before, i) && i < |RunState(s0, before).segs|
    requires Enabled(RunState(s0, before), RebaseStep(i, required, txnOk))
    requires var s := RunState(s0, before);
             && Rebase(s.segs[i], s.counter, required, s.unsigned, txnOk).outcome.Ok?
             && ValidRun(Apply(s, RebaseStep(i, required, txnOk)), after) && NeverClosed(after, i)
    ensures var handed := HandedOut(Apply(RunState(s0, before), RebaseStep(i, required, txnOk)), after, i);
            forall k, id :: 0 <= k < |handed| && handed[k].Has(id) ==> id > required
  {
    var s := RunState(s0, before);
    RunKeeps(s0, before);
    OwnsAlways(s0, before, i);
    RebaseReaches(s.segs[i], s.counter, required, s.unsigned, txnOk);
    StepKeeps(s, RebaseStep(i, required, txnOk));
    RebaseActs(s, i, i, required, txnOk);
    NothingBelow(Apply(s, RebaseStep(i, required, txnOk)), after, i, required);
  }

  // ----- A closed instance -----

  lemma Cons(s: System, step: Step, rest: seq<Step>, end: System)
    requires Enabled(s, step) && ValidRun(Apply(s, step), rest) && RunState(Apply(s, step), rest) == end
    ensures ValidRun(s, [step] + rest) && RunState(s, [step] + rest) == end
  {
    assert ([step] + rest)[1..] == rest;
  }

  /** An instance used again after its own close: a rebase to 3000 is taken as done, and the next ID is 101. */
  lemma ClosedInstanceForgets() returns (steps: seq<Step>)
    ensures var s0 := System(false, 0, [], []);
            && Init(s0) && ValidRun(s0, steps)
            && var s := RunState(s0, steps);
               && |s.segs| == 2 && Rebase(s.segs[1], s.counter, 3000, false, true).outcome.Ok?
               && var r := Rebase(s.segs[1], s.counter, 3000, false, true);
                  Alloc(r.seg, r.counter, Request(1, 1, 1), false, true).outcome == Ok(100, 101)
  {
    var s0, hundred := System(false, 0, [], []), Request(100, 1, 1);
    Fits(100);
    Fits(1);
    Fits(4000);
    Fits(4001);
    Fits(101);
    Fits(4100);
    var s2 := System(false, 0, [Seg(0, 0), Seg(0, 0)], []);
    var s3 := System(false, 4000, [Seg(100, 4000), Seg(0, 0)], [Seg(0, 100)]);
    var s4 := System(false, 8000, [Seg(100, 4000), Seg(4000, 8000)], [Seg(0, 100)]);
    var s5 := System(false, 4000, [Seg(100, 4000), Seg(4000, 4000)], [Seg(0, 100)]);
    var end := System(false, 100, [Seg(100, 100), Seg(4000, 4000)], [Seg(0, 100)]);
    assert Apply(s2, AllocStep(0, hundred, true)) == s3 && Apply(s3, RebaseStep(1, 3000, true)) == s4;
    assert Apply(s4, CloseStep(1)) == s5 && Apply(s5, CloseStep(0)) == end;
    steps := [];
    Cons(s5, CloseStep(0), steps, end);
    steps := [CloseStep(0)] + steps;
    Cons(s4, CloseStep(1), steps, end);
    steps := [CloseStep(1)] + steps;
    Cons(s3, RebaseStep(1, 3000, true), steps, end);
    steps := [RebaseStep(1, 3000, true)] + steps;
    Cons(s2, AllocStep(0, hundred, true), steps, end);
    steps := [AllocStep(0, hundred, true)] + steps;
    assert Apply(Apply(s0, NewInstance), NewInstance) == s2;
    Cons(Apply(s0, NewInstance), NewInstance, steps, end);
    steps := [NewInstance] + steps;
    Cons(s0, NewInstance, steps, end);
    steps := [NewInstance] + steps;
  }
}
