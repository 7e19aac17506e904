/** No ID is handed out twice, over every run of every number of service instances (autoid_service/autoid.go). */
module AutoIDUniqueness {
  import opened AutoIDArithmetic
  import opened AutoIDService

  /** The instances of one table's counter, and the intervals handed out so far. */
  datatype System = System(unsigned: bool, counter: int, segs: seq<Seg>, issued: seq<Seg>)

  predicate Apart(a: Seg, b: Seg) {
    a.lo >= a.hi || b.lo >= b.hi || a.hi <= b.lo || b.hi <= a.lo
  }

  /** Cached segments and handed-out intervals lie at or below the counter and share no ID. */
  ghost predicate Inv(s: System) {
    && 0 <= s.counter <= Top(s.unsigned)
    && (forall i :: 0 <= i < |s.segs| ==> 0 <= s.segs[i].lo <= Top(s.unsigned))
    && (forall i :: 0 <= i < |s.segs| ==> s.segs[i].lo < s.segs[i].hi ==> s.segs[i].hi <= s.counter)
    && (forall k :: 0 <= k < |s.issued| ==> 0 <= s.issued[k].lo < s.issued[k].hi <= s.counter)
    && (forall i, j :: 0 <= i < j < |s.segs| ==> Apart(s.segs[i], s.segs[j]))
    && (forall k, i :: 0 <= k < |s.issued| && 0 <= i < |s.segs| ==> Apart(s.issued[k], s.segs[i]))
    && (forall k, l :: 0 <= k < l < |s.issued| ==> Apart(s.issued[k], s.issued[l]))
  }

  lemma FetchKeeps(s: System, i: nat, b: int, e: int)
    requires Inv(s) && i < |s.segs| && s.counter <= b <= e <= Top(s.unsigned)
    ensures Inv(s.(counter := e, segs := s.segs[i := Seg(b, e)]))
  {
  }

  lemma NarrowKeeps(s: System, i: nat, b: int)
    requires Inv(s) && i < |s.segs| && s.segs[i].lo <= b <= Top(s.unsigned)
    ensures Inv(s.(segs := s.segs[i := Seg(b, s.segs[i].hi)]))
  {
  }

  lemma TakeKeeps(s: System, i: nat, x: int)
    requires Inv(s) && i < |s.segs| && s.segs[i].lo < x <= s.segs[i].hi
    ensures Inv(s.(segs := s.segs[i := Seg(x, s.segs[i].hi)], issued := s.issued + [Seg(s.segs[i].lo, x)]))
  {
    var seg, rest, out := s.segs[i], Seg(x, s.segs[i].hi), Seg(s.segs[i].lo, x);
    var s' := s.(segs := s.segs[i := rest], issued := s.issued + [out]);
    forall k, j | 0 <= k < |s'.issued| && 0 <= j < |s'.segs|
      ensures Apart(s'.issued[k], s'.segs[j])
    {
      if k < |s.issued| { assert Apart(s.issued[k], seg); }
      if j < i { assert Apart(s.segs[j], seg); }
      if i < j { assert Apart(seg, s.segs[j]); }
    }
    forall k | 0 <= k < |s.issued|
      ensures Apart(s'.issued[k], out)
    {
      assert Apart(s.issued[k], seg);
    }
  }

  /** The regular outcomes: fail, cut a piece off the cached segment, or fetch a segment first. */
  ghost predicate AllocShape(seg: Seg, counter: int, unsigned: bool, c: Call) {
    || (c.outcome.Failed? && c.seg == seg && c.counter == counter)
    || (c.outcome.Ok? && c.counter == counter && c.outcome.min == seg.lo
        && seg.lo < c.outcome.max <= seg.hi && c.seg == Seg(c.outcome.max, seg.hi))
    || (c.outcome.Ok? && c.outcome.min == counter && counter < c.outcome.max <= c.counter <= Top(unsigned)
        && c.seg == Seg(c.outcome.max, c.counter))
  }

  /** The call fails, or hands out a non-empty interval at or below the counter it leaves. */
  ghost predicate Forward(c: Call) {
    c.outcome.Ok? ==> c.outcome.min < c.outcome.max <= c.counter
  }

  /** The cached segment is used for the request. */
  predicate Served(seg: Seg, req: Request, unsigned: bool)
    requires req.increment > 0
  {
    seg.lo != 0 && Wrap(unsigned, seg.lo + RawSize(seg.lo, req, unsigned)) <= seg.hi
  }

  /**
    The signed form's limit test rejects the request; or the cached segment serves it and base plus size, as a 64-bit
    number, does not overflow; or a segment is fetched and the size at the counter is positive as an int64.
   */
  predicate NoWrap(seg: Seg, counter: int, req: Request, unsigned: bool, txnOk: bool)
    requires req.increment > 0
  {
    var size := Wrap(unsigned, RawSize(seg.lo, req, unsigned));
    || (!unsigned && MAX_INT64 - seg.lo <= size)
    || if Served(seg, req, unsigned) then 1 <= size <= Top(unsigned) - seg.lo
       else !txnOk || counter == Top(unsigned) || 1 <= I64(RawSize(counter, req, unsigned))
  }

  ghost predicate Bounded(seg: Seg, counter: int, unsigned: bool) {
    0 <= seg.lo <= Top(unsigned) && 0 <= counter <= Top(unsigned) && (seg.lo < seg.hi ==> seg.hi <= counter)
  }

  lemma SameSum(b: int, n: int, unsigned: bool)
    ensures Wrap(unsigned, b + I64(n)) == Wrap(unsigned, b + Wrap(unsigned, n)) == Wrap(unsigned, b + n)
  {
    var k, l := ModuloTwo64(n);
    WrapShift(b + n, k);
    WrapShift(b + n, l);
  }

  lemma UnsignedSum(b: int, size: int)
    requires 0 <= b <= MAX_UINT64 && 0 <= size <= MAX_UINT64
    ensures U64(b + size) == if b + size <= MAX_UINT64 then b + size else b + size - TWO64
  {
  }

  /** Cutting a size off the cached segment goes forward exactly when base plus size does not overflow. */
  lemma TakeForward(seg: Seg, counter: int, size: int, unsigned: bool, max: int)
    requires Bounded(seg, counter, unsigned) && max == Wrap(unsigned, seg.lo + size) <= seg.hi
    requires if unsigned then 0 <= size <= MAX_UINT64 else -MAX_INT64 - 1 <= size < MAX_INT64 - seg.lo
    ensures var c := Call(Seg(max, seg.hi), counter, Ok(seg.lo, max));
            (Forward(c) <==> 1 <= size <= Top(unsigned) - seg.lo) && (Forward(c) <==> AllocShape(seg, counter, unsigned, c))
  {
    if unsigned { UnsignedSum(seg.lo, size); } else { Fits(seg.lo + size); }
  }

  /** Fetching goes forward exactly when it fails or the size is positive. */
  lemma FetchForward(seg: Seg, counter: int, m1: int, unsigned: bool, txnOk: bool)
    requires Bounded(seg, counter, unsigned) && -MAX_INT64 - 1 <= m1 <= MAX_INT64
    ensures var c := Fetch(seg, counter, m1, unsigned, txnOk);
            && (Forward(c) <==> !txnOk || counter == Top(unsigned) || 1 <= m1)
            && (Forward(c) <==> AllocShape(seg, counter, unsigned, c))
  {
    var step := Min(Top(unsigned) - counter, Max(BATCH, m1));
    Fits(counter + step);
    Fits(counter + m1);
    if unsigned && counter + m1 < 0 {
      assert U64(counter + m1) == counter + m1 + TWO64;
    }
  }

  /**
    For every request and both signednesses: an allocation fails or hands out a non-empty interval at or below the new
    counter exactly when the sizes it computes do not wrap past that, and then its outcome is one of the regular ones.
   */
  lemma ForwardExact(seg: Seg, counter: int, req: Request, unsigned: bool, txnOk: bool)
    requires req.increment > 0 && Bounded(seg, counter, unsigned)
    ensures var c := Alloc(seg, counter, req, unsigned, txnOk);
            && (Forward(c) <==> NoWrap(seg, counter, req, unsigned, txnOk))
            && (Forward(c) <==> AllocShape(seg, counter, unsigned, c))
  {
    var n, m := RawSize(seg.lo, req, unsigned), RawSize(counter, req, unsigned);
    SizeIsRaw(seg.lo, req, unsigned);
    SizeIsRaw(counter, req, unsigned);
    SameSum(seg.lo, n, unsigned);
    var size := Wrap(unsigned, n);
    if !unsigned && MAX_INT64 - seg.lo <= size {
    } else if Served(seg, req, unsigned) {
      TakeForward(seg, counter, size, unsigned, Wrap(unsigned, seg.lo + n));
    } else {
      FetchForward(seg, counter, I64(m), unsigned, txnOk);
    }
  }

  /** In particular when both sizes and the sums fit the 64-bit range. */
  lemma FitsMeansNoWrap(seg: Seg, counter: int, req: Request, unsigned: bool, txnOk: bool)
    requires InRange(req) && req.n >= 1 && Bounded(seg, counter, unsigned)
    requires seg.lo + RawSize(seg.lo, req, unsigned) <= Top(unsigned) && RawSize(counter, req, unsigned) <= MAX_INT64
    ensures NoWrap(seg, counter, req, unsigned, txnOk)
  {
    var n, m := RawSize(seg.lo, req, unsigned), RawSize(counter, req, unsigned);
    if unsigned {
      NeededUnsigned(seg.lo, req);
      NeededUnsigned(counter, req);
    } else {
      NeededSigned(seg.lo, req);
      NeededSigned(counter, req);
    }
    Fits(n);
    Fits(m);
    Fits(seg.lo + n);
  }

  datatype Step =
    | NewInstance
    | RebaseStep(i: nat, required: int, txnOk: bool)   // Rebase without force, or the offset rebase of an allocation
    | AllocStep(i: nat, req: Request, txnOk: bool)     // the rest of an allocation
    | CloseStep(i: nat)                                // Service.Close

  /** Closing is safe when no other instance has moved the counter since this one fetched its segment. */
  predicate CloseGuard(s: System, i: nat)
    requires i < |s.segs|
  {
    s.segs[i].lo <= s.segs[i].hi == s.counter
  }

  ghost predicate Enabled(s: System, step: Step) {
    match step
    case NewInstance => true
    case RebaseStep(i, required, _) => i < |s.segs| && required <= Top(s.unsigned)
    case AllocStep(i, req, txnOk) =>
      i < |s.segs| && InRange(req) && req.n >= 1 && NoWrap(s.segs[i], s.counter, req, s.unsigned, txnOk)
    case CloseStep(i) => i < |s.segs| && CloseGuard(s, i)
  }

  /** Service.Close for instance i: put the cached base back into the counter, if it is positive as an int64. */
  function CloseInstance(s: System, i: nat): System
    requires i < |s.segs|
  {
    var b := s.segs[i].lo;
    if 0 < b <= MAX_INT64 then s.(counter := b, segs := s.segs[i := Seg(b, b)]) else s
  }

  ghost function Apply(s: System, step: Step): System
    requires Enabled(s, step)
  {
    match step
    case NewInstance => s.(segs := s.segs + [Seg(0, 0)])
    case RebaseStep(i, required, txnOk) =>
      var c := Rebase(s.segs[i], s.counter, required, s.unsigned, txnOk);
      s.(counter := c.counter, segs := s.segs[i := c.seg])
    case AllocStep(i, req, txnOk) =>
      var c := Alloc(s.segs[i], s.counter, req, s.unsigned, txnOk);
      s.(counter := c.counter, segs := s.segs[i := c.seg],
         issued := if c.outcome.Ok? then s.issued + [Seg(c.outcome.min, c.outcome.max)] else s.issued)
    case CloseStep(i) => CloseInstance(s, i)
  }

  lemma RebaseKeeps(s: System, i: nat, required: int, txnOk: bool)
    requires Inv(s) && Enabled(s, RebaseStep(i, required, txnOk))
    ensures Inv(Apply(s, RebaseStep(i, required, txnOk)))
  {
    var c := Rebase(s.segs[i], s.counter, required, s.unsigned, txnOk);
    if c.counter == s.counter && c.seg.hi == s.segs[i].hi {
      NarrowKeeps(s, i, c.seg.lo);
      assert c.seg == Seg(c.seg.lo, s.segs[i].hi);
    } else {
      FetchKeeps(s, i, c.seg.lo, c.seg.hi);
    }
  }

  lemma AllocKeeps(s: System, i: nat, req: Request, txnOk: bool)
    requires Inv(s) && Enabled(s, AllocStep(i, req, txnOk))
    ensures Inv(Apply(s, AllocStep(i, req, txnOk)))
  {
    var seg := s.segs[i];
    var c := Alloc(seg, s.counter, req, s.unsigned, txnOk);
    ForwardExact(seg, s.counter, req, s.unsigned, txnOk);
    if c.outcome.Failed? {
      assert s.segs[i := seg] == s.segs;
    } else if c.counter == s.counter && c.outcome.min == seg.lo && c.seg == Seg(c.outcome.max, seg.hi)
              && seg.lo < c.outcome.max <= seg.hi {
      TakeKeeps(s, i, c.outcome.max);
    } else {
      FetchKeeps(s, i, s.counter, c.counter);
      var f := s.(counter := c.counter, segs := s.segs[i := Seg(s.counter, c.counter)]);
      TakeKeeps(f, i, c.outcome.max);
      assert f.segs[i := c.seg] == s.segs[i := c.seg];
    }
  }

  /** Closing an instance whose end is the counter frees exactly the IDs it had left. */
  lemma CloseKeeps(s: System, i: nat)
    requires Inv(s) && i < |s.segs| && CloseGuard(s, i)
    ensures Inv(CloseInstance(s, i))
  {
    var seg := s.segs[i];
    forall j | 0 <= j < |s.segs| && j != i
      ensures Apart(s.segs[j], seg)
    {
      if j < i { assert Apart(s.segs[j], seg); } else { assert Apart(seg, s.segs[j]); }
    }
    forall k | 0 <= k < |s.issued|
      ensures Apart(s.issued[k], seg)
    {
    }
  }

  lemma StepKeeps(s: System, step: Step)
    requires Inv(s) && Enabled(s, step)
    ensures Inv(Apply(s, step))
  {
    match step
    case NewInstance =>
    case RebaseStep(i, required, txnOk) => RebaseKeeps(s, i, required, txnOk);
    case AllocStep(i, req, txnOk) => AllocKeeps(s, i, req, txnOk);
    case CloseStep(i) => CloseKeeps(s, i);
  }

  ghost predicate ValidRun(s: System, steps: seq<Step>)
    decreases |steps|
  {
    steps == [] || (Enabled(s, steps[0]) && ValidRun(Apply(s, steps[0]), steps[1..]))
  }

  ghost function RunState(s: System, steps: seq<Step>): System
    requires ValidRun(s, steps)
    decreases |steps|
  {
    if steps == [] then s else RunState(Apply(s, steps[0]), steps[1..])
  }

  lemma {:induction false} RunKeeps(s: System, steps: seq<Step>)
    requires Inv(s) && ValidRun(s, steps)
    ensures Inv(RunState(s, steps))
    decreases |steps|
  {
    if steps != [] {
      StepKeeps(s, steps[0]);
      RunKeeps(Apply(s, steps[0]), steps[1..]);
    }
  }

  /** No instance has started and nothing has been handed out; the counter is wherever it was left. */
  predicate Init(s: System) {
    s.segs == [] && s.issued == [] && 0 <= s.counter <= Top(s.unsigned)
  }

  /** No ID lies in two of the intervals. */
  ghost predicate Unique(issued: seq<Seg>) {
    forall j, k, id :: 0 <= j < k < |issued| ==> !(issued[j].Has(id) && issued[k].Has(id))
  }

  /** Whatever the instances do and however their steps interleave, no ID is handed out twice. */
  lemma UniqueIds(s: System, steps: seq<Step>)
    requires Init(s) && ValidRun(s, steps)
    ensures Unique(RunState(s, steps).issued)
  {
    RunKeeps(s, steps);
  }

  /** A whole allocation is its offset rebase followed by the rest; other instances may act in between. */
  lemma AllocIsTwoSteps(s: System, i: nat, req: Request, rebaseOk: bool, txnOk: bool)
    requires Inv(s) && i < |s.segs| && InRange(req)
    requires Enabled(Apply(s, RebaseStep(i, req.offset - 1, rebaseOk)), AllocStep(i, req, txnOk))
    requires Rebase(s.segs[i], s.counter, req.offset - 1, s.unsigned, rebaseOk).outcome.Ok?
    ensures var t := Apply(Apply(s, RebaseStep(i, req.offset - 1, rebaseOk)), AllocStep(i, req, txnOk));
            var c := AllocAutoID(s.segs[i], s.counter, req, s.unsigned, rebaseOk, txnOk);
            && t.segs == s.segs[i := c.seg] && t.counter == c.counter
            && t.issued == s.issued + if c.outcome.Ok? then [Seg(c.outcome.min, c.outcome.max)] else []
  {
    var r := Rebase(s.segs[i], s.counter, req.offset - 1, s.unsigned, rebaseOk);
    assert s.segs[i := r.seg][i] == r.seg;
    var c := Alloc(r.seg, r.counter, req, s.unsigned, txnOk);
    assert s.segs[i := r.seg][i := c.seg] == s.segs[i := c.seg];
  }

  // ----- What one allocation returns -----

  /** The interval from min to max holds exactly n IDs congruent to offset, the last being max. */
  ghost predicate HoldsN(min: int, max: int, req: Request)
    requires min <= max && req.increment > 0
  {
    Congruent(min, max, req.increment, req.offset) == req.n && (max - req.offset) % req.increment == 0
  }

  lemma SameMultiple(a: int, b: int, d: int, inc: int)
    requires inc > 0 && a / inc - d == b / inc - d && a % inc == 0 == b % inc
    ensures a == b
  {
    assert a == a / inc * inc && b == b / inc * inc;
  }

  /** Exactly one length holds n. */
  lemma HoldsNExact(min: int, max: int, req: Request)
    requires req.increment > 0 && req.n >= 1 && req.offset - 1 <= min <= max
    ensures HoldsN(min, max, req) <==> max == min + Needed(min, req)
  {
    var inc, off, end := req.increment, req.offset, min + Needed(min, req);
    NeededHoldsExactlyN(min, req);
    if HoldsN(min, max, req) {
      CongruentByFloor(min, max, inc, off);
      CongruentByFloor(min, end, inc, off);
      SameMultiple(max - off, end - off, (min - off) / inc, inc);
    }
  }

  /** A regular allocation takes the size cut to 64 bits. */
  lemma AllocTakesSize(seg: Seg, counter: int, req: Request, unsigned: bool, txnOk: bool)
    requires req.increment > 0 && Bounded(seg, counter, unsigned) && NoWrap(seg, counter, req, unsigned, txnOk)
    requires Alloc(seg, counter, req, unsigned, txnOk).outcome.Ok?
    ensures var o := Alloc(seg, counter, req, unsigned, txnOk).outcome;
            o.min < o.max && o.max - o.min == U64(RawSize(o.min, req, unsigned))
  {
    var c := Alloc(seg, counter, req, unsigned, txnOk);
    ForwardExact(seg, counter, req, unsigned, txnOk);
    var b := c.outcome.min;
    SizeIsRaw(b, req, unsigned);
    TakesWrapped(b, c.outcome.max, RawSize(b, req, unsigned), unsigned);
  }

  lemma TakesWrapped(min: int, max: int, raw: int, unsigned: bool)
    requires 0 <= min < max <= MAX_UINT64 && max == Wrap(unsigned, min + I64(raw))
    ensures max - min == U64(raw)
  {
    var k, l := ModuloTwo64(min + I64(raw));
    var k', l' := ModuloTwo64(raw);
    var shift := l' + if unsigned then k else l;
    assert max - min == raw + shift * TWO64;
    WrapShift(raw, shift);
    Fits(max - min);
  }

  /**
    A regular allocation holds exactly n IDs congruent to offset and ends on one if and only if calcNeededBatchSize found
    the next such ID and its result fits 64 bits.
   */
  lemma AllocExact(seg: Seg, counter: int, req: Request, unsigned: bool, txnOk: bool)
    requires InRange(req) && req.n >= 1
    requires Bounded(seg, counter, unsigned) && NoWrap(seg, counter, req, unsigned, txnOk)
    requires var o := Alloc(seg, counter, req, unsigned, txnOk).outcome; o.Ok? && req.offset - 1 <= o.min
    ensures var o := Alloc(seg, counter, req, unsigned, txnOk).outcome;
            && o.min < o.max
            && (HoldsN(o.min, o.max, req) <==>
                RawSize(o.min, req, unsigned) == Needed(o.min, req) && Needed(o.min, req) <= MAX_UINT64)
            && (HoldsN(o.min, o.max, req) ==>
                (req.n - 1) * req.increment + 1 <= o.max - o.min <= req.n * req.increment)
  {
    var o := Alloc(seg, counter, req, unsigned, txnOk).outcome;
    var raw, needed := RawSize(o.min, req, unsigned), Needed(o.min, req);
    AllocTakesSize(seg, counter, req, unsigned, txnOk);
    HoldsNExact(o.min, o.max, req);
    NeededBounds(o.min, req);
    Product(req.n, req.increment);
    RawNearNeeded(o.min, req, unsigned);
    SameModulo(raw, needed);
  }

  lemma SameModulo(raw: int, needed: int)
    requires -TWO64 < raw - needed < TWO64 && needed >= 0
    ensures U64(raw) == needed <==> raw == needed <= MAX_UINT64
  {
    if U64(raw) == needed {
      var k, l := ModuloTwo64(raw);
      assert raw == needed - k * TWO64;
    }
    Fits(raw);
  }

  /** The next ID is found while min + increment - offset fits; a signed allocation of a size that fits never lacks it. */
  lemma SizeIsNeeded(b: int, req: Request, unsigned: bool)
    requires InRange(req) && req.n >= 1 && req.offset - 1 <= b <= Top(unsigned)
    ensures b + req.increment - req.offset <= Top(unsigned) ==> RawSize(b, req, unsigned) == Needed(b, req)
    ensures !unsigned && RawSize(b, req, unsigned) <= MAX_INT64 - b ==> RawSize(b, req, unsigned) == Needed(b, req)
  {
    if unsigned { NeededUnsigned(b, req); } else { NeededSigned(b, req); }
  }

  // ----- Where the code falls short -----

  /** One instance, increment 1: allocate 100, rebase close to the top, allocate 100 and then 1. The last ID, 90, was
      part of the first allocation. */
  lemma UnsignedOverflowRepeatsIds()
    ensures var hundred, one := Request(100, 1, 1), Request(1, 1, 1);
            var a := Alloc(Seg(0, 0), 0, hundred, true, true);
            var b := Rebase(a.seg, a.counter, MAX_UINT64 - 10, true, true);
            var c := Alloc(b.seg, b.counter, hundred, true, true);
            var d := Alloc(c.seg, c.counter, one, true, true);
            a.outcome == Ok(0, 100) && c.outcome == Ok(MAX_UINT64 - 10, 89) && d.outcome == Ok(89, 90)
  {
    var hundred, one := Request(100, 1, 1), Request(1, 1, 1);
    Fits(100);
    Fits(1);
    Fits(90);
    Fits(4000);
    var a := Alloc(Seg(0, 0), 0, hundred, true, true);
    assert a == Call(Seg(100, 4000), 4000, Ok(0, 100));
    var b := Rebase(a.seg, a.counter, MAX_UINT64 - 10, true, true);
    assert b.seg == Seg(MAX_UINT64 - 10, MAX_UINT64) && b.counter == MAX_UINT64;
    UnsignedSum(MAX_UINT64 - 10, 100);
    var c := Alloc(b.seg, b.counter, hundred, true, true);
    assert c.seg == Seg(89, MAX_UINT64);
  }

  /** A count of 2^63 is negative as an int64: the interval runs far past the new counter, and the next one lies in it. */
  lemma LargeCountRepeatsIds()
    ensures var a := Alloc(Seg(100, 4000), 4000, Request(MAX_INT64 + 1, 1, 1), true, true);
            var b := Alloc(a.seg, a.counter, Request(1, 1, 1), true, true);
            && a.outcome == Ok(4000, MAX_INT64 + 4001) && a.counter == 8000
            && b.outcome == Ok(8000, 8001) && Seg(4000, MAX_INT64 + 4001).Has(8001)
  {
    Fits(8000);
    Fits(8001);
    Fits(1);
    Fits(MAX_INT64 + 4001);
    Fits(MAX_INT64 + 4002);
    assert I64(MAX_INT64 + 1) == -MAX_INT64 - 1;
  }

  /** A count that fits int64, but whose size with increment 2 does not: the signed form goes backwards. */
  lemma SignedSizeGoesBackwards()
    ensures var o := Alloc(Seg(100, 4000), 4000, Request(0x4000_0000_0000_0001, 2, 1), false, true).outcome;
            o.Ok? && o.max < o.min
  {
    var req := Request(0x4000_0000_0000_0001, 2, 1);
    SizeIsRaw(100, req, false);
    SizeIsRaw(4000, req, false);
    Fits(101);
    Fits(4001);
    assert RawSize(100, req, false) == MAX_INT64 + 2;
    assert I64(MAX_INT64 + 2) == -MAX_INT64;
  }
}
