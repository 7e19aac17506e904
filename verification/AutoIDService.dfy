/** The centralised auto-ID service: instances that cache segments of one stored counter (autoid_service/autoid.go). */
module AutoIDService {
  import opened AutoIDArithmetic

  /** The IDs of (lo, hi]; empty when lo >= hi. An instance's cached base and end, or an interval handed out. */
  datatype Seg = Seg(lo: int, hi: int) {
    predicate Has(id: int) {
      lo < id <= hi
    }
  }

  datatype Outcome = Ok(min: int, max: int) | Failed

  /** An instance's cached segment, the stored counter, and what a call returned. */
  datatype Call = Call(seg: Seg, counter: int, outcome: Outcome)

  /** rebase4Signed and rebase4Unsigned; txnOk says whether the transaction on the counter commits. */
  function Rebase(seg: Seg, counter: int, required: int, unsigned: bool, txnOk: bool): Call {
    if required <= seg.lo then Call(seg, counter, Ok(seg.lo, seg.lo))
    else if required <= seg.hi then Call(Seg(required, seg.hi), counter, Ok(required, required))
    else if !txnOk then Call(seg, counter, Failed)
    else
      var newBase := Max(counter, required);
      var newEnd := Min(Top(unsigned) - BATCH, newBase) + BATCH;
      Call(Seg(newBase, newEnd), newEnd, Ok(newBase, newBase))
  }

  /** The part of an allocation that runs in a transaction: fetch a segment at the counter and cut the size off it. */
  function Fetch(seg: Seg, counter: int, m1: int, unsigned: bool, txnOk: bool): Call {
    var tmpStep := Min(Top(unsigned) - counter, Max(BATCH, m1));
    if !txnOk || tmpStep < m1 then Call(seg, counter, Failed)
    else if counter == Top(unsigned) then Call(seg, Wrap(unsigned, counter + tmpStep), Failed)
    else
      var newBase, newEnd := Wrap(unsigned, counter + m1), Wrap(unsigned, counter + tmpStep);
      Call(Seg(newBase, newEnd), newEnd, Ok(counter, newBase))
  }

  /** alloc4Signed and alloc4Unsigned after the offset rebase. Only the signed form tests for overflow first. */
  function Alloc(seg: Seg, counter: int, req: Request, unsigned: bool, txnOk: bool): Call
    requires req.increment > 0
  {
    var n1 := CalcNeededBatchSize(seg.lo, req, unsigned);
    if !unsigned && MAX_INT64 - seg.lo <= n1 then Call(seg, counter, Failed)
    else if Wrap(unsigned, seg.lo + n1) > seg.hi || seg.lo == 0 then
      Fetch(seg, counter, CalcNeededBatchSize(counter, req, unsigned), unsigned, txnOk)
    else
      var newBase := Wrap(unsigned, seg.lo + n1);
      Call(Seg(newBase, seg.hi), counter, Ok(seg.lo, newBase))
  }

  /** A whole allocation: rebase to offset - 1 when the cached base is below it, then allocate. */
  function AllocAutoID(seg: Seg, counter: int, req: Request, unsigned: bool, rebaseOk: bool, txnOk: bool): Call
    requires req.increment > 0
  {
    if req.offset - 1 <= seg.lo then Alloc(seg, counter, req, unsigned, txnOk)
    else
      var r := Rebase(seg, counter, req.offset - 1, unsigned, rebaseOk);
      if r.outcome.Failed? then r else Alloc(r.seg, r.counter, req, unsigned, txnOk)
  }

  /** The persisted counter of one table, IncrementID of its accessors. */
  class Store {
    var counter: int

    constructor (counter: int)
      ensures this.counter == counter
    {
      this.counter := counter;
    }
  }

  /** autoIDValue: the segment one service instance caches for one table. */
  class AutoIDValue {
    var base: int
    var end: int
    const unsigned: bool

    constructor (unsigned: bool)
      ensures base == 0 && end == 0 && this.unsigned == unsigned
    {
      base, end, this.unsigned := 0, 0, unsigned;
    }

    function Cached(): Seg
      reads this
    {
      Seg(base, end)
    }

    method RebaseTo(store: Store, required: int, txnOk: bool) returns (ok: bool)
      modifies this, store
      ensures var c := old(Rebase(Cached(), store.counter, required, unsigned, txnOk));
              Cached() == c.seg && store.counter == c.counter && ok == c.outcome.Ok?
    {
      if required <= base { return true; }
      if required <= end {
        base := required;
        return true;
      }
      if !txnOk { return false; }
      var currentEnd := store.counter;
      var newBase := Max(currentEnd, required);
      var newEnd := Min(Top(unsigned) - BATCH, newBase) + BATCH;
      store.counter := currentEnd + (newEnd - currentEnd);
      base, end := newBase, newEnd;
      return true;
    }

    method AllocN(store: Store, req: Request, rebaseOk: bool, txnOk: bool) returns (r: Outcome)
      requires req.increment > 0
      modifies this, store
      ensures var c := old(AllocAutoID(Cached(), store.counter, req, unsigned, rebaseOk, txnOk));
              Cached() == c.seg && store.counter == c.counter && r == c.outcome
    {
      if req.offset - 1 > base {
        var ok := RebaseTo(store, req.offset - 1, rebaseOk);
        if !ok { return Failed; }
      }
      r := AllocFromSegment(store, req, txnOk);
    }

    method AllocFromSegment(store: Store, req: Request, txnOk: bool) returns (r: Outcome)
      requires req.increment > 0
      modifies this, store
      ensures var c := old(Alloc(Cached(), store.counter, req, unsigned, txnOk));
              Cached() == c.seg && store.counter == c.counter && r == c.outcome
    {
      var n1 := CalcNeededBatchSize(base, req, unsigned);
      if !unsigned && MAX_INT64 - base <= n1 { return Failed; }
      if Wrap(unsigned, base + n1) > end || base == 0 {
        var nextStep := BATCH;
        var newBase := store.counter;
        n1 := CalcNeededBatchSize(newBase, req, unsigned);
        assert old(Alloc(Cached(), store.counter, req, unsigned, txnOk)) ==
               old(Fetch(Cached(), store.counter, n1, unsigned, txnOk));
        if nextStep < n1 { nextStep := n1; }
        var tmpStep := Min(Top(unsigned) - newBase, nextStep);
        if !txnOk || tmpStep < n1 { return Failed; }
        var newEnd := Wrap(unsigned, newBase + tmpStep);
        store.counter := newEnd;
        if newBase == Top(unsigned) { return Failed; }
        base, end := newBase, newEnd;
      }
      var min := base;
      base := Wrap(unsigned, base + n1);
      return Ok(min, base);
    }

    /** forceRebase, as Service.Close calls it with the instance's own base. */
    method Close(store: Store)
      modifies this, store
      ensures if 0 < old(base) <= MAX_INT64
              then Cached() == Seg(old(base), old(base)) && store.counter == old(base)
              else Cached() == old(Cached()) && store.counter == old(store.counter)
    {
      if 0 < base <= MAX_INT64 {
        store.counter := store.counter + (base - store.counter);
        end := base;
      }
    }
  }
}
