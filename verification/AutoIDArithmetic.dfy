/** The 64-bit increment and offset arithmetic of the auto-ID service (autoid_service/autoid.go). */
module AutoIDArithmetic {

  const MAX_INT64: int := 0x7FFF_FFFF_FFFF_FFFF
  const MAX_UINT64: int := 0xFFFF_FFFF_FFFF_FFFF
  const TWO64: int := 0x1_0000_0000_0000_0000
  const BATCH: int := 4000

  // ----- 64-bit arithmetic -----

  function U64(x: int): int {
    x % TWO64
  }

  function I64(x: int): int {
    if x % TWO64 > MAX_INT64 then x % TWO64 - TWO64 else x % TWO64
  }

  /** Go's division truncates toward zero. */
  function GoDiv(a: int, b: int): int
    requires b > 0
  {
    if a >= 0 then a / b else -((-a) / b)
  }

  /** Go's remainder has the sign of the dividend. */
  function GoRem(a: int, b: int): int
    requires b > 0
  {
    if a >= 0 then a % b else -((-a) % b)
  }

  function Min(a: int, b: int): int { if a <= b then a else b }

  function Max(a: int, b: int): int { if a >= b then a else b }

  function Top(unsigned: bool): int { if unsigned then MAX_UINT64 else MAX_INT64 }

  /** The value a 64-bit counter of the given signedness holds after computing x. */
  function Wrap(unsigned: bool, x: int): int {
    if unsigned then U64(x) else I64(x)
  }

  /** AutoIDRequest: n is a uint64; increment and offset are the session's auto_increment variables. */
  datatype Request = Request(n: int, increment: int, offset: int)

  ghost predicate InRange(req: Request) {
    && 0 <= req.n <= MAX_UINT64 && 1 <= req.increment <= MAX_INT64 && 1 <= req.offset <= MAX_INT64
  }

  function SeekToFirstAutoIDSigned(base: int, increment: int, offset: int): int
    requires increment > 0
  {
    I64(GoDiv(I64(base + increment - offset), increment) * increment + offset)
  }

  function SeekToFirstAutoIDUnSigned(base: int, increment: int, offset: int): int
    requires increment > 0
  {
    U64(U64(base + increment - offset) / increment * increment + offset)
  }

  function BatchUnsigned(base: int, n: int, increment: int, offset: int): int
    requires increment > 0
  {
    I64(U64(SeekToFirstAutoIDUnSigned(base, increment, offset) + (n - 1) * increment) - base)
  }

  function BatchSigned(base: int, n: int, increment: int, offset: int): int
    requires increment > 0
  {
    I64(I64(SeekToFirstAutoIDSigned(base, increment, offset) + (I64(n) - 1) * increment) - base)
  }

  /** calcNeededBatchSize, as an int64. */
  function CalcNeededBatchSize(base: int, req: Request, unsigned: bool): int
    requires req.increment > 0
  {
    if req.increment == 1 then I64(req.n)
    else if unsigned then BatchUnsigned(base, req.n, req.increment, req.offset)
    else BatchSigned(base, req.n, req.increment, req.offset)
  }

  /** What calcNeededBatchSize computes without 64-bit limits: up to the n-th value above base congruent to offset. */
  function Needed(base: int, req: Request): int
    requires req.increment > 0
  {
    (base + req.increment - req.offset) / req.increment * req.increment + req.offset - base + (req.n - 1) * req.increment
  }

  /**
    The size without 64-bit limits on the result: n increments less how far base + increment - offset, as the 64-bit value
    the code divides, stands past a multiple of the increment.
   */
  function RawSize(base: int, req: Request, unsigned: bool): int
    requires req.increment > 0
  {
    if req.increment == 1 then req.n
    else req.n * req.increment - GoRem(Wrap(unsigned, base + req.increment - req.offset), req.increment)
  }

  lemma WrapShift(x: int, k: int)
    ensures U64(x + k * TWO64) == U64(x) && I64(x + k * TWO64) == I64(x)
  {
    assert (x + k * TWO64) % TWO64 == x % TWO64;
  }

  /** Wrapping an intermediate result does not change the wrapped sum. */
  lemma WrapSum(x: int, y: int)
    ensures I64(I64(x) + y) == I64(x + y) && I64(U64(x) + y) == I64(x + y) && U64(U64(x) + y) == U64(x + y)
  {
    var k := -(x / TWO64);
    assert U64(x) == x + k * TWO64;
    WrapShift(x + y, k);
    assert U64(x) + y == x + y + k * TWO64;
    if I64(x) != U64(x) {
      assert I64(x) + y == x + y + (k - 1) * TWO64;
      WrapShift(x + y, k - 1);
    }
  }

  lemma WrapChain(x: int, y: int, b: int)
    ensures I64(U64(U64(x) + y) - b) == I64(x + y - b)
    ensures I64(I64(I64(x) + y) - b) == I64(x + y - b)
  {
    WrapSum(x, y);
    WrapSum(x + y, -b);
  }

  lemma Fits(x: int)
    ensures 0 <= x <= MAX_UINT64 ==> U64(x) == x
    ensures -MAX_INT64 - 1 <= x <= MAX_INT64 ==> I64(x) == x
  {
  }

  lemma ModuloTwo64(x: int) returns (k: int, l: int)
    ensures U64(x) == x + k * TWO64 && I64(x) == x + l * TWO64
  {
    k := -(x / TWO64);
    l := if x % TWO64 > MAX_INT64 then k - 1 else k;
  }

  lemma Product(n: int, inc: int)
    ensures n * inc == (n - 1) * inc + inc && (n + 1) * inc == (n - 1) * inc + 2 * inc
    ensures n >= 1 && inc >= 1 ==> (n - 1) * inc >= 0 && n <= n * inc
  {
    if n >= 1 && inc >= 1 {
      assert (n - 1) * inc >= 0;
      assert n * (inc - 1) >= 0;
    }
  }

  /** Seeking goes up by one increment less a remainder, modulo 2^64. */
  lemma SeekUnsigned(base: int, inc: int, off: int)
    requires inc > 0
    ensures SeekToFirstAutoIDUnSigned(base, inc, off) == U64(base + inc - GoRem(U64(base + inc - off), inc))
  {
    var v := base + inc - off;
    var u, r := U64(v), U64(v) % inc;
    var k, l := ModuloTwo64(v);
    assert u / inc * inc == u - r;
    WrapShift(base + inc - r, k);
    assert u - r + off == base + inc - r + k * TWO64;
  }

  /** Truncation makes the remainder negative where the wrapped base + increment - offset is. */
  lemma SeekSigned(base: int, inc: int, off: int)
    requires inc > 0
    ensures SeekToFirstAutoIDSigned(base, inc, off) == I64(base + inc - GoRem(I64(base + inc - off), inc))
  {
    var v := base + inc - off;
    var u, r := I64(v), GoRem(I64(v), inc);
    var k, l := ModuloTwo64(v);
    TruncatedDivision(u, inc);
    WrapShift(base + inc - r, l);
    assert u - r + off == base + inc - r + l * TWO64;
  }

  lemma TruncatedDivision(u: int, inc: int)
    requires inc > 0
    ensures GoDiv(u, inc) * inc == u - GoRem(u, inc) && -inc < GoRem(u, inc) < inc
  {
    if u < 0 {
      assert (-u) / inc * inc == -u - (-u) % inc;
      assert GoDiv(u, inc) * inc == -((-u) / inc * inc);
    } else {
      assert u / inc * inc == u - u % inc;
    }
  }

  /** The shortcut for increment 1 agrees with the general formula. */
  lemma NeededOne(base: int, req: Request)
    requires req.increment == 1
    ensures Needed(base, req) == req.n
  {
  }

  lemma BatchUnsignedForm(base: int, n: int, inc: int, off: int, r: int)
    requires inc > 0 && r == GoRem(U64(base + inc - off), inc)
    ensures BatchUnsigned(base, n, inc, off) == I64(n * inc - r)
  {
    var rest := (n - 1) * inc;
    Product(n, inc);
    SeekUnsigned(base, inc, off);
    WrapChain(base + inc - r, rest, base);
    assert base + inc - r + rest - base == n * inc - r;
  }

  lemma ShiftedFactor(m: int, n: int, l: int, inc: int)
    requires m == n + l * TWO64
    ensures (m - 1) * inc == n * inc - inc + (l * inc) * TWO64
  {
    Distribute(n, l * TWO64 - 1, inc);
    Distribute(l * TWO64, -1, inc);
    assert l * TWO64 * inc == (l * inc) * TWO64;
  }

  lemma BatchSignedForm(base: int, n: int, inc: int, off: int, r: int)
    requires inc > 0 && r == GoRem(I64(base + inc - off), inc)
    ensures BatchSigned(base, n, inc, off) == I64(n * inc - r)
  {
    var k, l := ModuloTwo64(n);
    var rest := (I64(n) - 1) * inc;
    ShiftedFactor(I64(n), n, l, inc);
    SeekSigned(base, inc, off);
    WrapChain(base + inc - r, rest, base);
    assert base + inc - r + rest - base == n * inc - r + (l * inc) * TWO64;
    WrapShift(n * inc - r, l * inc);
  }

  /** For every request and base calcNeededBatchSize is the raw size cut to an int64. */
  lemma SizeIsRaw(base: int, req: Request, unsigned: bool)
    requires req.increment > 0
    ensures CalcNeededBatchSize(base, req, unsigned) == I64(RawSize(base, req, unsigned))
  {
    var inc, off := req.increment, req.offset;
    var r := GoRem(Wrap(unsigned, base + inc - off), inc);
    if unsigned {
      BatchUnsignedForm(base, req.n, inc, off, r);
    } else {
      BatchSignedForm(base, req.n, inc, off, r);
    }
  }

  /** The raw unsigned size is n increments less a remainder below one increment, for every base. */
  lemma NeededUnsigned(base: int, req: Request)
    requires InRange(req) && req.n >= 1 && 0 <= base <= MAX_UINT64
    ensures 0 <= (req.n - 1) * req.increment < RawSize(base, req, true) <= req.n * req.increment
    ensures 0 <= base + req.increment - req.offset <= MAX_UINT64 ==> RawSize(base, req, true) == Needed(base, req)
  {
    var inc, v := req.increment, base + req.increment - req.offset;
    Product(req.n, inc);
    NeededByRemainder(base, req);
    Fits(v);
  }

  /**
    The raw signed size: exact while base + increment - offset fits; otherwise too large for the rest of the range, so
    that the caller's limit test rejects it unless the size itself wraps.
   */
  lemma NeededSigned(base: int, req: Request)
    requires InRange(req) && req.n >= 1 && 0 <= base <= MAX_INT64
    ensures RawSize(base, req, false) >= 1
    ensures 0 <= base + req.increment - req.offset <= MAX_INT64 ==> RawSize(base, req, false) == Needed(base, req)
    ensures base + req.increment - req.offset > MAX_INT64 ==> RawSize(base, req, false) > MAX_INT64 - base
  {
    var inc, v := req.increment, base + req.increment - req.offset;
    Product(req.n, inc);
    NeededByRemainder(base, req);
    Fits(v);
    TruncatedDivision(I64(v), inc);
    if v > MAX_INT64 { assert I64(v) == v - TWO64; }
  }

  lemma NeededByRemainder(base: int, req: Request)
    requires req.increment > 0
    ensures Needed(base, req) == req.n * req.increment - (base + req.increment - req.offset) % req.increment
  {
    var v := base + req.increment - req.offset;
    Product(req.n, req.increment);
    assert v / req.increment * req.increment == v - v % req.increment;
  }

  /** The two sizes differ by less than 2^64. */
  lemma RawNearNeeded(base: int, req: Request, unsigned: bool)
    requires InRange(req)
    ensures -TWO64 < RawSize(base, req, unsigned) - Needed(base, req) < TWO64
  {
    var inc := req.increment;
    NeededByRemainder(base, req);
    TruncatedDivision(Wrap(unsigned, base + inc - req.offset), inc);
  }

  lemma AtLeastOneFactor(k: int, inc: int)
    requires k >= 1 && inc > 0
    ensures k * inc >= inc && -k * inc <= -inc
  {
  }

  /** x == q * inc + r with 0 <= r < inc determines q and r. */
  lemma QuotientUnique(x: int, q: int, r: int, inc: int)
    requires inc > 0 && x == q * inc + r && 0 <= r < inc
    ensures x / inc == q && x % inc == r
  {
    var p := x / inc;
    Distribute(q, -p, inc);
    if q > p {
      AtLeastOneFactor(q - p, inc);
    } else if q < p {
      AtLeastOneFactor(p - q, inc);
    }
  }

  /** From a base at or above offset - 1, n values take between (n - 1) * increment + 1 and n * increment IDs. */
  lemma NeededBounds(base: int, req: Request)
    requires req.increment > 0 && req.n >= 1 && base >= req.offset - 1
    ensures (req.n - 1) * req.increment + 1 <= Needed(base, req) <= req.n * req.increment
    ensures (base + Needed(base, req) - req.offset) % req.increment == 0
  {
    var inc := req.increment;
    var q, rest := (base + inc - req.offset) / inc, (req.n - 1) * req.increment;
    Product(req.n, inc);
    DivideDown(base + inc - req.offset, inc);
    Distribute(q, req.n - 1, inc);
    QuotientUnique(base + Needed(base, req) - req.offset, q + req.n - 1, 0, inc);
  }

  lemma DivideDown(v: int, inc: int)
    requires v >= 0 && inc > 0
    ensures v / inc * inc == v - v % inc
  {
  }

  lemma Distribute(a: int, b: int, c: int)
    ensures (a + b) * c == a * c + b * c
  {
  }

  /** How many IDs of the interval (lo, hi] are congruent to offset modulo increment. */
  function Congruent(lo: int, hi: int, inc: int, off: int): nat
    requires lo <= hi && inc > 0
    decreases hi - lo
  {
    if lo == hi then 0 else Congruent(lo, hi - 1, inc, off) + if (hi - off) % inc == 0 then 1 else 0
  }

  lemma FloorStep(x: int, inc: int)
    requires inc > 0
    ensures x / inc == (x - 1) / inc + if x % inc == 0 then 1 else 0
  {
    var q, r := x / inc, x % inc;
    assert x == q * inc + r;
    if r == 0 {
      assert x - 1 == (q - 1) * inc + (inc - 1);
      QuotientUnique(x - 1, q - 1, inc - 1, inc);
    } else {
      QuotientUnique(x - 1, q, r - 1, inc);
    }
  }

  lemma {:induction false} CongruentByFloor(lo: int, hi: int, inc: int, off: int)
    requires lo <= hi && inc > 0
    ensures Congruent(lo, hi, inc, off) == (hi - off) / inc - (lo - off) / inc
    decreases hi - lo
  {
    if lo < hi {
      CongruentByFloor(lo, hi - 1, inc, off);
      FloorStep(hi - off, inc);
    }
  }

  /** The interval of the needed length holds exactly n IDs congruent to offset, and its last ID is one of them. */
  lemma NeededHoldsExactlyN(base: int, req: Request)
    requires req.increment > 0 && req.n >= 1 && base >= req.offset - 1
    ensures Needed(base, req) >= 1
    ensures Congruent(base, base + Needed(base, req), req.increment, req.offset) == req.n
    ensures (base + Needed(base, req) - req.offset) % req.increment == 0
  {
    var inc, v := req.increment, base - req.offset;
    NeededBounds(base, req);
    Product(req.n, inc);
    CongruentByFloor(base, base + Needed(base, req), inc, req.offset);
    var q := (v + inc) / inc;
    DivideDown(v + inc, inc);
    Distribute(q, req.n - 1, inc);
    QuotientUnique(base + Needed(base, req) - req.offset, q + req.n - 1, 0, inc);
    Distribute(q, -1, inc);
    QuotientUnique(v, q - 1, (v + inc) % inc, inc);
  }
}
