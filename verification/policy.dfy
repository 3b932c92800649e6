/** The per-register pieces of ccm.h: `detail::range_check` (the saturation
    test) and the two counter policies `update::Increment` (a saturating
    counter) and `update::PowerOfTwo` (a probabilistic logarithmic counter). */
module Policy {
  import opened Arith

  /* ---------------- range_check ---------------- */

  /** The three cases `range_check` distinguishes by the register's value type. */
  datatype ValueKind = Floating | Signed | Unsigned

  /** The values an `nbits`-bit register of the given kind can hold. */
  predicate Fits(kind: ValueKind, nbits: nat, v: int)
    requires kind == Signed ==> nbits >= 1
  {
    match kind
    case Floating => true
    case Signed => -(Pow2(nbits - 1) as int) <= v <= Pow2(nbits - 1) - 1
    case Unsigned => v < Pow2(nbits)
  }

  /** `range_check(nbits, val)`: 0 when the value fits, -1 below the range of a
      signed register, 1 above the range.  `val` is an `int64_t` or a `uint64_t`;
      the shifts need `1 <= nbits <= 64` (signed) and `nbits < 64` (unsigned). */
  function RangeCheck(kind: ValueKind, nbits: nat, v: int): (r: int)
    requires kind == Signed ==> 1 <= nbits <= 64 && -(Pow2(63) as int) <= v < Pow2(63)
    requires kind == Unsigned ==> nbits < 64 && 0 <= v < WordLimit
    ensures r == 0 <==> Fits(kind, nbits, v)
    ensures r == -1 <==> kind == Signed && v < -(Pow2(nbits - 1) as int)
    ensures r == 1 <==> !Fits(kind, nbits, v) && !(kind == Signed && v < -(Pow2(nbits - 1) as int))
  {
    match kind
    case Floating => 0
    case Signed =>
      if v < -(Pow2(nbits - 1) as int) then -1
      else if v > Pow2(nbits - 1) - 1 then 1
      else 0
    case Unsigned => if v >= Pow2(nbits) then 1 else 0
  }

  /* ---------------- writing one value to several registers ---------------- */

  /** `for(const auto el: ref) con[el] = v;` */
  function WriteAll(con: seq<int>, rows: seq<nat>, v: int): (r: seq<int>)
    requires forall i :: 0 <= i < |rows| ==> rows[i] < |con|
    ensures |r| == |con|
    ensures forall j :: 0 <= j < |con| ==> r[j] == (if j in rows then v else con[j])
    decreases |rows|
  {
    if |rows| == 0 then con
    else WriteAll(con[rows[0] := v], rows[1..], v)
  }

  /* ---------------- update::Increment ---------------- */

  /** `Increment::operator()(ref, maxval)`: one step of a counter that sticks at `maxval`. */
  function IncrementRegister(ref: int, maxval: int): (r: int)
    ensures ref < maxval ==> r == ref + 1
    ensures ref >= maxval ==> r == ref
  {
    ref + if ref < maxval then 1 else 0
  }

  /** `n` increments in a row. */
  function IncrementTimes(ref: int, maxval: int, n: nat): int
  {
    if n == 0 then ref else IncrementRegister(IncrementTimes(ref, maxval, n - 1), maxval)
  }

  /** Starting at or below `maxval`, `n` increments count up to `n` and then stick. */
  lemma {:induction false} IncrementSaturates(ref: int, maxval: int, n: nat)
    requires ref <= maxval
    ensures IncrementTimes(ref, maxval, n) == Min(ref + n, maxval)
  {
    if n > 0 {
      IncrementSaturates(ref, maxval, n - 1);
    }
  }

  function Min(a: int, b: int): int { if a <= b then a else b }
  function Max(a: int, b: int): int { if a >= b then a else b }

  /** The count `Increment::operator()(ref, con, nbits)` computes: the first listed
      register plus one, in 32-bit `unsigned` arithmetic. */
  function IncrementedCount(v: int): (r: nat)
    ensures 0 <= v && v + 1 < 0x1_0000_0000 ==> r == v + 1
    ensures v == 0xFFFF_FFFF ==> r == 0
  {
    (v + 1) % 0x1_0000_0000
  }

  /** `Increment::operator()(ref, con, nbits)` as written: the 32-bit count wraps to
      0 on a full 32-bit register, passes the range check, and is written back. */
  function IncrementRowsAsWritten(rows: seq<nat>, con: seq<int>, nbits: nat): (r: seq<int>)
    requires |rows| >= 1 && forall i :: 0 <= i < |rows| ==> rows[i] < |con|
    requires nbits < 64
    ensures |r| == |con|
    ensures var count := IncrementedCount(con[rows[0]]);
      forall j :: 0 <= j < |con| ==>
        r[j] == (if j in rows && count < Pow2(nbits) then count else con[j])
  {
    var count := IncrementedCount(con[rows[0]]);
    if RangeCheck(Unsigned, nbits, count) == 0 then WriteAll(con, rows, count) else con
  }

  /** A full 32-bit register that an `add` should leave saturated is reset to zero. */
  lemma {:induction false} IncrementRowsAsWrittenResets()
    ensures IncrementRowsAsWritten([0], [0xFFFF_FFFF], 32) == [0]
  {
    var r := IncrementRowsAsWritten([0], [0xFFFF_FFFF], 32);
    Pow2Of32();
    assert r[0] == 0;
  }

  /** `Increment::operator()(ref, con, nbits)` as intended: every listed register takes
      the first one plus one when that still fits in `nbits` bits, and nothing changes
      otherwise, so a full register stays full. */
  function IncrementRows(rows: seq<nat>, con: seq<int>, nbits: nat): (r: seq<int>)
    requires |rows| >= 1 && forall i :: 0 <= i < |rows| ==> rows[i] < |con|
    requires nbits < 64 && 0 <= con[rows[0]] < 0x1_0000_0000
    ensures |r| == |con|
    ensures var count := con[rows[0]] + 1;
      forall j :: 0 <= j < |con| ==>
        r[j] == (if j in rows && count < Pow2(nbits) then count else con[j])
  {
    var count := con[rows[0]] + 1;
    if RangeCheck(Unsigned, nbits, count) == 0 then WriteAll(con, rows, count) else con
  }

  /** Every register holds an `nbits`-bit unsigned value. */
  predicate AllFit(con: seq<int>, nbits: nat)
  {
    forall j :: 0 <= j < |con| ==> 0 <= con[j] < Pow2(nbits)
  }

  /** The multi-register `Increment` step only writes values that fit. */
  lemma {:induction false} IncrementRowsFit(rows: seq<nat>, con: seq<int>, nbits: nat)
    requires |rows| >= 1 && forall i :: 0 <= i < |rows| ==> rows[i] < |con|
    requires nbits < 64 && 0 <= con[rows[0]] < 0x1_0000_0000 && AllFit(con, nbits)
    ensures AllFit(IncrementRows(rows, con, nbits), nbits)
  {
  }

  /** The step as written also writes only values that fit in `nbits` bits. */
  lemma {:induction false} IncrementRowsAsWrittenFit(rows: seq<nat>, con: seq<int>, nbits: nat)
    requires |rows| >= 1 && forall i :: 0 <= i < |rows| ==> rows[i] < |con|
    requires nbits < 64 && AllFit(con, nbits)
    ensures AllFit(IncrementRowsAsWritten(rows, con, nbits), nbits)
  {
  }

  /** Unless the first register is a full 32-bit one, the step as written is the
      intended one. */
  lemma {:induction false} IncrementRowsAgree(rows: seq<nat>, con: seq<int>, nbits: nat)
    requires |rows| >= 1 && forall i :: 0 <= i < |rows| ==> rows[i] < |con|
    requires nbits < 64 && 0 <= con[rows[0]] < 0xFFFF_FFFF
    ensures IncrementRowsAsWritten(rows, con, nbits) == IncrementRows(rows, con, nbits)
  {
    var a, b := IncrementRowsAsWritten(rows, con, nbits), IncrementRows(rows, con, nbits);
    assert forall j :: 0 <= j < |a| ==> a[j] == b[j];
  }

  /* ---------------- update::PowerOfTwo ---------------- */

  /** The random-bit cursor of `PowerOfTwo`: `gen` holds the unused bits of the last
      random word (`gen_`), `left` how many of them remain (`nbits_`), and `drawn`
      how many words have been taken from the generator. */
  datatype Cursor = Cursor(gen: nat, left: nat, drawn: nat)

  /** The cursor holds no more bits than it claims. */
  predicate CursorValid(c: Cursor)
  {
    c.left <= 64 && c.gen < Pow2(c.left)
  }

  /** The constructor: the generator's first word, all 64 bits unused. */
  function NewCursor(rng: nat -> Word): (c: Cursor)
    ensures CursorValid(c)
  {
    Pow2Of64();
    Cursor(rng(0), 64, 1)
  }

  /** `if(nbits_ < need) gen_ = rng_(), nbits_ = 64;` -- `rng(i)` is the `i`-th word
      the generator produces. */
  function Refill(c: Cursor, need: nat, rng: nat -> Word): (d: Cursor)
    ensures c.left < need ==> d == Cursor(rng(c.drawn), 64, c.drawn + 1)
    ensures c.left >= need ==> d == c
  {
    if c.left < need then Cursor(rng(c.drawn), 64, c.drawn + 1) else c
  }

  /** `gen_ >>= used, nbits_ -= used` */
  function Consume(c: Cursor, used: nat): (d: Cursor)
    requires used <= c.left
  {
    Cursor(Shr(c.gen, used), c.left - used, c.drawn)
  }

  /** `gen & (UINT64_C(-1) >> (64 - v)) == 0`: the low `v` bits of `gen` are all zero. */
  predicate LowBitsZero(gen: nat, v: nat)
  {
    LowBits(gen, v) == 0
  }

  /** `PowerOfTwo::operator()(ref, maxval)`: an empty register becomes 1, a full one
      stays, and otherwise the register grows by one exactly when the next `ref`
      random bits are all zero (probability `2^-ref`), consuming those bits.  The
      shifts by `64 - ref` and `ref` need `ref < 64`. */
  function PowerOfTwoRegister(ref: nat, maxval: int, c: Cursor, rng: nat -> Word): (r: (nat, Cursor))
    requires ref == 0 || ref >= maxval || ref < 64
    requires c.left <= 64
    ensures r.1.left <= 64
    ensures ref == 0 ==> r == (1, c)
    ensures ref != 0 && ref >= maxval ==> r == (ref, c)
    ensures ref != 0 && ref < maxval ==>
      var d := Refill(c, ref, rng);
      && (r.0 == ref + 1 <==> LowBitsZero(d.gen, ref))
      && (r.0 == ref || r.0 == ref + 1)
      && r.1 == Consume(d, ref)
  {
    if ref == 0 then (1, c)
    else if ref >= maxval then (ref, c)
    else
      var d := Refill(c, ref, rng);
      var grown := ref + if LowBitsZero(d.gen, ref) then 1 else 0;
      (grown, Consume(d, ref))
  }

  /** Consuming bits keeps the cursor honest. */
  lemma {:induction false} ConsumeKeepsValid(c: Cursor, used: nat)
    requires CursorValid(c) && used <= c.left
    ensures CursorValid(Consume(c, used))
  {
    Pow2Add(used, c.left - used);
    ShrBelow(c.gen, used, c.left - used);
  }

  lemma {:induction false} RefillKeepsValid(c: Cursor, need: nat, rng: nat -> Word)
    requires CursorValid(c) && need <= 64
    ensures CursorValid(Refill(c, need, rng)) && Refill(c, need, rng).left >= need
  {
    Pow2Of64();
  }

  /** The scalar `PowerOfTwo` step keeps the cursor valid. */
  lemma {:induction false} PowerOfTwoRegisterKeepsCursor(ref: nat, maxval: int, c: Cursor, rng: nat -> Word)
    requires ref == 0 || ref >= maxval || ref < 64
    requires CursorValid(c)
    ensures CursorValid(PowerOfTwoRegister(ref, maxval, c, rng).1)
  {
    if ref != 0 && ref < maxval {
      RefillKeepsValid(c, ref, rng);
      ConsumeKeepsValid(Refill(c, ref, rng), ref);
    }
  }

  /** `PowerOfTwo::operator()(ref, con, nbits)`: an empty first register sets every
      listed register to 1; otherwise, when the next `val` random bits are zero and
      `val + 1` passes the range check, every listed register becomes `val + 1`.
      The random bits are consumed either way. */
  function PowerOfTwoRows(rows: seq<nat>, con: seq<int>, nbits: nat, c: Cursor, rng: nat -> Word)
    : (r: (seq<int>, Cursor))
    requires |rows| >= 1 && forall i :: 0 <= i < |rows| ==> rows[i] < |con|
    requires 0 <= con[rows[0]] < 64 && nbits < 64 && c.left <= 64
    ensures |r.0| == |con|
    ensures con[rows[0]] == 0 ==> r.1 == c && forall j :: 0 <= j < |con| ==> r.0[j] == (if j in rows then 1 else con[j])
    ensures con[rows[0]] != 0 ==>
      var val := con[rows[0]];
      var d := Refill(c, val, rng);
      && r.1 == Consume(d, val)
      && forall j :: 0 <= j < |con| ==>
           r.0[j] == (if j in rows && LowBitsZero(d.gen, val) && val + 1 < Pow2(nbits) then val + 1 else con[j])
  {
    var val := con[rows[0]];
    if val == 0 then (WriteAll(con, rows, 1), c)
    else
      var d := Refill(c, val, rng);
      var con' := if LowBitsZero(d.gen, val) && RangeCheck(Unsigned, nbits, val + 1) == 0
                  then WriteAll(con, rows, val + 1) else con;
      (con', Consume(d, val))
  }

  /** The multi-register `PowerOfTwo` step keeps the cursor valid. */
  lemma {:induction false} PowerOfTwoRowsKeepsCursor(rows: seq<nat>, con: seq<int>, nbits: nat, c: Cursor, rng: nat -> Word)
    requires |rows| >= 1 && forall i :: 0 <= i < |rows| ==> rows[i] < |con|
    requires 0 <= con[rows[0]] < 64 && nbits < 64 && CursorValid(c)
    ensures CursorValid(PowerOfTwoRows(rows, con, nbits, c, rng).1)
  {
    var val := con[rows[0]];
    if val != 0 {
      RefillKeepsValid(c, val, rng);
      ConsumeKeepsValid(Refill(c, val, rng), val);
    }
  }

  /** The multi-register `PowerOfTwo` step only writes values that fit. */
  lemma {:induction false} PowerOfTwoRowsFit(rows: seq<nat>, con: seq<int>, nbits: nat, c: Cursor, rng: nat -> Word)
    requires |rows| >= 1 && forall i :: 0 <= i < |rows| ==> rows[i] < |con|
    requires 0 <= con[rows[0]] < 64 && 1 <= nbits < 64 && c.left <= 64 && AllFit(con, nbits)
    ensures AllFit(PowerOfTwoRows(rows, con, nbits, c, rng).0, nbits)
  {
  }

  /* ---------------- estimates and merging, per policy ---------------- */

  datatype Kind = Increment | PowerOfTwo

  /** `est_count(val)`: the count a register value stands for.  For `PowerOfTwo`
      the shift `1 << (val - 1)` needs `val <= 64`. */
  function Estimate(p: Kind, v: nat): (r: nat)
    requires p == PowerOfTwo ==> v <= 64
    ensures p == Increment ==> r == v
    ensures p == PowerOfTwo ==> (r == 0 <==> v == 0)
    ensures p == PowerOfTwo && v >= 1 ==> r == Pow2(v - 1)
  {
    match p
    case Increment => v
    case PowerOfTwo => if v == 0 then 0 else Pow2(v - 1)
  }

  /** A larger register never stands for a smaller count. */
  lemma {:induction false} EstimateMonotone(p: Kind, v: nat, w: nat)
    requires v <= w
    requires p == PowerOfTwo ==> w <= 64
    ensures Estimate(p, v) <= Estimate(p, w)
  {
    if p == PowerOfTwo && v >= 1 {
      Pow2Monotone(v - 1, w - 1);
    }
  }

  /** `PowerOfTwo::combine` as written: the larger register, plus one when both are equal. */
  function PowerOfTwoCombineAsWritten(a: nat, b: nat): (r: nat)
    ensures r >= a && r >= b
    ensures a == b ==> r == a + 1
    ensures a != b ==> r == Max(a, b)
  {
    Max(a, b) + if a == b then 1 else 0
  }

  /** Merging two empty `PowerOfTwo` registers as written yields a register that
      counts one item. */
  lemma {:induction false} PowerOfTwoCombineAsWrittenInventsCount()
    ensures PowerOfTwoCombineAsWritten(0, 0) == 1
    ensures Estimate(PowerOfTwo, PowerOfTwoCombineAsWritten(0, 0)) == 1
  {
  }

  /** `combine(i, j)` per policy: a sum for `Increment`; for `PowerOfTwo` the larger
      register, plus one when both are equal and nonzero (two empty registers stay
      empty). */
  function Combine(p: Kind, a: nat, b: nat): (r: nat)
    ensures p == PowerOfTwo ==> (r == 0 <==> a == 0 && b == 0)
    ensures p == PowerOfTwo ==> r >= a && r >= b && r <= Max(a, b) + 1
    ensures p == PowerOfTwo && r == Max(a, b) + 1 ==> a == b
  {
    match p
    case Increment => a + b
    case PowerOfTwo => if a == 0 && b == 0 then 0 else PowerOfTwoCombineAsWritten(a, b)
  }

  /** `combine(i, j)` per policy as written: the sum for `Increment`, and for
      `PowerOfTwo` the larger register plus one when both are equal, empty ones
      included. It differs from the corrected `Combine` exactly on two empty
      `PowerOfTwo` registers. */
  function CombineAsWritten(p: Kind, a: nat, b: nat): (r: nat)
    ensures p == Increment || a != 0 || b != 0 ==> r == Combine(p, a, b)
    ensures p == PowerOfTwo && a == 0 && b == 0 ==> r == 1 && Combine(p, a, b) == 0
  {
    match p
    case Increment => a + b
    case PowerOfTwo => PowerOfTwoCombineAsWritten(a, b)
  }

  /** Merging as written is symmetric too. */
  lemma {:induction false} CombineAsWrittenCommutes(p: Kind, a: nat, b: nat)
    ensures CombineAsWritten(p, a, b) == CombineAsWritten(p, b, a)
  {
  }

  /** Merging is symmetric. */
  lemma {:induction false} CombineCommutes(p: Kind, a: nat, b: nat)
    ensures Combine(p, a, b) == Combine(p, b, a)
  {
  }

  /** A merged register stands for at least what either input stood for, and is
      empty only when both inputs are. */
  lemma {:induction false} CombineCoversBoth(p: Kind, a: nat, b: nat)
    requires p == PowerOfTwo ==> a < 64 && b < 64
    ensures Combine(p, a, b) == 0 <==> a == 0 && b == 0
    ensures Estimate(p, Combine(p, a, b)) >= Estimate(p, a)
    ensures Estimate(p, Combine(p, a, b)) >= Estimate(p, b)
  {
    EstimateMonotone(p, a, Combine(p, a, b));
    EstimateMonotone(p, b, Combine(p, a, b));
  }

  /** Merging two equal nonzero `PowerOfTwo` registers doubles the count they stand for. */
  lemma {:induction false} CombineEqualDoubles(a: nat)
    requires 1 <= a < 64
    ensures Estimate(PowerOfTwo, Combine(PowerOfTwo, a, a)) == 2 * Estimate(PowerOfTwo, a)
    ensures Estimate(PowerOfTwo, CombineAsWritten(PowerOfTwo, a, a)) == 2 * Estimate(PowerOfTwo, a)
  {
  }
}
