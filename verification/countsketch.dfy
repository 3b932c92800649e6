/** `csbase_t`: a count sketch whose row hashes are carved, `np + 1` bits at a time,
    out of 64-bit hashes of the item -- the plain item for the first `nph` rows, the
    item xor-ed with a seed for each further group of `nph` rows. */
module CountSketch {
  import opened Arith
  import opened Sorting
  import opened Counters

  /** The register table and the seeds of the hash groups after the first.  The seeds
      are stored as the sketch's signed 32-bit counter type. */
  datatype Sketch = Sketch(table: Table, seeds: seq<int>)

  /** `nph_`: how many `np + 1`-bit row hashes one 64-bit hash provides. */
  function PerHash(np: nat): (n: nat)
    requires np < 64
    ensures 1 <= n <= 64
  {
    64 / (np + 1)
  }

  /** How many seeds the constructor draws: one per hash group after the first,
      `(nh + nph - 1) / nph - 1`. */
  function SeedsNeeded(np: nat, nh: nat): (n: nat)
    requires np < 64 && nh >= 1
    ensures n == (nh - 1) / PerHash(np)
  {
    var p := PerHash(np);
    GroupCount(nh, p);
    (nh + (p - 1)) / p - 1
  }

  /** `(n + p - 1) / p`, the number of groups of `p` needed for `n >= 1` rows, is one
      more than the group of the last row. */
  lemma {:induction false} GroupCount(n: nat, p: nat)
    requires n >= 1 && p >= 1
    ensures (n + (p - 1)) / p == (n - 1) / p + 1
  {
    var q, m := (n - 1) / p, (n - 1) % p;
    assert n - 1 == q * p + m;
    assert n + (p - 1) == (q + 1) * p + m;
    DivModOf(q + 1, m, p);
  }

  predicate IsInt32(x: int)
  {
    -0x8000_0000 <= x < 0x8000_0000
  }

  /** A 64-bit generator output stored into a 32-bit signed seed: its low 32 bits,
      read in two's complement. */
  function Int32Of(w: Word): (x: int)
    ensures IsInt32(x) && (x - w) % 0x1_0000_0000 == 0
  {
    var low := w % 0x1_0000_0000;
    if low < 0x8000_0000 then low else low - 0x1_0000_0000
  }

  predicate Valid(s: Sketch)
  {
    && Counters.Valid(s.table) && s.table.np < 64 && s.table.nh >= 1
    && |s.seeds| >= SeedsNeeded(s.table.np, s.table.nh)
    && forall i :: 0 <= i < |s.seeds| ==> IsInt32(s.seeds[i])
  }

  /** The constructor: `nh << np` zeroed registers and the seeds drawn from the
      generator -- as many as the hash groups need, and at least `lanes` (the
      vector width the vectorised `addh` reads). */
  function Create(np: nat, nh: nat, lanes: nat, rng: nat -> Word): (s: Sketch)
    requires np < 64 && nh >= 1
    ensures Valid(s) && s.table == Zeroed(np, nh)
    ensures |s.seeds| == if lanes > SeedsNeeded(np, nh) then lanes else SeedsNeeded(np, nh)
    ensures forall i :: 0 <= i < |s.seeds| ==> s.seeds[i] == Int32Of(rng(i))
  {
    var n := if lanes > SeedsNeeded(np, nh) then lanes else SeedsNeeded(np, nh);
    Sketch(Zeroed(np, nh), seq(n, i requires 0 <= i < n => Int32Of(rng(i))))
  }

  /** The number of bits `k` row hashes of `np + 1` bits take up. */
  function Bits(k: nat, np: nat): nat
  {
    k * (np + 1)
  }

  /** The hash group of row `r`: `r / nph`. */
  function Group(np: nat, r: nat): nat
    requires np < 64
  {
    var p := PerHash(np);
    assert r / p >= 0 by {
      DivMonotone(0, r, p);
    }
    r / p
  }

  /** How many bits row `r`'s hash lies above the bottom of its group's hash. */
  function Offset(np: nat, r: nat): nat
    requires np < 64
  {
    Bits(r % PerHash(np), np)
  }

  /** Row `r`'s group has a seed when it is not the first. */
  lemma {:induction false} GroupHasSeed(np: nat, nh: nat, r: nat)
    requires np < 64 && r < nh
    ensures Group(np, r) <= SeedsNeeded(np, nh)
  {
    DivMonotone(r, nh - 1, PerHash(np));
  }

  /** The 64-bit hash of group `g`: `hf(val)` for the first group,
      `hf(seeds[g - 1] ^ val)` after it, the seed sign-extended to 64 bits. */
  function GroupHash(s: Sketch, hf: nat -> Word, val: Word, g: nat): Word
    requires Valid(s) && g <= SeedsNeeded(s.table.np, s.table.nh)
  {
    if g == 0 then hf(val) else hf(Xor(Unsigned64(s.seeds[g - 1]), val))
  }

  /** Row `r`'s hash as `est_count` reads it: group `r / nph`'s hash shifted right by
      `np + 1` bits once per earlier row of the group. */
  function RowHash(s: Sketch, hf: nat -> Word, val: Word, r: nat): nat
    requires Valid(s) && r < s.table.nh
  {
    GroupHasSeed(s.table.np, s.table.nh, r);
    Shr(GroupHash(s, hf, val, Group(s.table.np, r)), Offset(s.table.np, r))
  }

  function RowHashes(s: Sketch, hf: nat -> Word, val: Word): (hs: seq<nat>)
    requires Valid(s)
    ensures |hs| == s.table.nh
  {
    seq(s.table.nh, r requires 0 <= r < s.table.nh => RowHash(s, hf, val, r))
  }

  /** Row `r`'s hash as the scalar `addh`, `subh`, `addh_val` and `subh_val` use it:
      their first loop shifts before each update, so the first group's rows take one
      shift more than `est_count` does. */
  function RowHashAsWritten(s: Sketch, hf: nat -> Word, val: Word, r: nat): nat
    requires Valid(s) && r < s.table.nh
  {
    if Group(s.table.np, r) == 0 then Shr(hf(val), Bits(r + 1, s.table.np))
    else RowHash(s, hf, val, r)
  }

  function RowHashesAsWritten(s: Sketch, hf: nat -> Word, val: Word): (hs: seq<nat>)
    requires Valid(s)
    ensures |hs| == s.table.nh
  {
    seq(s.table.nh, r requires 0 <= r < s.table.nh => RowHashAsWritten(s, hf, val, r))
  }

  /** The written first loop hands each row of the first group the hash meant for
      the row after it. */
  lemma {:induction false} AsWrittenTakesNextRow(s: Sketch, hf: nat -> Word, val: Word, r: nat)
    requires Valid(s) && r + 1 < s.table.nh && r + 1 < PerHash(s.table.np)
    ensures RowHashAsWritten(s, hf, val, r) == RowHash(s, hf, val, r + 1)
  {
    var p := PerHash(s.table.np);
    DivModOf(0, r, p);
    DivModOf(0, r + 1, p);
  }

  /** `addh(val)` as intended: every row's hash as `est_count` reads it, so each of
      the item's row readings rises by one. */
  function Addh(s: Sketch, hf: nat -> Word, val: Word): (r: Sketch)
    requires Valid(s)
    ensures Valid(r) && r.seeds == s.seeds && SameShape(s.table, r.table)
    ensures Readings(r.table, RowHashes(s, hf, val)) == Shift(Readings(s.table, RowHashes(s, hf, val)), 1)
  {
    ApplyShiftsReadings(s.table, RowHashes(s, hf, val), 1);
    s.(table := Apply(s.table, RowHashes(s, hf, val), 1).0)
  }

  /** `subh(val)` as intended: every row's hash as `est_count` reads it, so each of
      the item's row readings falls by one. */
  function Subh(s: Sketch, hf: nat -> Word, val: Word): (r: Sketch)
    requires Valid(s)
    ensures Valid(r) && r.seeds == s.seeds && SameShape(s.table, r.table)
    ensures Readings(r.table, RowHashes(s, hf, val)) == Shift(Readings(s.table, RowHashes(s, hf, val)), -1)
  {
    ApplyShiftsReadings(s.table, RowHashes(s, hf, val), -1);
    s.(table := Apply(s.table, RowHashes(s, hf, val), -1).0)
  }

  /** `addh(val)` as written: the readings that move are those at the shifted row
      hashes of the written first loop. */
  function AddhAsWritten(s: Sketch, hf: nat -> Word, val: Word): (r: Sketch)
    requires Valid(s)
    ensures Valid(r) && r.seeds == s.seeds && SameShape(s.table, r.table)
    ensures Readings(r.table, RowHashesAsWritten(s, hf, val)) == Shift(Readings(s.table, RowHashesAsWritten(s, hf, val)), 1)
  {
    ApplyShiftsReadings(s.table, RowHashesAsWritten(s, hf, val), 1);
    s.(table := Apply(s.table, RowHashesAsWritten(s, hf, val), 1).0)
  }

  /** `subh(val)` as written. */
  function SubhAsWritten(s: Sketch, hf: nat -> Word, val: Word): (r: Sketch)
    requires Valid(s)
    ensures Valid(r) && r.seeds == s.seeds && SameShape(s.table, r.table)
    ensures Readings(r.table, RowHashesAsWritten(s, hf, val)) == Shift(Readings(s.table, RowHashesAsWritten(s, hf, val)), -1)
  {
    ApplyShiftsReadings(s.table, RowHashesAsWritten(s, hf, val), -1);
    s.(table := Apply(s.table, RowHashesAsWritten(s, hf, val), -1).0)
  }

  /** `est_count(val)` as intended: the median of the rows' signed readings.  The
      code returns the lower middle reading instead (`EstCountAsWritten`). */
  function EstCount(s: Sketch, hf: nat -> Word, val: Word): (e: int)
    requires Valid(s)
    ensures exists r :: 0 <= r < s.table.nh && Readings(s.table, RowHashes(s, hf, val))[r] <= e
    ensures exists r :: 0 <= r < s.table.nh && e <= Readings(s.table, RowHashes(s, hf, val))[r]
  {
    Estimate(s.table, RowHashes(s, hf, val))
  }

  /** `est_count(val)` as written: the lower middle reading. */
  function EstCountAsWritten(s: Sketch, hf: nat -> Word, val: Word): (e: int)
    requires Valid(s)
    ensures e == InsertionSort(Readings(s.table, RowHashes(s, hf, val)))[(s.table.nh - 1) / 2]
    ensures s.table.nh % 2 == 1 ==> e == EstCount(s, hf, val)
  {
    EstimateAsWrittenOddIsMedian(s.table, RowHashes(s, hf, val));
    EstimateAsWritten(s.table, RowHashes(s, hf, val))
  }

  /** `addh_val(val)` as intended: returning the item's new estimate. */
  function AddhVal(s: Sketch, hf: nat -> Word, val: Word): (r: (Sketch, int))
    requires Valid(s)
    ensures Valid(r.0) && r.0 == Addh(s, hf, val)
    ensures r.1 == EstCount(s, hf, val) + 1
  {
    var a := ApplyVal(s.table, RowHashes(s, hf, val), 1);
    (s.(table := a.0), a.1)
  }

  /** `subh_val(val)` as intended: returning the item's new estimate. */
  function SubhVal(s: Sketch, hf: nat -> Word, val: Word): (r: (Sketch, int))
    requires Valid(s)
    ensures Valid(r.0) && r.0 == Subh(s, hf, val)
    ensures r.1 == EstCount(s, hf, val) - 1
  {
    var a := ApplyVal(s.table, RowHashes(s, hf, val), -1);
    (s.(table := a.0), a.1)
  }

  /** `addh_val(val)` as written: the as-written row hashes, and the median of the raw
      register values the updates returned. */
  function AddhValAsWritten(s: Sketch, hf: nat -> Word, val: Word): (r: (Sketch, int))
    requires Valid(s)
    ensures Valid(r.0) && r.0 == AddhAsWritten(s, hf, val)
    ensures r.1 == Median(InsertionSort(Raw(r.0.table, RowHashesAsWritten(s, hf, val))))
  {
    var a := ApplyValAsWritten(s.table, RowHashesAsWritten(s, hf, val), 1);
    (s.(table := a.0), a.1)
  }

  /** `subh_val(val)` as written. */
  function SubhValAsWritten(s: Sketch, hf: nat -> Word, val: Word): (r: (Sketch, int))
    requires Valid(s)
    ensures Valid(r.0) && r.0 == SubhAsWritten(s, hf, val)
    ensures r.1 == Median(InsertionSort(Raw(r.0.table, RowHashesAsWritten(s, hf, val))))
  {
    var a := ApplyValAsWritten(s.table, RowHashesAsWritten(s, hf, val), -1);
    (s.(table := a.0), a.1)
  }

  /** `operator+=`: register-wise sum.  The seeds are not compared. */
  function Merge(s: Sketch, o: Sketch): (r: Sketch)
    requires Valid(s) && |o.table.core| >= |s.table.core|
    ensures Valid(r) && r.seeds == s.seeds && SameShape(s.table, r.table)
    ensures forall i :: 0 <= i < |s.table.core| ==> r.table.core[i] == s.table.core[i] + o.table.core[i]
  {
    s.(table := Counters.Merge(s.table, o.table))
  }

  /* ---------------- properties ---------------- */

  /** A new sketch estimates 0 for every item. */
  lemma {:induction false} CreateEstimatesZero(np: nat, nh: nat, lanes: nat, rng: nat -> Word, hf: nat -> Word, val: Word)
    requires np < 64 && nh >= 1
    ensures EstCount(Create(np, nh, lanes, rng), hf, val) == 0
  {
    var s := Create(np, nh, lanes, rng);
    ZeroedEstimatesZero(np, nh, RowHashes(s, hf, val));
  }

  /** `subh` undoes `addh` of the same item. */
  lemma {:induction false} AddhThenSubh(s: Sketch, hf: nat -> Word, val: Word)
    requires Valid(s)
    ensures Subh(Addh(s, hf, val), hf, val) == s
  {
    var t := Addh(s, hf, val);
    assert RowHashes(t, hf, val) == RowHashes(s, hf, val);
    ApplyInverse(s.table, RowHashes(s, hf, val), 1);
  }

  /** `addh` undoes `subh` of the same item. */
  lemma {:induction false} SubhThenAddh(s: Sketch, hf: nat -> Word, val: Word)
    requires Valid(s)
    ensures Addh(Subh(s, hf, val), hf, val) == s
  {
    var t := Subh(s, hf, val);
    assert RowHashes(t, hf, val) == RowHashes(s, hf, val);
    ApplyInverse(s.table, RowHashes(s, hf, val), -1);
  }

  /** Even as written, `subh` undoes `addh`: both use the same (shifted) hashes. */
  lemma {:induction false} AddhAsWrittenThenSubhAsWritten(s: Sketch, hf: nat -> Word, val: Word)
    requires Valid(s)
    ensures SubhAsWritten(AddhAsWritten(s, hf, val), hf, val) == s
  {
    var t := AddhAsWritten(s, hf, val);
    assert RowHashesAsWritten(t, hf, val) == RowHashesAsWritten(s, hf, val);
    ApplyInverse(s.table, RowHashesAsWritten(s, hf, val), 1);
  }

  /** `addh` raises each of the item's row readings, and so its estimate, by exactly
      one; `subh` lowers them by one. */
  lemma {:induction false} AddhCountsOne(s: Sketch, hf: nat -> Word, val: Word)
    requires Valid(s)
    ensures Readings(Addh(s, hf, val).table, RowHashes(s, hf, val)) == Shift(Readings(s.table, RowHashes(s, hf, val)), 1)
    ensures EstCount(Addh(s, hf, val), hf, val) == EstCount(s, hf, val) + 1
  {
    var t := Addh(s, hf, val);
    assert RowHashes(t, hf, val) == RowHashes(s, hf, val);
    ApplyShiftsReadings(s.table, RowHashes(s, hf, val), 1);
    ApplyMovesEstimate(s.table, RowHashes(s, hf, val), 1);
  }

  lemma {:induction false} SubhUncountsOne(s: Sketch, hf: nat -> Word, val: Word)
    requires Valid(s)
    ensures EstCount(Subh(s, hf, val), hf, val) == EstCount(s, hf, val) - 1
  {
    var t := Subh(s, hf, val);
    assert RowHashes(t, hf, val) == RowHashes(s, hf, val);
    ApplyMovesEstimate(s.table, RowHashes(s, hf, val), -1);
  }

  /** `addh_val` returns the estimate `est_count` then gives. */
  lemma {:induction false} AddhValIsNewEstimate(s: Sketch, hf: nat -> Word, val: Word)
    requires Valid(s)
    ensures AddhVal(s, hf, val).1 == EstCount(AddhVal(s, hf, val).0, hf, val)
  {
    AddhCountsOne(s, hf, val);
  }

  /** With an odd number of rows the written `est_count` is the median. */
  lemma {:induction false} EstCountAsWrittenOddAgrees(s: Sketch, hf: nat -> Word, val: Word)
    requires Valid(s) && s.table.nh % 2 == 1
    ensures EstCountAsWritten(s, hf, val) == EstCount(s, hf, val)
  {
    EstimateAsWrittenOddIsMedian(s.table, RowHashes(s, hf, val));
  }

  /** Merged readings are sums, for sketches of the same shape and seeds. */
  lemma {:induction false} MergeAddsReadings(s: Sketch, o: Sketch, hf: nat -> Word, val: Word)
    requires Valid(s) && Valid(o) && SameShape(s.table, o.table) && s.seeds == o.seeds
    ensures var hs := RowHashes(s, hf, val);
      forall r :: 0 <= r < s.table.nh ==>
        Readings(Merge(s, o).table, hs)[r] == Readings(s.table, hs)[r] + Readings(o.table, hs)[r]
  {
    Counters.MergeAddsReadings(s.table, o.table, RowHashes(s, hf, val));
  }

  /** Adding an item before merging is adding it to the merge. */
  lemma {:induction false} MergeAfterAddh(s: Sketch, o: Sketch, hf: nat -> Word, val: Word)
    requires Valid(s) && Valid(o) && SameShape(s.table, o.table)
    ensures Merge(Addh(s, hf, val), o) == Addh(Merge(s, o), hf, val)
  {
    var m := Merge(s, o);
    assert RowHashes(m, hf, val) == RowHashes(s, hf, val);
    MergeAfterApply(s.table, o.table, RowHashes(s, hf, val), 1);
  }

  /* ---------------- the written code, on small inputs ---------------- */

  /** One hash bit per row, two rows: an item hashing to 1 gets row hashes 1 and 0. */
  lemma {:induction false} TwoRowsHashes(s: Sketch, hf: nat -> Word, val: Word)
    requires Valid(s) && s.table.np == 0 && s.table.nh == 2 && hf(val) == 1
    ensures RowHashes(s, hf, val)[0] == 1 && RowHashes(s, hf, val)[1] == 0
  {
    assert PerHash(0) == 64;
    assert RowHash(s, hf, val, 0) == Shr(1, 0) == 1;
    assert RowHash(s, hf, val, 1) == Shr(1, 1) == 0;
  }

  /** Rows holding 0 and -2: the item's readings are 0 (register 0, sign +1) and 2
      (register 1, sign -1). */
  lemma {:induction false} TwoRowsReadings(s: Sketch, hf: nat -> Word, val: Word)
    requires Valid(s) && s.table.np == 0 && s.table.nh == 2 && hf(val) == 1
    requires s.table.core[0] == 0 && s.table.core[1] == -2
    ensures Readings(s.table, RowHashes(s, hf, val))[0] == 0
    ensures Readings(s.table, RowHashes(s, hf, val))[1] == 2
  {
    TwoRowsHashes(s, hf, val);
    assert LowBits(1, 0) == 0 && LowBits(0, 0) == 0;
    assert Index(s.table, 1, 0) == 0 && Index(s.table, 0, 1) == 1;
    assert Shr(1, 0) == 1 && Shr(0, 0) == 0;
  }

  /** Two rows reading 0 and 2: the median is 1, the written `est_count` returns 0. */
  lemma {:induction false} EstCountAsWrittenTakesLower(s: Sketch, hf: nat -> Word, val: Word)
    requires Valid(s) && s.table.np == 0 && s.table.nh == 2 && hf(val) == 1
    requires s.table.core[0] == 0 && s.table.core[1] == -2
    ensures EstCountAsWritten(s, hf, val) == 0 && EstCount(s, hf, val) == 1
  {
    var hs := RowHashes(s, hf, val);
    var v := Readings(s.table, hs);
    TwoRowsReadings(s, hf, val);
    assert v[0] == 0 && v[1] == 2;
    SortShort(v);
    MedianOfZeroTwo(v);
    assert Estimate(s.table, hs) == Median(v);
    EstimateAsWrittenOddIsMedian(s.table, hs);
    assert EstimateAsWritten(s.table, hs) == v[0];
  }

  lemma {:induction false} MedianOfZeroTwo(v: seq<int>)
    requires |v| == 2 && v[0] == 0 && v[1] == 2
    ensures Median(v) == 1
  {
  }

  /** One row of two registers: an item hashing to 1 has the hash 1 as `est_count`
      reads it, and 0 in the written first loop. */
  lemma {:induction false} OneRowOfTwoHashes(s: Sketch, hf: nat -> Word, val: Word)
    requires Valid(s) && s.table.np == 1 && s.table.nh == 1 && hf(val) == 1
    ensures RowHashesAsWritten(s, hf, val)[0] == 0 && RowHashes(s, hf, val)[0] == 1
    ensures Index(s.table, 0, 0) == 0 && Index(s.table, 1, 0) == 1
  {
    assert PerHash(1) == 32;
    assert Shr(1, 2) == 0 && Shr(1, 0) == 1;
    assert LowBits(0, 1) == 0 && LowBits(1, 1) == 1;
  }

  /** The written `addh` of that item moves register 0 and leaves register 1 alone. */
  lemma {:induction false} OneRowOfTwoUntouched(s: Sketch, hf: nat -> Word, val: Word)
    requires Valid(s) && s.table.np == 1 && s.table.nh == 1 && hf(val) == 1
    ensures AddhAsWritten(s, hf, val).table.core[1] == s.table.core[1]
  {
    OneRowOfTwoHashes(s, hf, val);
    var hw := RowHashesAsWritten(s, hf, val);
    assert !Picked(s.table, hw, 1);
    ApplyOff(s.table, hw, 1, 1);
  }

  /** `est_count` of that item reads register 1 with sign -1. */
  lemma {:induction false} OneRowOfTwoReading(s: Sketch, hf: nat -> Word, val: Word)
    requires Valid(s) && s.table.np == 1 && s.table.nh == 1 && hf(val) == 1
    ensures EstCount(s, hf, val) == -s.table.core[1]
  {
    OneRowOfTwoHashes(s, hf, val);
    var v := Readings(s.table, RowHashes(s, hf, val));
    assert Shr(1, 1) == 0;
    assert v[0] == -s.table.core[1];
    SortShort(v);
  }

  /** One row of two zeroed registers and an item hashing to 1: the written `addh`
      moves register 0 while `est_count` reads register 1, so the item still
      estimates 0 after being added once, where the corrected `addh` gives 1. */
  lemma {:induction false} AddhAsWrittenMissesRow(s: Sketch, hf: nat -> Word, val: Word)
    requires Valid(s) && s.table.np == 1 && s.table.nh == 1 && hf(val) == 1
    requires s.table.core[0] == 0 && s.table.core[1] == 0
    ensures EstCount(s, hf, val) == 0
    ensures EstCount(AddhAsWritten(s, hf, val), hf, val) == 0
    ensures EstCount(Addh(s, hf, val), hf, val) == 1
  {
    OneRowOfTwoUntouched(s, hf, val);
    OneRowOfTwoReading(s, hf, val);
    OneRowOfTwoReading(AddhAsWritten(s, hf, val), hf, val);
    AddhCountsOne(s, hf, val);
  }

  /** One register and an item hashing to 0: both first loops use the hash 0, whose
      sign is -1, so `add` leaves -1 in the register and returns it. */
  lemma {:induction false} OneRegisterHashes(s: Sketch, hf: nat -> Word, val: Word)
    requires Valid(s) && s.table.np == 0 && s.table.nh == 1 && hf(val) == 0
    ensures RowHashesAsWritten(s, hf, val) == RowHashes(s, hf, val)
    ensures RowHashes(s, hf, val)[0] == 0
  {
    assert PerHash(0) == 64;
    assert Shr(0, 1) == 0 && Shr(0, 0) == 0;
    assert RowHashesAsWritten(s, hf, val)[0] == RowHashes(s, hf, val)[0];
  }

  lemma {:induction false} OneRegisterReturns(s: Sketch, hf: nat -> Word, val: Word)
    requires Valid(s) && s.table.np == 0 && s.table.nh == 1 && hf(val) == 0
    requires s.table.core[0] == 0
    ensures RowHashesAsWritten(s, hf, val) == RowHashes(s, hf, val)
    ensures var a := Apply(s.table, RowHashes(s, hf, val), 1); |a.1| == 1 && a.1[0] == -1
  {
    OneRegisterHashes(s, hf, val);
    var hs := RowHashes(s, hf, val);
    assert LowBits(0, 0) == 0 && Shr(0, 0) == 0;
    assert Index(s.table, 0, 0) == 0 && Sign(s.table, 0) == -1;
    ApplyReturns(s.table, hs, 1);
    ApplyAt(s.table, hs, 1, 0);
  }

  /** One zeroed register and an item hashing to 0 (so its sign is -1): the written
      `addh_val` returns -1 while the item's estimate is then 1. */
  lemma {:induction false} AddhValAsWrittenReturnsRaw(s: Sketch, hf: nat -> Word, val: Word)
    requires Valid(s) && s.table.np == 0 && s.table.nh == 1 && hf(val) == 0
    requires s.table.core[0] == 0
    ensures AddhValAsWritten(s, hf, val).1 == -1
    ensures EstCount(AddhValAsWritten(s, hf, val).0, hf, val) == 1
  {
    OneRegisterReturns(s, hf, val);
    var hs := RowHashes(s, hf, val);
    SortShort(Apply(s.table, hs, 1).1);
    var v := Readings(s.table, hs);
    assert v[0] == 0;
    SortShort(v);
    AddhCountsOne(s, hf, val);
  }
}
