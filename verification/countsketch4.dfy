/** `cs4wbase_t`: a count sketch whose row `i` hashes the item with the `i`-th member
    of a family of 4-wise independent hashes, so no bits are shared between rows. */
module CountSketch4 {
  import opened Arith
  import opened Sorting
  import opened Counters

  /** The register table and the seed the hash family was built from.  The family
      itself is a parameter `hf(seed, val, row)` of the operations below. */
  datatype Sketch = Sketch(table: Table, seed: nat)

  predicate Valid(s: Sketch)
  {
    Counters.Valid(s.table) && s.table.np < 64 && s.table.nh >= 1
  }

  /** The constructor: `nh << np` zeroed registers and the hash family seeded with
      `seedseed`. */
  function Create(np: nat, nh: nat, seedseed: nat): (s: Sketch)
    requires np < 64 && nh >= 1
    ensures Valid(s) && s.table == Zeroed(np, nh) && s.seed == seedseed
  {
    Sketch(Zeroed(np, nh), seedseed)
  }

  /** Row `r` uses `hf_(val, r)`, in the update loops and in `est_count` alike. */
  function RowHashes(s: Sketch, hf: (nat, Word, nat) -> Word, val: Word): (hs: seq<nat>)
    requires Valid(s)
    ensures |hs| == s.table.nh
    ensures forall r :: 0 <= r < s.table.nh ==> hs[r] == hf(s.seed, val, r)
  {
    seq(s.table.nh, r requires 0 <= r < s.table.nh => hf(s.seed, val, r))
  }

  /** `addh(val)`: `add(val, i)` on every row. */
  function Addh(s: Sketch, hf: (nat, Word, nat) -> Word, val: Word): (r: Sketch)
    requires Valid(s)
    ensures Valid(r) && r.seed == s.seed && SameShape(s.table, r.table)
    ensures Readings(r.table, RowHashes(s, hf, val)) == Shift(Readings(s.table, RowHashes(s, hf, val)), 1)
  {
    ApplyShiftsReadings(s.table, RowHashes(s, hf, val), 1);
    s.(table := Apply(s.table, RowHashes(s, hf, val), 1).0)
  }

  /** `subh(val)`: `sub(val, i)` on every row. */
  function Subh(s: Sketch, hf: (nat, Word, nat) -> Word, val: Word): (r: Sketch)
    requires Valid(s)
    ensures Valid(r) && r.seed == s.seed && SameShape(s.table, r.table)
    ensures Readings(r.table, RowHashes(s, hf, val)) == Shift(Readings(s.table, RowHashes(s, hf, val)), -1)
  {
    ApplyShiftsReadings(s.table, RowHashes(s, hf, val), -1);
    s.(table := Apply(s.table, RowHashes(s, hf, val), -1).0)
  }

  /** `est_count(val)` as intended: the median of the rows' signed readings.  The
      code returns the lower middle reading instead (`EstCountAsWritten`). */
  function EstCount(s: Sketch, hf: (nat, Word, nat) -> Word, val: Word): (e: int)
    requires Valid(s)
    ensures exists r :: 0 <= r < s.table.nh && Readings(s.table, RowHashes(s, hf, val))[r] <= e
    ensures exists r :: 0 <= r < s.table.nh && e <= Readings(s.table, RowHashes(s, hf, val))[r]
  {
    Estimate(s.table, RowHashes(s, hf, val))
  }

  /** `est_count(val)` as written: the lower middle reading. */
  function EstCountAsWritten(s: Sketch, hf: (nat, Word, nat) -> Word, val: Word): (e: int)
    requires Valid(s)
    ensures e == InsertionSort(Readings(s.table, RowHashes(s, hf, val)))[(s.table.nh - 1) / 2]
    ensures s.table.nh % 2 == 1 ==> e == EstCount(s, hf, val)
  {
    EstimateAsWrittenOddIsMedian(s.table, RowHashes(s, hf, val));
    EstimateAsWritten(s.table, RowHashes(s, hf, val))
  }

  /** `addh_val(val)` as intended: returning the item's new estimate. */
  function AddhVal(s: Sketch, hf: (nat, Word, nat) -> Word, val: Word): (r: (Sketch, int))
    requires Valid(s)
    ensures Valid(r.0) && r.0 == Addh(s, hf, val)
    ensures r.1 == EstCount(s, hf, val) + 1
  {
    var a := ApplyVal(s.table, RowHashes(s, hf, val), 1);
    (s.(table := a.0), a.1)
  }

  /** `subh_val(val)` as intended: returning the item's new estimate. */
  function SubhVal(s: Sketch, hf: (nat, Word, nat) -> Word, val: Word): (r: (Sketch, int))
    requires Valid(s)
    ensures Valid(r.0) && r.0 == Subh(s, hf, val)
    ensures r.1 == EstCount(s, hf, val) - 1
  {
    var a := ApplyVal(s.table, RowHashes(s, hf, val), -1);
    (s.(table := a.0), a.1)
  }

  /** `addh_val(val)` as written: the median of the raw register values. */
  function AddhValAsWritten(s: Sketch, hf: (nat, Word, nat) -> Word, val: Word): (r: (Sketch, int))
    requires Valid(s)
    ensures Valid(r.0) && r.0 == Addh(s, hf, val)
    ensures r.1 == Median(InsertionSort(Raw(r.0.table, RowHashes(s, hf, val))))
  {
    var a := ApplyValAsWritten(s.table, RowHashes(s, hf, val), 1);
    (s.(table := a.0), a.1)
  }

  /** `subh_val(val)` as written: the median of the raw register values. */
  function SubhValAsWritten(s: Sketch, hf: (nat, Word, nat) -> Word, val: Word): (r: (Sketch, int))
    requires Valid(s)
    ensures Valid(r.0) && r.0 == Subh(s, hf, val)
    ensures r.1 == Median(InsertionSort(Raw(r.0.table, RowHashes(s, hf, val))))
  {
    var a := ApplyValAsWritten(s.table, RowHashes(s, hf, val), -1);
    (s.(table := a.0), a.1)
  }

  /** `operator+=`: register-wise sum.  The seeds are not compared. */
  function Merge(s: Sketch, o: Sketch): (r: Sketch)
    requires Valid(s) && |o.table.core| >= |s.table.core|
    ensures Valid(r) && r.seed == s.seed && SameShape(s.table, r.table)
    ensures forall i :: 0 <= i < |s.table.core| ==> r.table.core[i] == s.table.core[i] + o.table.core[i]
  {
    s.(table := Counters.Merge(s.table, o.table))
  }

  /* ---------------- properties ---------------- */

  /** A new sketch estimates 0 for every item. */
  lemma {:induction false} CreateEstimatesZero(np: nat, nh: nat, seedseed: nat, hf: (nat, Word, nat) -> Word, val: Word)
    requires np < 64 && nh >= 1
    ensures EstCount(Create(np, nh, seedseed), hf, val) == 0
  {
    ZeroedEstimatesZero(np, nh, RowHashes(Create(np, nh, seedseed), hf, val));
  }

  /** `subh` undoes `addh` of the same item. */
  lemma {:induction false} AddhThenSubh(s: Sketch, hf: (nat, Word, nat) -> Word, val: Word)
    requires Valid(s)
    ensures Subh(Addh(s, hf, val), hf, val) == s
  {
    var t := Addh(s, hf, val);
    assert RowHashes(t, hf, val) == RowHashes(s, hf, val);
    ApplyInverse(s.table, RowHashes(s, hf, val), 1);
  }

  /** `addh` undoes `subh` of the same item. */
  lemma {:induction false} SubhThenAddh(s: Sketch, hf: (nat, Word, nat) -> Word, val: Word)
    requires Valid(s)
    ensures Addh(Subh(s, hf, val), hf, val) == s
  {
    var t := Subh(s, hf, val);
    assert RowHashes(t, hf, val) == RowHashes(s, hf, val);
    ApplyInverse(s.table, RowHashes(s, hf, val), -1);
  }

  /** `addh` raises each of the item's row readings, and so its estimate, by exactly
      one. */
  lemma {:induction false} AddhCountsOne(s: Sketch, hf: (nat, Word, nat) -> Word, val: Word)
    requires Valid(s)
    ensures Readings(Addh(s, hf, val).table, RowHashes(s, hf, val)) == Shift(Readings(s.table, RowHashes(s, hf, val)), 1)
    ensures EstCount(Addh(s, hf, val), hf, val) == EstCount(s, hf, val) + 1
  {
    var t := Addh(s, hf, val);
    assert RowHashes(t, hf, val) == RowHashes(s, hf, val);
    ApplyShiftsReadings(s.table, RowHashes(s, hf, val), 1);
    ApplyMovesEstimate(s.table, RowHashes(s, hf, val), 1);
  }

  /** `subh` lowers the item's estimate by exactly one. */
  lemma {:induction false} SubhUncountsOne(s: Sketch, hf: (nat, Word, nat) -> Word, val: Word)
    requires Valid(s)
    ensures EstCount(Subh(s, hf, val), hf, val) == EstCount(s, hf, val) - 1
  {
    var t := Subh(s, hf, val);
    assert RowHashes(t, hf, val) == RowHashes(s, hf, val);
    ApplyMovesEstimate(s.table, RowHashes(s, hf, val), -1);
  }

  /** `addh_val` and `subh_val` return the estimate `est_count` then gives. */
  lemma {:induction false} ValIsNewEstimate(s: Sketch, hf: (nat, Word, nat) -> Word, val: Word)
    requires Valid(s)
    ensures AddhVal(s, hf, val).1 == EstCount(AddhVal(s, hf, val).0, hf, val)
    ensures SubhVal(s, hf, val).1 == EstCount(SubhVal(s, hf, val).0, hf, val)
  {
    AddhCountsOne(s, hf, val);
    SubhUncountsOne(s, hf, val);
  }

  /** With an odd number of rows the written `est_count` is the median. */
  lemma {:induction false} EstCountAsWrittenOddAgrees(s: Sketch, hf: (nat, Word, nat) -> Word, val: Word)
    requires Valid(s) && s.table.nh % 2 == 1
    ensures EstCountAsWritten(s, hf, val) == EstCount(s, hf, val)
  {
    EstimateAsWrittenOddIsMedian(s.table, RowHashes(s, hf, val));
  }

  /** Merged readings are sums, for sketches of the same shape and seed. */
  lemma {:induction false} MergeAddsReadings(s: Sketch, o: Sketch, hf: (nat, Word, nat) -> Word, val: Word)
    requires Valid(s) && Valid(o) && SameShape(s.table, o.table) && s.seed == o.seed
    ensures var hs := RowHashes(s, hf, val);
      forall r :: 0 <= r < s.table.nh ==>
        Readings(Merge(s, o).table, hs)[r] == Readings(s.table, hs)[r] + Readings(o.table, hs)[r]
  {
    Counters.MergeAddsReadings(s.table, o.table, RowHashes(s, hf, val));
  }

  /** Adding an item before merging is adding it to the merge. */
  lemma {:induction false} MergeAfterAddh(s: Sketch, o: Sketch, hf: (nat, Word, nat) -> Word, val: Word)
    requires Valid(s) && Valid(o) && SameShape(s.table, o.table)
    ensures Merge(Addh(s, hf, val), o) == Addh(Merge(s, o), hf, val)
  {
    var m := Merge(s, o);
    assert RowHashes(m, hf, val) == RowHashes(s, hf, val);
    MergeAfterApply(s.table, o.table, RowHashes(s, hf, val), 1);
  }

  /** Merging a new sketch changes nothing. */
  lemma {:induction false} MergeCreatedIsIdentity(s: Sketch, seedseed: nat)
    requires Valid(s)
    ensures Merge(s, Create(s.table.np, s.table.nh, seedseed)) == s
  {
    MergeZeroedIsIdentity(s.table);
  }

  /* ---------------- the written code, on small inputs ---------------- */

  /** Two rows of one register holding 0 and -2, and an item whose row hashes are 1
      and 0: its readings are 0 (register 0, sign +1) and 2 (register 1, sign -1). */
  lemma {:induction false} TwoRowsReadings(s: Sketch, hf: (nat, Word, nat) -> Word, val: Word)
    requires Valid(s) && s.table.np == 0 && s.table.nh == 2
    requires hf(s.seed, val, 0) == 1 && hf(s.seed, val, 1) == 0
    requires s.table.core[0] == 0 && s.table.core[1] == -2
    ensures Readings(s.table, RowHashes(s, hf, val))[0] == 0
    ensures Readings(s.table, RowHashes(s, hf, val))[1] == 2
  {
    assert LowBits(1, 0) == 0 && LowBits(0, 0) == 0;
    assert Index(s.table, 1, 0) == 0 && Index(s.table, 0, 1) == 1;
    assert Shr(1, 0) == 1 && Shr(0, 0) == 0;
  }

  /** Two rows reading 0 and 2: the median is 1, the written `est_count` returns 0. */
  lemma {:induction false} EstCountAsWrittenTakesLower(s: Sketch, hf: (nat, Word, nat) -> Word, val: Word)
    requires Valid(s) && s.table.np == 0 && s.table.nh == 2
    requires hf(s.seed, val, 0) == 1 && hf(s.seed, val, 1) == 0
    requires s.table.core[0] == 0 && s.table.core[1] == -2
    ensures EstCountAsWritten(s, hf, val) == 0 && EstCount(s, hf, val) == 1
  {
    TwoRowsReadings(s, hf, val);
    var v := Readings(s.table, RowHashes(s, hf, val));
    SortShort(v);
    assert EstCount(s, hf, val) == Median(v) == (v[1] + v[0]) / 2;
    assert EstCountAsWritten(s, hf, val) == (v[0] + v[0]) / 2;
  }

  /** One register holding 0 and an item hashing to 0, whose sign is -1: `add` leaves
      -1 in the register and returns it. */
  lemma {:induction false} OneRegisterReturns(s: Sketch, hf: (nat, Word, nat) -> Word, val: Word)
    requires Valid(s) && s.table.np == 0 && s.table.nh == 1 && hf(s.seed, val, 0) == 0
    requires s.table.core[0] == 0
    ensures var a := Apply(s.table, RowHashes(s, hf, val), 1); |a.1| == 1 && a.1[0] == -1
  {
    var hs := RowHashes(s, hf, val);
    assert LowBits(0, 0) == 0 && Shr(0, 0) == 0;
    assert Index(s.table, 0, 0) == 0 && Sign(s.table, 0) == -1;
    ApplyReturns(s.table, hs, 1);
    ApplyAt(s.table, hs, 1, 0);
  }

  /** One zeroed register and an item hashing to 0: the written `addh_val` returns -1
      while the item's estimate is then 1. */
  lemma {:induction false} AddhValAsWrittenReturnsRaw(s: Sketch, hf: (nat, Word, nat) -> Word, val: Word)
    requires Valid(s) && s.table.np == 0 && s.table.nh == 1 && hf(s.seed, val, 0) == 0
    requires s.table.core[0] == 0
    ensures AddhValAsWritten(s, hf, val).1 == -1
    ensures EstCount(AddhValAsWritten(s, hf, val).0, hf, val) == 1
  {
    OneRegisterReturns(s, hf, val);
    var hs := RowHashes(s, hf, val);
    SortShort(Apply(s.table, hs, 1).1);
    var v := Readings(s.table, hs);
    assert Shr(0, 0) == 0 && LowBits(0, 0) == 0;
    assert v[0] == 0;
    SortShort(v);
    AddhCountsOne(s, hf, val);
  }
}
