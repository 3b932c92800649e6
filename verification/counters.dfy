/** The signed register table shared by both count sketches: `nh` rows of `2^np`
    registers, one register per row per item, moved up or down by a per-row sign. */
module Counters {
  import opened Arith
  import opened Sorting

  /** `core_` with its shape: row `r` owns registers `[r * 2^np, (r + 1) * 2^np)`. */
  datatype Table = Table(np: nat, nh: nat, core: seq<int>)

  predicate Valid(t: Table)
  {
    |t.core| == t.nh * Pow2(t.np)
  }

  predicate SameShape(t: Table, u: Table)
  {
    u.np == t.np && u.nh == t.nh && |u.core| == |t.core|
  }

  /** The table a constructor allocates: `nh << np` registers, all 0. */
  function Zeroed(np: nat, nh: nat): (t: Table)
    ensures Valid(t) && t.np == np && t.nh == nh
    ensures forall i :: 0 <= i < |t.core| ==> t.core[i] == 0
  {
    Table(np, nh, seq(nh * Pow2(np), _ => 0))
  }

  /** `index(hv, subidx)`: the low `np` bits of the row hash pick a register inside
      row `row`'s block. */
  function Index(t: Table, hv: nat, row: nat): (i: nat)
    requires Valid(t) && row < t.nh
    ensures row * Pow2(t.np) <= i < (row + 1) * Pow2(t.np) <= |t.core|
  {
    SlotInTable(LowBits(hv, t.np), row, Pow2(t.np), t.nh);
    LowBits(hv, t.np) + row * Pow2(t.np)
  }

  /** Two different rows never pick the same register. */
  lemma {:induction false} RowsApart(t: Table, h1: nat, r1: nat, h2: nat, r2: nat)
    requires Valid(t) && r1 < r2 < t.nh
    ensures Index(t, h1, r1) < Index(t, h2, r2)
  {
    MulMonotone(r1 + 1, r2, Pow2(t.np));
  }

  /** `sign(hv)`: +1 when bit `np` of the row hash is set, -1 otherwise. */
  function Sign(t: Table, hv: nat): (s: int)
    ensures s == 1 || s == -1
    ensures s == 1 <==> Shr(hv, t.np) % 2 == 1
  {
    if Shr(hv, t.np) % 2 == 1 then 1 else -1
  }

  /** `add(hv, row)` (`d == 1`) and `sub(hv, row)` (`d == -1`): the register the row
      hash picks moves by `d` times the sign; the call returns its new value. */
  function Bump(t: Table, hv: nat, row: nat, d: int): (r: (Table, int))
    requires Valid(t) && row < t.nh
    ensures Valid(r.0) && SameShape(t, r.0)
    ensures r.1 == r.0.core[Index(t, hv, row)]
    ensures forall j :: 0 <= j < |t.core| && j != Index(t, hv, row) ==> r.0.core[j] == t.core[j]
  {
    var i := Index(t, hv, row);
    var c := t.core[i] + d * Sign(t, hv);
    (t.(core := t.core[i := c]), c)
  }

  /** `sub` undoes `add` and `add` undoes `sub`. */
  lemma {:induction false} BumpInverse(t: Table, hv: nat, row: nat, d: int)
    requires Valid(t) && row < t.nh
    ensures Bump(Bump(t, hv, row, d).0, hv, row, -d).0 == t
  {
    var i := Index(t, hv, row);
    var u := Bump(t, hv, row, d).0;
    var w := Bump(u, hv, row, -d).0;
    assert w.core[i] == t.core[i];
    assert w.core == t.core;
  }

  /** The first `n` rows of `addh` (`d == 1`) or `subh` (`d == -1`), row `r` moved
      at the register `hs[r]` picks, in order; with the values the calls returned. */
  function Apply(t: Table, hs: seq<nat>, d: int): (r: (Table, seq<int>))
    requires Valid(t) && |hs| <= t.nh
    ensures Valid(r.0) && SameShape(t, r.0) && |r.1| == |hs|
    decreases |hs|
  {
    if |hs| == 0 then (t, [])
    else
      var p := Apply(t, hs[..|hs| - 1], d);
      var b := Bump(p.0, hs[|hs| - 1], |hs| - 1, d);
      (b.0, p.1 + [b.1])
  }

  /** Register `i` is the one some row of `hs` picks. */
  predicate Picked(t: Table, hs: seq<nat>, i: nat)
    requires Valid(t) && |hs| <= t.nh
  {
    exists r :: 0 <= r < |hs| && Index(t, hs[r], r) == i
  }

  /** Registers past the first `|hs|` rows' blocks are untouched. */
  lemma {:induction false} ApplyAbove(t: Table, hs: seq<nat>, d: int, j: nat)
    requires Valid(t) && |hs| <= t.nh && |hs| * Pow2(t.np) <= j < |t.core|
    ensures Apply(t, hs, d).0.core[j] == t.core[j]
    decreases |hs|
  {
    if |hs| > 0 {
      var n := |hs|;
      MulMonotone(n - 1, n, Pow2(t.np));
      ApplyAbove(t, hs[..n - 1], d, j);
    }
  }

  /** A register no row picks keeps its value. */
  lemma {:induction false} ApplyOff(t: Table, hs: seq<nat>, d: int, j: nat)
    requires Valid(t) && |hs| <= t.nh && j < |t.core| && !Picked(t, hs, j)
    ensures Apply(t, hs, d).0.core[j] == t.core[j]
    decreases |hs|
  {
    if |hs| > 0 {
      var n := |hs|;
      var p := hs[..n - 1];
      assert Index(t, hs[n - 1], n - 1) != j;
      assert !Picked(t, p, j) by {
        forall r | 0 <= r < n - 1
          ensures Index(t, p[r], r) != j
        {
          assert p[r] == hs[r];
        }
      }
      ApplyOff(t, p, d, j);
    }
  }

  /** Row `r`'s register moves by `d` times the row's sign. */
  lemma {:induction false} ApplyAt(t: Table, hs: seq<nat>, d: int, r: nat)
    requires Valid(t) && r < |hs| <= t.nh
    ensures Apply(t, hs, d).0.core[Index(t, hs[r], r)] == t.core[Index(t, hs[r], r)] + d * Sign(t, hs[r])
    decreases |hs|
  {
    var n := |hs|;
    var p := hs[..n - 1];
    if r == n - 1 {
      ApplyAbove(t, p, d, Index(t, hs[r], r));
    } else {
      assert p[r] == hs[r];
      RowsApart(t, hs[r], r, hs[n - 1], n - 1);
      ApplyAt(t, p, d, r);
    }
  }

  /** The values `add`/`sub` returned are the registers' final values. */
  lemma {:induction false} ApplyReturns(t: Table, hs: seq<nat>, d: int)
    requires Valid(t) && |hs| <= t.nh
    ensures forall r :: 0 <= r < |hs| ==> Apply(t, hs, d).1[r] == Apply(t, hs, d).0.core[Index(t, hs[r], r)]
    decreases |hs|
  {
    if |hs| > 0 {
      var n := |hs|;
      var p := hs[..n - 1];
      var a := Apply(t, p, d);
      var b := Bump(a.0, hs[n - 1], n - 1, d);
      ApplyReturns(t, p, d);
      var res := Apply(t, hs, d);
      assert res.0 == b.0 && res.1 == a.1 + [b.1];
      forall r | 0 <= r < n
        ensures res.1[r] == res.0.core[Index(t, hs[r], r)]
      {
        if r < n - 1 {
          assert p[r] == hs[r] && res.1[r] == a.1[r];
          RowsApart(t, hs[r], r, hs[n - 1], n - 1);
        } else {
          assert res.1[r] == b.1;
        }
      }
    }
  }

  lemma {:induction false} Cancel(x: int, d: int, s: int)
    ensures x + d * s + (-d) * s == x
  {
  }

  /** Row `r`'s register after an update and its reverse: back to where it was. */
  lemma {:induction false} ApplyInverseAtRow(t: Table, hs: seq<nat>, d: int, r: nat)
    requires Valid(t) && r < |hs| <= t.nh
    ensures Apply(Apply(t, hs, d).0, hs, -d).0.core[Index(t, hs[r], r)] == t.core[Index(t, hs[r], r)]
  {
    var u := Apply(t, hs, d).0;
    var w := Apply(u, hs, -d).0;
    var j, sg := Index(t, hs[r], r), Sign(t, hs[r]);
    ApplyAt(t, hs, d, r);
    assert Index(u, hs[r], r) == j && Sign(u, hs[r]) == sg;
    ApplyAt(u, hs, -d, r);
    Cancel(t.core[j], d, sg);
  }

  /** Any register after an update and its reverse: back to where it was. */
  lemma {:induction false} ApplyInverseAt(t: Table, hs: seq<nat>, d: int, j: nat)
    requires Valid(t) && |hs| <= t.nh && j < |t.core|
    ensures Apply(Apply(t, hs, d).0, hs, -d).0.core[j] == t.core[j]
  {
    var u := Apply(t, hs, d).0;
    if Picked(t, hs, j) {
      var r :| 0 <= r < |hs| && Index(t, hs[r], r) == j;
      ApplyInverseAtRow(t, hs, d, r);
    } else {
      ApplyOff(t, hs, d, j);
      assert !Picked(u, hs, j);
      ApplyOff(u, hs, -d, j);
    }
  }

  /** `subh` after `addh` of the same item (or the other way round) restores every
      register. */
  lemma {:induction false} ApplyInverse(t: Table, hs: seq<nat>, d: int)
    requires Valid(t) && |hs| <= t.nh
    ensures Apply(Apply(t, hs, d).0, hs, -d).0 == t
  {
    var w := Apply(Apply(t, hs, d).0, hs, -d).0;
    forall j | 0 <= j < |t.core|
      ensures w.core[j] == t.core[j]
    {
      ApplyInverseAt(t, hs, d, j);
    }
    assert w.core == t.core;
  }

  /** `at_pos(v, row) * sign(v)`: row `row`'s signed reading of the register `hv`
      picks. */
  function Reading(t: Table, hv: nat, row: nat): int
    requires Valid(t) && row < t.nh
  {
    t.core[Index(t, hv, row)] * Sign(t, hv)
  }

  /** The readings of the rows whose hashes are `hs`. */
  function Readings(t: Table, hs: seq<nat>): (v: seq<int>)
    requires Valid(t) && |hs| <= t.nh
    ensures |v| == |hs|
  {
    seq(|hs|, r requires 0 <= r < |hs| => Reading(t, hs[r], r))
  }

  /** Moving a register by `d` times its sign moves its signed reading by `d`. */
  lemma {:induction false} SignedStep(c: int, s: int, d: int)
    requires s == 1 || s == -1
    ensures (c + d * s) * s == c * s + d
  {
  }

  /** `addh` raises every row's reading of the item by one and `subh` lowers it by
      one. */
  lemma {:induction false} ApplyShiftsReadings(t: Table, hs: seq<nat>, d: int)
    requires Valid(t) && |hs| <= t.nh
    ensures Readings(Apply(t, hs, d).0, hs) == Shift(Readings(t, hs), d)
  {
    var u := Apply(t, hs, d).0;
    var a, b := Readings(u, hs), Readings(t, hs);
    forall r | 0 <= r < |hs|
      ensures a[r] == b[r] + d
    {
      ApplyShiftsReading(t, hs, d, r);
    }
    ShiftPointwise(a, b, d);
  }

  /** Row `r`'s reading after `Apply` is its reading before, moved by `d`. */
  lemma {:induction false} ApplyShiftsReading(t: Table, hs: seq<nat>, d: int, r: nat)
    requires Valid(t) && r < |hs| <= t.nh
    ensures Reading(Apply(t, hs, d).0, hs[r], r) == Reading(t, hs[r], r) + d
  {
    var u := Apply(t, hs, d).0;
    var i := Index(t, hs[r], r);
    ApplyAt(t, hs, d, r);
    assert Index(u, hs[r], r) == i;
    SignedStep(t.core[i], Sign(t, hs[r]), d);
  }

  /** The median of the sorted readings: what `addh_val`/`subh_val` compute from the
      sorted values, and what `est_count` evidently means to return. */
  function Estimate(t: Table, hs: seq<nat>): (e: int)
    requires Valid(t) && |hs| == t.nh >= 1
    ensures exists r :: 0 <= r < |hs| && Readings(t, hs)[r] <= e
    ensures exists r :: 0 <= r < |hs| && e <= Readings(t, hs)[r]
  {
    MedianOfSortInRange(Readings(t, hs));
    Median(InsertionSort(Readings(t, hs)))
  }

  /** `est_count` as written: with more than one row, the lower middle reading doubled
      and halved; with one row, that row's reading.  Either way it is the lower
      middle of the sorted readings, and so one of the readings. */
  function EstimateAsWritten(t: Table, hs: seq<nat>): (e: int)
    requires Valid(t) && |hs| == t.nh >= 1
    ensures e == InsertionSort(Readings(t, hs))[(t.nh - 1) / 2]
    ensures exists r :: 0 <= r < |hs| && e == Readings(t, hs)[r]
  {
    var v := Readings(t, hs);
    var p := InsertionSort(v);
    InsertionSortPermutes(v);
    assert p[(t.nh - 1) / 2] in multiset(v);
    if t.nh > 1 then
      var start := p[(t.nh - 1) / 2];
      (start + start) / 2
    else
      assert v == [v[0]];
      assert p == Insert(v[0], InsertionSort([]));
      v[0]
  }

  /** With an odd number of rows the written estimate is the median. */
  lemma {:induction false} EstimateAsWrittenOddIsMedian(t: Table, hs: seq<nat>)
    requires Valid(t) && |hs| == t.nh >= 1
    ensures t.nh % 2 == 1 ==> EstimateAsWritten(t, hs) == Estimate(t, hs)
  {
  }

  /** With every register moved by `addh`, the estimate rises by exactly one (and
      falls by one after `subh`). */
  lemma {:induction false} ApplyMovesEstimate(t: Table, hs: seq<nat>, d: int)
    requires Valid(t) && |hs| == t.nh >= 1
    ensures Estimate(Apply(t, hs, d).0, hs) == Estimate(t, hs) + d
  {
    var v := Readings(t, hs);
    ApplyShiftsReadings(t, hs, d);
    InsertionSortShift(v, d);
    MedianShift(InsertionSort(v), d);
  }

  /** The raw values of the registers the rows whose hashes are `hs` pick, without
      their signs. */
  function Raw(t: Table, hs: seq<nat>): (v: seq<int>)
    requires Valid(t) && |hs| <= t.nh
    ensures |v| == |hs|
  {
    seq(|hs|, r requires 0 <= r < |hs| => t.core[Index(t, hs[r], r)])
  }

  /** `addh_val`/`subh_val` as written: the median of the raw register values the
      calls returned, before any sign is applied. */
  function ApplyValAsWritten(t: Table, hs: seq<nat>, d: int): (r: (Table, int))
    requires Valid(t) && |hs| == t.nh >= 1
    ensures Valid(r.0) && r.0 == Apply(t, hs, d).0
    ensures r.1 == Median(InsertionSort(Raw(r.0, hs)))
  {
    var a := Apply(t, hs, d);
    ApplyReturns(t, hs, d);
    assert a.1 == Raw(a.0, hs);
    (a.0, Median(InsertionSort(a.1)))
  }

  /** `addh_val`/`subh_val` returning what they evidently mean to: the item's estimate
      after the update. */
  function ApplyVal(t: Table, hs: seq<nat>, d: int): (r: (Table, int))
    requires Valid(t) && |hs| == t.nh >= 1
    ensures Valid(r.0) && r.0 == Apply(t, hs, d).0
    ensures r.1 == Estimate(t, hs) + d
  {
    var u := Apply(t, hs, d).0;
    ApplyMovesEstimate(t, hs, d);
    (u, Estimate(u, hs))
  }

  /** `operator+=`: register-wise sum with a table at least as long. */
  function Merge(t: Table, o: Table): (r: Table)
    requires Valid(t) && |o.core| >= |t.core|
    ensures Valid(r) && SameShape(t, r)
    ensures forall i :: 0 <= i < |t.core| ==> r.core[i] == t.core[i] + o.core[i]
  {
    t.(core := seq(|t.core|, i requires 0 <= i < |t.core| => t.core[i] + o.core[i]))
  }

  /** Merged readings are sums: a merged table reads, for every row, the sum of what
      the two inputs read. */
  lemma {:induction false} MergeAddsReadings(t: Table, o: Table, hs: seq<nat>)
    requires Valid(t) && Valid(o) && SameShape(t, o) && |hs| <= t.nh
    ensures forall r :: 0 <= r < |hs| ==>
      Readings(Merge(t, o), hs)[r] == Readings(t, hs)[r] + Readings(o, hs)[r]
  {
    var m := Merge(t, o);
    forall r | 0 <= r < |hs|
      ensures Readings(m, hs)[r] == Readings(t, hs)[r] + Readings(o, hs)[r]
    {
      var i := Index(t, hs[r], r);
      assert Index(m, hs[r], r) == i && Index(o, hs[r], r) == i;
      assert (t.core[i] + o.core[i]) * Sign(t, hs[r])
          == t.core[i] * Sign(t, hs[r]) + o.core[i] * Sign(t, hs[r]);
    }
  }

  /** Adding an item to one side before merging is adding it to the merge. */
  lemma {:induction false} MergeAfterApply(t: Table, o: Table, hs: seq<nat>, d: int)
    requires Valid(t) && Valid(o) && SameShape(t, o) && |hs| <= t.nh
    ensures Merge(Apply(t, hs, d).0, o) == Apply(Merge(t, o), hs, d).0
  {
    var m := Merge(t, o);
    var a, b := Merge(Apply(t, hs, d).0, o), Apply(m, hs, d).0;
    forall j | 0 <= j < |t.core|
      ensures a.core[j] == b.core[j]
    {
      if Picked(t, hs, j) {
        var r :| 0 <= r < |hs| && Index(t, hs[r], r) == j;
        ApplyAt(t, hs, d, r);
        assert Index(m, hs[r], r) == j;
        ApplyAt(m, hs, d, r);
      } else {
        ApplyOff(t, hs, d, j);
        assert !Picked(m, hs, j);
        ApplyOff(m, hs, d, j);
      }
    }
    assert a.core == b.core;
  }

  /** Merging with an all-zero table of the same shape changes nothing. */
  lemma {:induction false} MergeZeroedIsIdentity(t: Table)
    requires Valid(t)
    ensures Merge(t, Zeroed(t.np, t.nh)) == t
  {
    assert Merge(t, Zeroed(t.np, t.nh)).core == t.core;
  }

  /** Merging commutes. */
  lemma {:induction false} MergeCommutes(t: Table, o: Table)
    requires Valid(t) && Valid(o) && SameShape(t, o)
    ensures Merge(t, o).core == Merge(o, t).core
  {
  }

  /** A freshly zeroed table estimates 0 for every item. */
  lemma {:induction false} ZeroedEstimatesZero(np: nat, nh: nat, hs: seq<nat>)
    requires |hs| == nh >= 1
    ensures Estimate(Zeroed(np, nh), hs) == 0
  {
    var v := Readings(Zeroed(np, nh), hs);
    MedianOfConstant(v, 0);
  }
}
