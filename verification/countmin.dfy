/** The Count-Min engine `ccmbase_t` of ccm.h on its scalar code path: a table of
    `nhashes` rows of `2^l2sz` registers, each `nbits` wide, addressed by chunks
    of one 64-bit hash per seed.  The hash functor `hf_` is a parameter `hf`,
    and the policy's random generator a parameter `rng` (its `i`-th word). */
module CountMin {
  import opened Arith
  import opened Wrappers
  import opened Policy

  const SsizeMax: int := 0x7FFF_FFFF_FFFF_FFFF
  const SsizeMin: int := -0x8000_0000_0000_0000

  /** A `ccmbase_t`.  `nper` is `lut::nhashesper64bitword[l2sz]`, the number of
      `l2sz`-bit row indices carved from one 64-bit hash. */
  datatype Sketch = Sketch(
    policy: Kind,
    conservative: bool,
    nbits: nat,
    l2sz: nat,
    nhashes: nat,
    nper: nat,
    seeds: seq<Word>,
    data: seq<int>,
    cursor: Cursor)

  /** What the constructor establishes and every operation keeps.  Registers are
      read through 32-bit `unsigned` locals in `add`, so they are at most 32 bits
      wide, and at least one bit wide so that the 1 `PowerOfTwo` writes fits. */
  predicate Valid(s: Sketch)
  {
    && 1 <= s.nbits <= 32
    && s.nper >= 1 && s.nper * s.l2sz <= 64
    && |s.seeds| * s.nper >= s.nhashes
    && |s.data| == s.nhashes * Pow2(s.l2sz)
    && AllFit(s.data, s.nbits)
    && CursorValid(s.cursor)
  }

  /** `t` has `s`'s configuration: at most the registers and the random-bit cursor
      differ. */
  predicate SameConfig(s: Sketch, t: Sketch)
  {
    && t.policy == s.policy && t.conservative == s.conservative && t.nbits == s.nbits
    && t.l2sz == s.l2sz && t.nhashes == s.nhashes && t.nper == s.nper && t.seeds == s.seeds
  }

  /** Writing `v` to an `nbits`-bit register keeps its low `nbits` bits. */
  function Store(nbits: nat, v: int): (r: nat)
    ensures r < Pow2(nbits)
    ensures 0 <= v < Pow2(nbits) ==> r == v
    ensures v == -1 ==> r == Largest(nbits)
    ensures v == Pow2(nbits) ==> r == 0
  {
    LowBits(v, nbits)
  }

  /** Registers of at most 32 bits hold values below `2^32`. */
  lemma {:induction false} NarrowRegisters(nbits: nat)
    requires nbits <= 32
    ensures Pow2(nbits) <= 0x1_0000_0000
  {
    Pow2Monotone(nbits, 32);
    Pow2Of32();
  }

  /* ---------------- construction ---------------- */

  /** The constructor: negative arguments throw (checked in this order); otherwise
      seeds are drawn from `seedgen` (the `mt19937_64` stream) until they cover every
      row, the table is cleared, and the policy's cursor holds `rng`'s first word. */
  method Create(nbits: int, l2sz: int, nhashes: int, nper: nat, policy: Kind, conservative: bool,
                seedgen: nat -> Word, rng: nat -> Word)
    returns (r: Result<Sketch>)
    requires nper >= 1 && (l2sz >= 0 ==> nper * l2sz <= 64)
    requires nbits <= 32
    ensures nbits < 0 ==> r == Failure("Number of bits cannot be negative.")
    ensures nbits >= 0 && l2sz < 0 ==> r == Failure("l2sz cannot be negative.")
    ensures nbits >= 0 && l2sz >= 0 && nhashes < 0 ==> r == Failure("nhashes cannot be negative.")
    ensures nbits >= 0 && l2sz >= 0 && nhashes >= 0 ==>
      && r.Success?
      && r.value == Sketch(policy, conservative, nbits, l2sz, nhashes, nper,
                           r.value.seeds, r.value.data, NewCursor(rng))
      && (nbits >= 1 ==> Valid(r.value))
      && |r.value.data| == nhashes * Pow2(l2sz)
      && (forall i :: 0 <= i < |r.value.data| ==> r.value.data[i] == 0)
      && |r.value.seeds| * nper >= nhashes
      && (forall i :: 0 <= i < |r.value.seeds| ==> r.value.seeds[i] == seedgen(i))
      && (|r.value.seeds| == 0 || (|r.value.seeds| - 1) * nper < nhashes)
  {
    if nbits < 0 {
      return Failure("Number of bits cannot be negative.");
    }
    if l2sz < 0 {
      return Failure("l2sz cannot be negative.");
    }
    if nhashes < 0 {
      return Failure("nhashes cannot be negative.");
    }
    var seeds: seq<Word> := [];
    while |seeds| * nper < nhashes
      invariant forall i :: 0 <= i < |seeds| ==> seeds[i] == seedgen(i)
      invariant |seeds| == 0 || (|seeds| - 1) * nper < nhashes
      decreases nhashes - |seeds| * nper
    {
      assert (|seeds| + 1) * nper == |seeds| * nper + nper;
      seeds := seeds + [seedgen(|seeds|)];
    }
    var data := seq(nhashes * Pow2(l2sz), _ => 0);
    r := Success(Sketch(policy, conservative, nbits, l2sz, nhashes, nper, seeds, data, NewCursor(rng)));
  }

  /* ---------------- row indices ---------------- */

  /** The key hashed for seed `seed`: `val ^ seed`. */
  function SeededKey(val: Word, seed: Word): nat
  {
    Xor(val, seed)
  }

  /** The part of a sketch that decides where an item's registers are. */
  datatype Layout = Layout(l2sz: nat, nhashes: nat, nper: nat, seeds: seq<Word>)

  function Shape(s: Sketch): Layout
  {
    Layout(s.l2sz, s.nhashes, s.nper, s.seeds)
  }

  /** Every row's index can be carved from the hash of some seed. */
  predicate Addressable(shape: Layout)
  {
    shape.nper >= 1 && shape.nper * shape.l2sz <= 64 && |shape.seeds| * shape.nper >= shape.nhashes
  }

  /** The hash word that serves row `r`: `hash(val ^ seeds_[r / nper])`. */
  function RowHash(shape: Layout, hf: nat -> Word, val: Word, r: nat): Word
    requires Addressable(shape) && r < shape.nhashes
  {
    DivBelow(r, shape.nper, |shape.seeds|);
    hf(SeededKey(val, shape.seeds[r / shape.nper]))
  }

  /** `(hv >> (k * width)) & ((1ull << width) - 1)`: chunk `k` of `hv`, `width` bits
      wide. */
  function Chunk(hv: nat, k: nat, width: nat): (c: nat)
    ensures c < Pow2(width)
  {
    LowBits(Shr(hv, k * width), width)
  }

  /** Row `r`'s register for `val`: chunk `r % nper` of the row's hash word,
      `((hv >> (k * l2sz)) & mask_) + r * subtbl_sz_`.  It lies inside the table. */
  function RowIndex(shape: Layout, hf: nat -> Word, val: Word, r: nat): (i: nat)
    requires Addressable(shape) && r < shape.nhashes
    ensures i < shape.nhashes * Pow2(shape.l2sz)
  {
    var chunk := Chunk(RowHash(shape, hf, val, r), r % shape.nper, shape.l2sz);
    SlotInTable(chunk, r, Pow2(shape.l2sz), shape.nhashes);
    chunk + r * Pow2(shape.l2sz)
  }

  /** Row `r`'s register lies inside row `r`'s block of `2^l2sz` registers. */
  lemma {:induction false} RowIndexInBlock(shape: Layout, hf: nat -> Word, val: Word, r: nat)
    requires Addressable(shape) && r < shape.nhashes
    ensures r * Pow2(shape.l2sz) <= RowIndex(shape, hf, val, r) < (r + 1) * Pow2(shape.l2sz)
  {
    var chunk := Chunk(RowHash(shape, hf, val, r), r % shape.nper, shape.l2sz);
    SlotInTable(chunk, r, Pow2(shape.l2sz), shape.nhashes);
  }

  /** The registers `val` maps to under `shape`, one per row. */
  function RowsOf(shape: Layout, hf: nat -> Word, val: Word): (idx: seq<nat>)
    requires Addressable(shape)
    ensures |idx| == shape.nhashes
  {
    seq(shape.nhashes, r requires 0 <= r < shape.nhashes => RowIndex(shape, hf, val, r))
  }

  /** The registers `val` maps to in `s`, one per row. */
  function Rows(s: Sketch, hf: nat -> Word, val: Word): (idx: seq<nat>)
    requires Valid(s)
    ensures |idx| == s.nhashes
    ensures forall r :: 0 <= r < |idx| ==> idx[r] < |s.data|
  {
    RowsOf(Shape(s), hf, val)
  }

  /** Different rows never share a register. */
  lemma {:induction false} RowsDistinct(s: Sketch, hf: nat -> Word, val: Word)
    requires Valid(s)
    ensures forall a, b :: 0 <= a < b < s.nhashes ==> Rows(s, hf, val)[a] < Rows(s, hf, val)[b]
  {
    var idx := Rows(s, hf, val);
    forall a, b | 0 <= a < b < s.nhashes
      ensures idx[a] < idx[b]
    {
      RowIndexInBlock(Shape(s), hf, val, a);
      RowIndexInBlock(Shape(s), hf, val, b);
      MulMonotone(a + 1, b, Pow2(s.l2sz));
    }
  }

  /** Chunk `k` of seed `g`'s hash is the index of row `g * nper + k`. */
  lemma {:induction false} ChunkIsRowIndex(s: Sketch, hf: nat -> Word, val: Word, g: nat, k: nat)
    requires Valid(s) && k < s.nper && g * s.nper + k < s.nhashes && g < |s.seeds|
    ensures RowIndex(Shape(s), hf, val, g * s.nper + k)
         == Chunk(hf(SeededKey(val, s.seeds[g])), k, s.l2sz)
            + (g * s.nper + k) * Pow2(s.l2sz)
  {
    DivModOf(g, k, s.nper);
  }

  /** The inner `for k` loop of the index loop: the `e` row indices carved from
      seed `g`'s hash, for rows `g * nper ..`. */
  method SeedChunks(s: Sketch, hf: nat -> Word, val: Word, g: nat, e: nat) returns (chunks: seq<nat>)
    requires Valid(s) && g < |s.seeds| && e <= s.nper && g * s.nper + e <= s.nhashes
    ensures |chunks| == e
    ensures forall k :: 0 <= k < e ==> chunks[k] == RowIndex(Shape(s), hf, val, g * s.nper + k)
  {
    var hv := hf(SeededKey(val, s.seeds[g]));
    chunks := [];
    var k := 0;
    while k < e
      invariant k <= e && |chunks| == k
      invariant forall q :: 0 <= q < k ==> chunks[q] == RowIndex(Shape(s), hf, val, g * s.nper + q)
      decreases e - k
    {
      ChunkIsRowIndex(s, hf, val, g, k);
      chunks := chunks + [Chunk(hv, k, s.l2sz) + (g * s.nper + k) * Pow2(s.l2sz)];
      k := k + 1;
    }
  }

  lemma {:induction false} SameAsRows(s: Sketch, hf: nat -> Word, val: Word, idx: seq<nat>)
    requires Valid(s)
    requires |idx| == s.nhashes
    requires forall r :: 0 <= r < |idx| ==> idx[r] == RowIndex(Shape(s), hf, val, r)
    ensures idx == Rows(s, hf, val)
  {
  }

  /** The index loop of `add`, `sub` and `est_count`: one hash per seed, cut into
      `nper` chunks, stopping once every row has its index. */
  method RowIndices(s: Sketch, hf: nat -> Word, val: Word) returns (idx: seq<nat>)
    requires Valid(s)
    ensures |idx| == s.nhashes
    ensures forall r :: 0 <= r < |idx| ==> idx[r] == RowIndex(Shape(s), hf, val, r)
  {
    idx := [];
    var seedind := 0;
    while |idx| < s.nhashes
      invariant |idx| <= s.nhashes
      invariant |idx| < s.nhashes ==> |idx| == seedind * s.nper
      invariant forall r :: 0 <= r < |idx| ==> idx[r] == RowIndex(Shape(s), hf, val, r)
      decreases s.nhashes - |idx|
    {
      var done := |idx|;
      MulCancel(seedind, |s.seeds|, s.nper);
      var chunks := SeedChunks(s, hf, val, seedind, Min(s.nper, s.nhashes - done));
      assert (seedind + 1) * s.nper == done + s.nper;
      idx := idx + chunks;
      seedind := seedind + 1;
    }
  }

  /* ---------------- minimum and the rows holding it ---------------- */

  /** The registers at the listed indices. */
  function Gather(data: seq<int>, idx: seq<nat>): (v: seq<int>)
    requires forall i :: 0 <= i < |idx| ==> idx[i] < |data|
    ensures |v| == |idx|
  {
    seq(|idx|, i requires 0 <= i < |idx| => data[idx[i]])
  }

  /** The smallest value of a nonempty list. */
  function MinOf(v: seq<int>): (m: int)
    requires |v| >= 1
    ensures m in v
    ensures forall i :: 0 <= i < |v| ==> m <= v[i]
  {
    if |v| == 1 then v[0] else Min(MinOf(v[..|v| - 1]), v[|v| - 1])
  }

  /** The listed indices whose register equals `m`, in order. */
  function Keep(data: seq<int>, idx: seq<nat>, m: int): (best: seq<nat>)
    requires forall i :: 0 <= i < |idx| ==> idx[i] < |data|
    ensures forall i :: 0 <= i < |best| ==> best[i] < |data|
  {
    if |idx| == 0 then []
    else Keep(data, idx[..|idx| - 1], m) + (if data[idx[|idx| - 1]] == m then [idx[|idx| - 1]] else [])
  }

  /** `Keep` holds exactly the listed indices whose register equals `m`. */
  lemma {:induction false} KeepMembers(data: seq<int>, idx: seq<nat>, m: int)
    requires forall i :: 0 <= i < |idx| ==> idx[i] < |data|
    ensures forall j :: j in Keep(data, idx, m) <==> j in idx && data[j] == m
  {
    if |idx| > 0 {
      var init := idx[..|idx| - 1];
      KeepMembers(data, init, m);
      assert idx == init + [idx[|idx| - 1]];
    }
  }

  /** No listed register equals a value below all of them. */
  lemma {:induction false} KeepNone(data: seq<int>, idx: seq<nat>, m: int)
    requires forall i :: 0 <= i < |idx| ==> idx[i] < |data| && data[idx[i]] > m
    ensures Keep(data, idx, m) == []
  {
    if |idx| > 0 {
      KeepNone(data, idx[..|idx| - 1], m);
    }
  }

  lemma {:induction false} KeepStep(data: seq<int>, idx: seq<nat>, i: nat, m: int)
    requires i < |idx| && forall k :: 0 <= k < |idx| ==> idx[k] < |data|
    ensures Keep(data, idx[..i + 1], m)
         == Keep(data, idx[..i], m) + (if data[idx[i]] == m then [idx[i]] else [])
  {
    assert idx[..i + 1][..i] == idx[..i];
  }

  lemma {:induction false} MinStep(data: seq<int>, idx: seq<nat>, i: nat)
    requires 1 <= i < |idx| && forall k :: 0 <= k < |idx| ==> idx[k] < |data|
    ensures MinOf(Gather(data, idx[..i + 1])) == Min(MinOf(Gather(data, idx[..i])), data[idx[i]])
  {
    assert Gather(data, idx[..i + 1])[..i] == Gather(data, idx[..i]);
  }

  /** One step of the selection loop keeps `minval` the smallest register seen and
      `best` every index seen that holds it. */
  lemma {:induction false} SelectStep(data: seq<int>, idx: seq<nat>, i: nat, best: seq<nat>, minval: int)
    requires 1 <= i < |idx| && forall k :: 0 <= k < |idx| ==> idx[k] < |data|
    requires minval == MinOf(Gather(data, idx[..i])) && best == Keep(data, idx[..i], minval)
    ensures var score := data[idx[i]];
      var m := if score < minval then score else minval;
      && m == MinOf(Gather(data, idx[..i + 1]))
      && Keep(data, idx[..i + 1], m)
         == if score == minval then best + [idx[i]] else if score < minval then [idx[i]] else best
  {
    var score := data[idx[i]];
    MinStep(data, idx, i);
    if score < minval {
      KeepStep(data, idx, i, score);
      forall j | 0 <= j < i
        ensures data[idx[..i][j]] > score
      {
        assert Gather(data, idx[..i])[j] == data[idx[j]];
      }
      KeepNone(data, idx[..i], score);
    } else {
      KeepStep(data, idx, i, minval);
    }
  }

  /** The selection loop of conservative `add`: the smallest register among the
      item's rows, and every index holding it. */
  method SelectBest(data: seq<int>, idx: seq<nat>) returns (best: seq<nat>, minval: int)
    requires |idx| >= 1 && forall i :: 0 <= i < |idx| ==> idx[i] < |data|
    ensures minval == MinOf(Gather(data, idx))
    ensures best == Keep(data, idx, minval)
  {
    best := [idx[0]];
    minval := data[idx[0]];
    assert idx[..1][..0] == [];
    assert Gather(data, idx[..1]) == [minval];
    assert minval == MinOf(Gather(data, idx[..1]));
    assert best == Keep(data, idx[..1], minval);
    var i := 1;
    while i < |idx|
      invariant 1 <= i <= |idx|
      invariant minval == MinOf(Gather(data, idx[..i]))
      invariant best == Keep(data, idx[..i], minval)
      decreases |idx| - i
    {
      var score := data[idx[i]];
      SelectStep(data, idx, i, best, minval);
      if score == minval {
        best := best + [idx[i]];
      } else if score < minval {
        best := [idx[i]];
        minval := score;
      }
      i := i + 1;
    }
    assert idx[..|idx|] == idx;
  }

  /* ---------------- est_count ---------------- */

  /** The registers of `val`'s rows, in row order. */
  function RowValues(s: Sketch, hf: nat -> Word, val: Word): (v: seq<int>)
    requires Valid(s)
    ensures |v| == s.nhashes
    ensures forall r :: 0 <= r < |v| ==> 0 <= v[r] < Pow2(s.nbits)
  {
    Gather(s.data, Rows(s, hf, val))
  }

  /** `PowerOfTwo::est_count` shifts by the register minus one, so it needs the
      smallest row register to be at most 64. */
  predicate Estimable(s: Sketch, hf: nat -> Word, val: Word)
    requires Valid(s) && s.nhashes >= 1
  {
    s.policy == PowerOfTwo ==> MinOf(RowValues(s, hf, val)) <= 64
  }

  /** `est_count(val)`: the policy's reading of the smallest of `val`'s row
      registers.  With no rows the source loop reads past the seeds, so at least
      one row is required. */
  function EstCount(s: Sketch, hf: nat -> Word, val: Word): (e: nat)
    requires Valid(s) && s.nhashes >= 1 && Estimable(s, hf, val)
    ensures var v := RowValues(s, hf, val);
      exists r :: 0 <= r < |v| && (forall q :: 0 <= q < |v| ==> v[r] <= v[q])
                  && (s.policy == PowerOfTwo ==> v[r] <= 64) && e == Estimate(s.policy, v[r])
  {
    var v := RowValues(s, hf, val);
    var m := MinOf(v);
    var r :| 0 <= r < |v| && v[r] == m;
    Estimate(s.policy, m)
  }

  /** A pointwise smaller list has a smaller minimum. */
  lemma {:induction false} MinOfMonotone(u: seq<int>, v: seq<int>)
    requires |u| == |v| >= 1
    requires forall i :: 0 <= i < |u| ==> u[i] <= v[i]
    ensures MinOf(u) <= MinOf(v)
  {
    var k :| 0 <= k < |v| && v[k] == MinOf(v);
    assert u[k] <= v[k];
  }

  /** The minimum of pointwise sums is at least the sum of the minima. */
  lemma {:induction false} MinOfSum(u: seq<int>, v: seq<int>, w: seq<int>)
    requires |u| == |v| == |w| >= 1
    requires forall i :: 0 <= i < |w| ==> w[i] >= u[i] + v[i]
    ensures MinOf(w) >= MinOf(u) + MinOf(v)
  {
    var k :| 0 <= k < |w| && w[k] == MinOf(w);
    assert u[k] >= MinOf(u) && v[k] >= MinOf(v);
  }

  /** Operations that change only registers keep the row layout. */
  lemma {:induction false} RowsKeepShape(s: Sketch, t: Sketch, hf: nat -> Word, val: Word)
    requires Valid(s) && Valid(t)
    requires SameConfig(s, t)
    ensures Rows(t, hf, val) == Rows(s, hf, val)
  {
    assert Shape(t) == Shape(s);
  }

  /* ---------------- conservative add ---------------- */

  /** The minimum over `val`'s rows is held by at least one of them. */
  lemma {:induction false} MinRowIsKept(s: Sketch, hf: nat -> Word, val: Word)
    requires Valid(s) && s.nhashes >= 1
    ensures var idx := Rows(s, hf, val);
      var best := Keep(s.data, idx, MinOf(Gather(s.data, idx)));
      |best| >= 1 && forall i :: 0 <= i < |best| ==> s.data[best[i]] == MinOf(Gather(s.data, idx))
  {
    var idx := Rows(s, hf, val);
    var v := Gather(s.data, idx);
    var m := MinOf(v);
    KeepMembers(s.data, idx, m);
    var k :| 0 <= k < |v| && v[k] == m;
    assert idx[k] in Keep(s.data, idx, m);
    forall i | 0 <= i < |Keep(s.data, idx, m)|
      ensures s.data[Keep(s.data, idx, m)[i]] == m
    {
      assert Keep(s.data, idx, m)[i] in Keep(s.data, idx, m);
    }
  }

  /** Conservative `add` (`conservative_update` true) as intended: find the smallest
      of `val`'s row registers, let the policy update exactly the rows holding it, and
      return it (plus one under `Increment`).  A full register stays full. */
  function AddConservative(s: Sketch, hf: nat -> Word, val: Word, rng: nat -> Word): (r: (Sketch, int))
    requires Valid(s) && s.nhashes >= 1
    requires s.policy == PowerOfTwo ==> MinOf(RowValues(s, hf, val)) < 64
    ensures Valid(r.0)
    ensures SameConfig(s, r.0)
    ensures r.1 == MinOf(RowValues(s, hf, val)) + (if s.policy == Increment then 1 else 0)
    ensures s.policy == Increment ==> r.0.cursor == s.cursor
  {
    var idx := Rows(s, hf, val);
    var m := MinOf(Gather(s.data, idx));
    var best := Keep(s.data, idx, m);
    MinRowIsKept(s, hf, val);
    match s.policy
    case Increment =>
      NarrowRegisters(s.nbits);
      IncrementRowsFit(best, s.data, s.nbits);
      (s.(data := IncrementRows(best, s.data, s.nbits)), m + 1)
    case PowerOfTwo =>
      var (d, c) := PowerOfTwoRows(best, s.data, s.nbits, s.cursor, rng);
      PowerOfTwoRowsKeepsCursor(best, s.data, s.nbits, s.cursor, rng);
      PowerOfTwoRowsFit(best, s.data, s.nbits, s.cursor, rng);
      (s.(data := d, cursor := c), m)
  }

  /** Conservative `add` as written: `Increment` counts in 32-bit `unsigned`, so a
      full 32-bit minimum wraps to 0 and the rows holding it are reset. */
  function AddConservativeAsWritten(s: Sketch, hf: nat -> Word, val: Word, rng: nat -> Word): (r: (Sketch, int))
    requires Valid(s) && s.nhashes >= 1
    requires s.policy == PowerOfTwo ==> MinOf(RowValues(s, hf, val)) < 64
    ensures Valid(r.0)
    ensures SameConfig(s, r.0)
    ensures r.1 == MinOf(RowValues(s, hf, val)) + (if s.policy == Increment then 1 else 0)
    ensures s.policy == PowerOfTwo ==> r == AddConservative(s, hf, val, rng)
  {
    var idx := Rows(s, hf, val);
    var m := MinOf(Gather(s.data, idx));
    var best := Keep(s.data, idx, m);
    MinRowIsKept(s, hf, val);
    match s.policy
    case Increment =>
      IncrementRowsAsWrittenFit(best, s.data, s.nbits);
      (s.(data := IncrementRowsAsWritten(best, s.data, s.nbits)), m + 1)
    case PowerOfTwo => AddConservative(s, hf, val, rng)
  }

  /** Below a full 32-bit minimum, conservative `add` as written is the corrected
      one. */
  lemma {:induction false} AddConservativeAsWrittenAgrees(s: Sketch, hf: nat -> Word, val: Word, rng: nat -> Word)
    requires Valid(s) && s.nhashes >= 1
    requires s.policy == PowerOfTwo ==> MinOf(RowValues(s, hf, val)) < 64
    requires MinOf(RowValues(s, hf, val)) < 0xFFFF_FFFF
    ensures AddConservativeAsWritten(s, hf, val, rng) == AddConservative(s, hf, val, rng)
  {
    if s.policy == Increment {
      var idx := Rows(s, hf, val);
      var m := MinOf(Gather(s.data, idx));
      var best := Keep(s.data, idx, m);
      MinRowIsKept(s, hf, val);
      NarrowRegisters(s.nbits);
      IncrementRowsAgree(best, s.data, s.nbits);
    }
  }

  /** A value of the list that no element undercuts is its minimum. */
  lemma {:induction false} MinOfIs(v: seq<int>, k: nat)
    requires k < |v| && forall i :: 0 <= i < |v| ==> v[k] <= v[i]
    ensures MinOf(v) == v[k]
  {
  }

  /** `est_count` reads the smallest of the item's row registers. */
  lemma {:induction false} EstCountIsMin(s: Sketch, hf: nat -> Word, val: Word)
    requires Valid(s) && s.nhashes >= 1 && Estimable(s, hf, val)
    ensures EstCount(s, hf, val) == Estimate(s.policy, MinOf(RowValues(s, hf, val)))
  {
  }

  /** Under `Increment` the estimate is the smallest row register. */
  lemma {:induction false} IncrementEstimateIsMin(s: Sketch, hf: nat -> Word, val: Word)
    requires Valid(s) && s.nhashes >= 1 && s.policy == Increment
    ensures EstCount(s, hf, val) == MinOf(RowValues(s, hf, val))
  {
    EstCountIsMin(s, hf, val);
  }

  /** What the policy writes into the rows holding the minimum `m` during a
      conservative `add`. */
  function Raised(s: Sketch, m: nat, rng: nat -> Word): (r: nat)
    ensures r == m || r == m + 1
  {
    match s.policy
    case Increment =>
      if m + 1 < Pow2(s.nbits) then m + 1 else m
    case PowerOfTwo =>
      if m == 0 then 1
      else if LowBitsZero(Refill(s.cursor, m, rng).gen, m) && m + 1 < Pow2(s.nbits) then m + 1
      else m
  }

  /** At register level: conservative `add` writes the raised value into exactly
      the listed registers holding the minimum. */
  lemma {:induction false} AddConservativeData(s: Sketch, hf: nat -> Word, val: Word, rng: nat -> Word)
    requires Valid(s) && s.nhashes >= 1
    requires s.policy == PowerOfTwo ==> MinOf(RowValues(s, hf, val)) < 64
    ensures var t := AddConservative(s, hf, val, rng).0;
      var idx := Rows(s, hf, val);
      var m := MinOf(Gather(s.data, idx));
      forall j :: 0 <= j < |s.data| ==>
        t.data[j] == if j in Keep(s.data, idx, m) then Raised(s, m, rng) else s.data[j]
  {
    var idx := Rows(s, hf, val);
    var m := MinOf(Gather(s.data, idx));
    var best := Keep(s.data, idx, m);
    MinRowIsKept(s, hf, val);
    assert s.data[best[0]] == m;
  }

  /** Conservative `add` rewrites only registers of `val`'s rows that held the
      minimum, and the rows holding the minimum all take the policy's raised value. */
  lemma {:induction false} AddConservativeRowValues(s: Sketch, hf: nat -> Word, val: Word, rng: nat -> Word)
    requires Valid(s) && s.nhashes >= 1
    requires s.policy == PowerOfTwo ==> MinOf(RowValues(s, hf, val)) < 64
    ensures var t := AddConservative(s, hf, val, rng).0;
      var v := RowValues(s, hf, val);
      var m := MinOf(v);
      && (forall j :: 0 <= j < |s.data| && t.data[j] != s.data[j] ==> j in Rows(s, hf, val) && s.data[j] == m)
      && (forall q :: 0 <= q < s.nhashes ==>
            RowValues(t, hf, val)[q] == if v[q] == m then Raised(s, m, rng) else v[q])
  {
    var t := AddConservative(s, hf, val, rng).0;
    var idx := Rows(s, hf, val);
    var m := MinOf(Gather(s.data, idx));
    KeepMembers(s.data, idx, m);
    AddConservativeData(s, hf, val, rng);
    RowsKeepShape(s, t, hf, val);
  }

  /** Raising the registers that hold a list's minimum to `nv`, itself the minimum or
      one more, moves the minimum to `nv`. */
  lemma {:induction false} RaisedMinimum(v: seq<int>, w: seq<int>, nv: int)
    requires |v| == |w| >= 1 && (nv == MinOf(v) || nv == MinOf(v) + 1)
    requires forall q :: 0 <= q < |w| ==> w[q] == if v[q] == MinOf(v) then nv else v[q]
    ensures MinOf(w) == nv
  {
    var k :| 0 <= k < |v| && v[k] == MinOf(v);
    MinOfIs(w, k);
  }

  /** After a conservative `add` the minimum over the item's rows is the raised value. */
  lemma {:induction false} AddConservativeMinimum(s: Sketch, hf: nat -> Word, val: Word, rng: nat -> Word)
    requires Valid(s) && s.nhashes >= 1
    requires s.policy == PowerOfTwo ==> MinOf(RowValues(s, hf, val)) < 64
    ensures MinOf(RowValues(AddConservative(s, hf, val, rng).0, hf, val))
         == Raised(s, MinOf(RowValues(s, hf, val)), rng)
  {
    var t := AddConservative(s, hf, val, rng).0;
    AddConservativeRowValues(s, hf, val, rng);
    RaisedMinimum(RowValues(s, hf, val), RowValues(t, hf, val), Raised(s, MinOf(RowValues(s, hf, val)), rng));
  }

  /** Conservative `add` under `Increment`: when the minimum has room to grow, the
      item's estimate rises by exactly one, `add` returns the new estimate, and the
      random-bit cursor is untouched. */
  lemma {:induction false} AddConservativeIncrement(s: Sketch, hf: nat -> Word, val: Word, rng: nat -> Word)
    requires Valid(s) && s.nhashes >= 1 && s.policy == Increment
    requires MinOf(RowValues(s, hf, val)) + 1 < Pow2(s.nbits)
    ensures var r := AddConservative(s, hf, val, rng);
      && r.0.cursor == s.cursor
      && EstCount(r.0, hf, val) == EstCount(s, hf, val) + 1
      && r.1 == EstCount(r.0, hf, val)
  {
    var t := AddConservative(s, hf, val, rng).0;
    AddConservativeMinimum(s, hf, val, rng);
    EstCountIsMin(s, hf, val);
    EstCountIsMin(t, hf, val);
  }

  /** Conservative `add` under `PowerOfTwo` returns the old minimum and never lowers
      the item's estimate. */
  lemma {:induction false} AddConservativePowerOfTwo(s: Sketch, hf: nat -> Word, val: Word, rng: nat -> Word)
    requires Valid(s) && s.nhashes >= 1 && s.policy == PowerOfTwo
    requires MinOf(RowValues(s, hf, val)) < 64
    ensures var r := AddConservative(s, hf, val, rng);
      && r.1 == MinOf(RowValues(s, hf, val))
      && Estimable(r.0, hf, val)
      && EstCount(r.0, hf, val) >= EstCount(s, hf, val)
  {
    var t := AddConservative(s, hf, val, rng).0;
    var m := MinOf(RowValues(s, hf, val));
    AddConservativeMinimum(s, hf, val, rng);
    EstCountIsMin(s, hf, val);
    EstCountIsMin(t, hf, val);
    EstimateMonotone(PowerOfTwo, m, MinOf(RowValues(t, hf, val)));
  }

  /* ---------------- deletion mode: add and sub ---------------- */

  /** What a deletion-mode pass does to each row register: `add` applies the
      policy's scalar step with ceiling `maxval`, `sub` subtracts one. */
  datatype Op = Up(maxval: int) | Down

  /** The cursor-free steps: `Increment::operator()(ref, maxval)` for `add`, and
      `ref = ref - 1` for `sub`. */
  function Bump(op: Op, v: int): (r: int)
    ensures op.Down? ==> r == v - 1
    ensures op.Up? && v < op.maxval ==> r == v + 1
    ensures op.Up? && v >= op.maxval ==> r == v
  {
    match op
    case Up(maxval) => IncrementRegister(v, maxval)
    case Down => v - 1
  }

  /** A cursor-free pass: each of the item's row values takes `Bump`, stored into
      `nbits` bits. */
  function Bumped(nbits: nat, op: Op, vals: seq<int>): (r: seq<nat>)
    ensures |r| == |vals|
    ensures forall i :: 0 <= i < |r| ==> r[i] < Pow2(nbits)
  {
    seq(|vals|, i requires 0 <= i < |vals| => Store(nbits, Bump(op, vals[i])))
  }

  /** The `PowerOfTwo` pass of `add`, in row order: each value takes the scalar step
      with ceiling `maxval`, stored into `nbits` bits, and the random-bit cursor is
      threaded from one row to the next. */
  function PowerOfTwoPass(nbits: nat, maxval: int, vals: seq<nat>, c: Cursor, rng: nat -> Word)
    : (r: (seq<nat>, Cursor))
    requires forall i :: 0 <= i < |vals| ==> vals[i] < 64
    requires CursorValid(c)
    ensures |r.0| == |vals| && CursorValid(r.1)
    ensures forall i :: 0 <= i < |r.0| ==> r.0[i] < Pow2(nbits)
    decreases |vals|
  {
    if |vals| == 0 then ([], c)
    else
      var first := PowerOfTwoRegister(vals[0], maxval, c, rng);
      PowerOfTwoRegisterKeepsCursor(vals[0], maxval, c, rng);
      var rest := PowerOfTwoPass(nbits, maxval, vals[1..], first.1, rng);
      ([Store(nbits, first.0)] + rest.0, rest.1)
  }

  /** One register's move under `PowerOfTwo` with ceiling `maxval`: an empty register
      becomes 1, one at or above the ceiling keeps its value, and any other one keeps
      its value or gains one, stored into `nbits` bits. */
  predicate PowerOfTwoMoved(nbits: nat, maxval: int, before: nat, after: nat)
  {
    if before == 0 then after == Store(nbits, 1)
    else if before >= maxval then after == Store(nbits, before)
    else after == Store(nbits, before) || after == Store(nbits, before + 1)
  }

  /** A single `PowerOfTwo` step, stored back, is such a move. */
  lemma {:induction false} PowerOfTwoRegisterMoves(nbits: nat, ref: nat, maxval: int, c: Cursor, rng: nat -> Word)
    requires ref < 64 && CursorValid(c)
    ensures PowerOfTwoMoved(nbits, maxval, ref, Store(nbits, PowerOfTwoRegister(ref, maxval, c, rng).0))
  {
  }

  /** Under `PowerOfTwo`, `add` sets an empty register to 1, keeps one at the ceiling,
      and otherwise keeps it or raises it by one. */
  lemma {:induction false} PowerOfTwoPassSteps(nbits: nat, maxval: int, vals: seq<nat>, c: Cursor, rng: nat -> Word)
    requires forall i :: 0 <= i < |vals| ==> vals[i] < 64
    requires CursorValid(c)
    ensures var r := PowerOfTwoPass(nbits, maxval, vals, c, rng);
      forall i :: 0 <= i < |vals| ==> PowerOfTwoMoved(nbits, maxval, vals[i], r.0[i])
    decreases |vals|
  {
    if |vals| > 0 {
      var first := PowerOfTwoRegister(vals[0], maxval, c, rng);
      PowerOfTwoRegisterKeepsCursor(vals[0], maxval, c, rng);
      var rest := PowerOfTwoPass(nbits, maxval, vals[1..], first.1, rng);
      PowerOfTwoPassSteps(nbits, maxval, vals[1..], first.1, rng);
      var r := PowerOfTwoPass(nbits, maxval, vals, c, rng);
      assert r.0[0] == Store(nbits, first.0);
      PowerOfTwoRegisterMoves(nbits, vals[0], maxval, c, rng);
      forall i | 1 <= i < |vals|
        ensures PowerOfTwoMoved(nbits, maxval, vals[i], r.0[i])
      {
        assert r.0[i] == rest.0[i - 1] && vals[i] == vals[1..][i - 1];
      }
    }
  }

  /** The indices are strictly increasing, so no register is listed twice. */
  predicate Increasing(idx: seq<nat>)
  {
    forall a, b :: 0 <= a < b < |idx| ==> idx[a] < idx[b]
  }

  /** Writes `vals[i]` to register `idx[i]`, for every `i`. */
  function WriteBack(data: seq<int>, idx: seq<nat>, vals: seq<nat>): (r: seq<int>)
    requires |vals| == |idx| && Increasing(idx) && forall i :: 0 <= i < |idx| ==> idx[i] < |data|
    ensures |r| == |data|
    ensures forall i :: 0 <= i < |idx| ==> r[idx[i]] == vals[i]
    ensures forall j :: 0 <= j < |data| && j !in idx ==> r[j] == data[j]
    decreases |idx|
  {
    if |idx| == 0 then data
    else
      var rest := WriteBack(data[idx[0] := vals[0]], idx[1..], vals[1..]);
      assert forall i :: 1 <= i < |idx| ==> idx[1..][i - 1] == idx[i] != idx[0];
      rest
  }

  /** Whether `PowerOfTwo`'s step is defined on every one of the item's registers: it
      shifts by the register's value, so that must stay below 64. */
  predicate ShiftsDefined(s: Sketch, hf: nat -> Word, val: Word)
    requires Valid(s)
  {
    s.policy == PowerOfTwo ==> forall q :: 0 <= q < s.nhashes ==> RowValues(s, hf, val)[q] < 64
  }

  /** Stores `stored[q]` into the register of row `q`, for every row, and leaves the
      random-bit cursor at `c`; `ret` is the smallest value stored, `SSIZE_MAX` when
      there are no rows.  Each row register is visited once, so computing every new
      value first and writing them all afterwards is the source's interleaved loop. */
  function Apply(s: Sketch, hf: nat -> Word, val: Word, stored: seq<nat>, c: Cursor): (r: (Sketch, int))
    requires Valid(s) && |stored| == s.nhashes && CursorValid(c)
    requires forall i :: 0 <= i < |stored| ==> stored[i] < Pow2(s.nbits)
    ensures Valid(r.0)
    ensures SameConfig(s, r.0) && r.0.cursor == c
  {
    var idx := Rows(s, hf, val);
    RowsDistinct(s, hf, val);
    var data := WriteBack(s.data, idx, stored);
    assert AllFit(data, s.nbits) by {
      forall j | 0 <= j < |data| && j in idx
        ensures data[j] < Pow2(s.nbits)
      {
        var q :| 0 <= q < |idx| && idx[q] == j;
      }
    }
    (s.(data := data, cursor := c), if |stored| == 0 then SsizeMax else MinOf(stored))
  }

  /** After `Apply` the item's rows read back the stored values, every other register
      is unchanged, and `ret` is the smallest stored value. */
  lemma {:induction false} ApplyRowValues(s: Sketch, hf: nat -> Word, val: Word, stored: seq<nat>, c: Cursor)
    requires Valid(s) && |stored| == s.nhashes && CursorValid(c)
    requires forall i :: 0 <= i < |stored| ==> stored[i] < Pow2(s.nbits)
    ensures var r := Apply(s, hf, val, stored, c);
      && RowValues(r.0, hf, val) == stored
      && (forall j :: 0 <= j < |s.data| && j !in Rows(s, hf, val) ==> r.0.data[j] == s.data[j])
      && r.1 == if s.nhashes == 0 then SsizeMax else MinOf(stored)
  {
    ApplyReadsBack(s, hf, val, stored, c);
    ApplyKeepsOthers(s, hf, val, stored, c);
  }

  lemma {:induction false} ApplyReadsBack(s: Sketch, hf: nat -> Word, val: Word, stored: seq<nat>, c: Cursor)
    requires Valid(s) && |stored| == s.nhashes && CursorValid(c)
    requires forall i :: 0 <= i < |stored| ==> stored[i] < Pow2(s.nbits)
    ensures RowValues(Apply(s, hf, val, stored, c).0, hf, val) == stored
  {
    var r := Apply(s, hf, val, stored, c);
    var idx := Rows(s, hf, val);
    RowsDistinct(s, hf, val);
    RowsKeepShape(s, r.0, hf, val);
    assert r.0.data == WriteBack(s.data, idx, stored);
    assert Gather(r.0.data, idx) == stored;
  }

  lemma {:induction false} ApplyKeepsOthers(s: Sketch, hf: nat -> Word, val: Word, stored: seq<nat>, c: Cursor)
    requires Valid(s) && |stored| == s.nhashes && CursorValid(c)
    requires forall i :: 0 <= i < |stored| ==> stored[i] < Pow2(s.nbits)
    ensures forall j :: 0 <= j < |s.data| && j !in Rows(s, hf, val) ==>
      Apply(s, hf, val, stored, c).0.data[j] == s.data[j]
  {
    var r := Apply(s, hf, val, stored, c);
    RowsDistinct(s, hf, val);
    assert r.0.data == WriteBack(s.data, Rows(s, hf, val), stored);
  }

  /** Deletion-mode `add` with ceiling `maxval`: every row register takes the policy's
      step.  `PowerOfTwo` draws random bits row by row; `Increment` draws none. */
  function AddPass(s: Sketch, hf: nat -> Word, val: Word, maxval: int, rng: nat -> Word): (r: (Sketch, int))
    requires Valid(s) && ShiftsDefined(s, hf, val)
    ensures Valid(r.0)
    ensures SameConfig(s, r.0)
  {
    var v := RowValues(s, hf, val);
    if s.policy == PowerOfTwo then
      var pass := PowerOfTwoPass(s.nbits, maxval, v, s.cursor, rng);
      Apply(s, hf, val, pass.0, pass.1)
    else Apply(s, hf, val, Bumped(s.nbits, Up(maxval), v), s.cursor)
  }

  /** `ret + 1` on the signed 64-bit `ret`: one past `SSIZE_MAX` wraps to `SSIZE_MIN`
      as on two's complement hardware. */
  function SsizeSucc(x: int): int
  {
    if x == SsizeMax then SsizeMin else x + 1
  }

  /** `add` in deletion mode as written: the ceiling handed to the policy is
      `1u << nbits`, one past the largest `nbits`-bit value, and `ret` is the smallest
      stored value plus one under `Increment`.  With no rows `ret` is still
      `SSIZE_MAX`, and the `+ 1` wraps it to `SSIZE_MIN`. */
  function AddDeletionAsWritten(s: Sketch, hf: nat -> Word, val: Word, rng: nat -> Word): (r: (Sketch, int))
    requires Valid(s) && s.nbits < 32 && ShiftsDefined(s, hf, val)
    ensures Valid(r.0)
    ensures SameConfig(s, r.0)
  {
    var (t, low) := AddPass(s, hf, val, Pow2(s.nbits), rng);
    (t, if s.policy == Increment then SsizeSucc(low) else low)
  }

  /** A deletion-mode pass returns `SSIZE_MAX` with no rows, and otherwise an
      `nbits`-bit value, so `ret` is a `ssize_t`. */
  lemma {:induction false} AddPassReturns(s: Sketch, hf: nat -> Word, val: Word, maxval: int, rng: nat -> Word)
    requires Valid(s) && ShiftsDefined(s, hf, val)
    ensures var low := AddPass(s, hf, val, maxval, rng).1;
      && (s.nhashes == 0 ==> low == SsizeMax)
      && (s.nhashes >= 1 ==> 0 <= low < Pow2(s.nbits))
  {
  }

  /** As written, deletion-mode `add` on a sketch with no rows returns `SSIZE_MIN`
      under `Increment`: the `+ 1` overflows `SSIZE_MAX`. */
  lemma {:induction false} AddDeletionAsWrittenNoRows(s: Sketch, hf: nat -> Word, val: Word, rng: nat -> Word)
    requires Valid(s) && s.nbits < 32 && s.policy == Increment && s.nhashes == 0
    ensures AddDeletionAsWritten(s, hf, val, rng).1 == SsizeMin
  {
    AddPassReturns(s, hf, val, Pow2(s.nbits), rng);
  }

  /** `add` in deletion mode as intended: the ceiling is the largest `nbits`-bit
      value, so a full register stays full, and `ret` is the smallest stored value,
      the item's new estimate. */
  function AddDeletion(s: Sketch, hf: nat -> Word, val: Word, rng: nat -> Word): (r: (Sketch, int))
    requires Valid(s) && ShiftsDefined(s, hf, val)
    ensures Valid(r.0)
    ensures SameConfig(s, r.0)
  {
    AddPass(s, hf, val, Largest(s.nbits), rng)
  }

  /** `sub(val)` as intended: refused with `SSIZE_MIN` unless the sketch counts with
      `Increment` and without conservative update; otherwise each register `add`
      raises drops by one (wrapping in `nbits` bits) and `ret` is the smallest stored
      value.  The code's scalar loop picks other registers (`SubAsWritten`). */
  function Sub(s: Sketch, hf: nat -> Word, val: Word): (r: (Sketch, int))
    requires Valid(s)
    ensures Valid(r.0)
    ensures s.policy != Increment || s.conservative ==> r == (s, SsizeMin)
    ensures SameConfig(s, r.0) && r.0.cursor == s.cursor
  {
    if s.policy != Increment || s.conservative then (s, SsizeMin)
    else Apply(s, hf, val, Bumped(s.nbits, Down, RowValues(s, hf, val)), s.cursor)
  }

  /** Adding one to every value with a ceiling adds one to the minimum with the same
      ceiling. */
  lemma {:induction false} MinOfSaturated(v: seq<int>, w: seq<int>, cap: int)
    requires |v| == |w| >= 1
    requires forall q :: 0 <= q < |w| ==> w[q] == Min(v[q] + 1, cap)
    ensures MinOf(w) == Min(MinOf(v) + 1, cap)
  {
    var k :| 0 <= k < |v| && v[k] == MinOf(v);
    forall q | 0 <= q < |w|
      ensures w[k] <= w[q]
    {
      assert MinOf(v) <= v[q];
    }
    MinOfIs(w, k);
  }

  /** Without `PowerOfTwo`, deletion-mode `add` draws no random bits: it stores the
      `Increment` step of every row value. */
  lemma {:induction false} AddPassStores(s: Sketch, hf: nat -> Word, val: Word, maxval: int, rng: nat -> Word)
    requires Valid(s) && s.policy != PowerOfTwo
    ensures var r := AddPass(s, hf, val, maxval, rng);
      var b := Bumped(s.nbits, Up(maxval), RowValues(s, hf, val));
      && RowValues(r.0, hf, val) == b
      && r.0.cursor == s.cursor
      && (forall j :: 0 <= j < |s.data| && j !in Rows(s, hf, val) ==> r.0.data[j] == s.data[j])
      && r.1 == if s.nhashes == 0 then SsizeMax else MinOf(b)
  {
    ApplyRowValues(s, hf, val, Bumped(s.nbits, Up(maxval), RowValues(s, hf, val)), s.cursor);
  }

  /** The corrected `sub` stores the decrement of every row value. */
  lemma {:induction false} SubStores(s: Sketch, hf: nat -> Word, val: Word)
    requires Valid(s) && s.policy == Increment && !s.conservative
    ensures var r := Sub(s, hf, val);
      var b := Bumped(s.nbits, Down, RowValues(s, hf, val));
      && RowValues(r.0, hf, val) == b
      && (forall j :: 0 <= j < |s.data| && j !in Rows(s, hf, val) ==> r.0.data[j] == s.data[j])
      && r.1 == if s.nhashes == 0 then SsizeMax else MinOf(b)
  {
    ApplyRowValues(s, hf, val, Bumped(s.nbits, Down, RowValues(s, hf, val)), s.cursor);
  }

  /** The `Increment` step with the `nbits`-bit ceiling, stored back: a register
      counts up by one and sticks at the largest `nbits`-bit value. */
  lemma {:induction false} BumpedUp(nbits: nat, v: seq<int>)
    requires forall q :: 0 <= q < |v| ==> 0 <= v[q] < Pow2(nbits)
    ensures var w := Bumped(nbits, Up(Largest(nbits)), v);
      forall q :: 0 <= q < |v| ==> w[q] == Min(v[q] + 1, Largest(nbits))
  {
  }

  /** The `sub` step stored back: a register drops by one and wraps from 0 to the
      largest `nbits`-bit value. */
  lemma {:induction false} BumpedDown(nbits: nat, v: seq<int>)
    requires forall q :: 0 <= q < |v| ==> 0 <= v[q] < Pow2(nbits)
    ensures var w := Bumped(nbits, Down, v);
      forall q :: 0 <= q < |v| ==> w[q] == if v[q] >= 1 then v[q] - 1 else Largest(nbits)
  {
  }

  /** Deletion-mode `add` under `Increment` moves each row register one step up,
      stopping at the largest `nbits`-bit value. */
  lemma {:induction false} AddDeletionValues(s: Sketch, hf: nat -> Word, val: Word, rng: nat -> Word)
    requires Valid(s) && s.policy == Increment
    ensures var v, w := RowValues(s, hf, val), RowValues(AddDeletion(s, hf, val, rng).0, hf, val);
      forall q :: 0 <= q < s.nhashes ==> w[q] == Min(v[q] + 1, Largest(s.nbits))
  {
    AddPassStores(s, hf, val, Largest(s.nbits), rng);
    BumpedUp(s.nbits, RowValues(s, hf, val));
  }

  /** `sub` moves each row register one step down, wrapping from 0 to the largest
      `nbits`-bit value. */
  lemma {:induction false} SubValues(s: Sketch, hf: nat -> Word, val: Word)
    requires Valid(s) && s.policy == Increment && !s.conservative
    ensures var v, w := RowValues(s, hf, val), RowValues(Sub(s, hf, val).0, hf, val);
      forall q :: 0 <= q < s.nhashes ==> w[q] == if v[q] >= 1 then v[q] - 1 else Largest(s.nbits)
  {
    SubStores(s, hf, val);
    BumpedDown(s.nbits, RowValues(s, hf, val));
  }

  /** Deletion-mode `add` under `Increment`: every row register counts up by one and
      sticks at the largest `nbits`-bit value, nothing else changes, and `add` returns
      the smallest stored value. */
  lemma {:induction false} AddDeletionRows(s: Sketch, hf: nat -> Word, val: Word, rng: nat -> Word)
    requires Valid(s) && s.policy == Increment
    ensures var r := AddDeletion(s, hf, val, rng);
      var v := RowValues(s, hf, val);
      && r.0.cursor == s.cursor
      && (forall q :: 0 <= q < s.nhashes ==> RowValues(r.0, hf, val)[q] == Min(v[q] + 1, Largest(s.nbits)))
      && (forall j :: 0 <= j < |s.data| && j !in Rows(s, hf, val) ==> r.0.data[j] == s.data[j])
      && r.1 == if s.nhashes == 0 then SsizeMax else MinOf(RowValues(r.0, hf, val))
  {
    AddPassStores(s, hf, val, Largest(s.nbits), rng);
    BumpedUp(s.nbits, RowValues(s, hf, val));
  }

  /** Deletion-mode `add` under `Increment` returns the smallest stored value. */
  lemma {:induction false} AddDeletionReturnsMin(s: Sketch, hf: nat -> Word, val: Word, rng: nat -> Word)
    requires Valid(s) && s.policy == Increment && s.nhashes >= 1
    ensures var r := AddDeletion(s, hf, val, rng);
      r.1 == MinOf(RowValues(r.0, hf, val))
  {
    AddPassStores(s, hf, val, Largest(s.nbits), rng);
  }

  /** Deletion-mode `add` under `Increment` returns the item's new estimate, which is
      the old one plus one up to the largest `nbits`-bit value. */
  lemma {:induction false} AddDeletionIncrement(s: Sketch, hf: nat -> Word, val: Word, rng: nat -> Word)
    requires Valid(s) && s.policy == Increment && s.nhashes >= 1
    ensures var r := AddDeletion(s, hf, val, rng);
      && r.1 == EstCount(r.0, hf, val)
      && EstCount(r.0, hf, val) == Min(EstCount(s, hf, val) + 1, Largest(s.nbits))
  {
    AddDeletionReturnsEstimate(s, hf, val, rng);
    AddDeletionEstimateSaturates(s, hf, val, rng);
  }

  lemma {:induction false} AddDeletionReturnsEstimate(s: Sketch, hf: nat -> Word, val: Word, rng: nat -> Word)
    requires Valid(s) && s.policy == Increment && s.nhashes >= 1
    ensures AddDeletion(s, hf, val, rng).1 == EstCount(AddDeletion(s, hf, val, rng).0, hf, val)
  {
    var r := AddDeletion(s, hf, val, rng);
    AddDeletionReturnsMin(s, hf, val, rng);
    assert r.1 == MinOf(RowValues(r.0, hf, val));
    IncrementEstimateIsMin(r.0, hf, val);
    assert EstCount(r.0, hf, val) == MinOf(RowValues(r.0, hf, val));
  }

  lemma {:induction false} AddDeletionEstimateSaturates(s: Sketch, hf: nat -> Word, val: Word, rng: nat -> Word)
    requires Valid(s) && s.policy == Increment && s.nhashes >= 1
    ensures EstCount(AddDeletion(s, hf, val, rng).0, hf, val) == Min(EstCount(s, hf, val) + 1, Largest(s.nbits))
  {
    var r := AddDeletion(s, hf, val, rng);
    var v, w := RowValues(s, hf, val), RowValues(r.0, hf, val);
    AddDeletionMin(s, hf, val, rng, v, w);
    IncrementEstimateIsMin(s, hf, val);
    IncrementEstimateIsMin(r.0, hf, val);
    assert EstCount(s, hf, val) == MinOf(v);
    assert EstCount(r.0, hf, val) == MinOf(w);
    assert MinOf(w) == Min(MinOf(v) + 1, Largest(s.nbits));
    SaturatedChain(EstCount(s, hf, val), MinOf(v), EstCount(r.0, hf, val), MinOf(w), Largest(s.nbits));
  }

  lemma {:induction false} SaturatedChain(e: int, m: int, e': int, m': int, cap: int)
    requires e == m && e' == m' && m' == Min(m + 1, cap)
    ensures e' == Min(e + 1, cap)
  {
  }

  /** Deletion-mode `add` under `Increment` moves the smallest of the item's row
      registers up by one, saturating at the largest `nbits`-bit value; `v` and `w`
      are the row registers before and after. */
  lemma {:induction false} AddDeletionMin(s: Sketch, hf: nat -> Word, val: Word, rng: nat -> Word, v: seq<int>, w: seq<int>)
    requires Valid(s) && s.policy == Increment && s.nhashes >= 1
    requires v == RowValues(s, hf, val) && w == RowValues(AddDeletion(s, hf, val, rng).0, hf, val)
    ensures MinOf(w) == Min(MinOf(v) + 1, Largest(s.nbits))
  {
    AddDeletionStores(s, hf, val, rng);
    MinOfBumped(s.nbits, v, w);
  }

  lemma {:induction false} AddDeletionStores(s: Sketch, hf: nat -> Word, val: Word, rng: nat -> Word)
    requires Valid(s) && s.policy == Increment
    ensures RowValues(AddDeletion(s, hf, val, rng).0, hf, val)
         == Bumped(s.nbits, Up(Largest(s.nbits)), RowValues(s, hf, val))
  {
    AddPassStores(s, hf, val, Largest(s.nbits), rng);
  }

  /** Registers that each counted up by one, saturating at the largest `nbits`-bit
      value, have their minimum moved the same way. */
  lemma {:induction false} MinOfBumped(nbits: nat, v: seq<int>, w: seq<int>)
    requires |v| >= 1 && forall q :: 0 <= q < |v| ==> 0 <= v[q] < Pow2(nbits)
    requires w == Bumped(nbits, Up(Largest(nbits)), v)
    ensures MinOf(w) == Min(MinOf(v) + 1, Largest(nbits))
  {
    BumpedUp(nbits, v);
    MinOfSaturated(v, w, Largest(nbits));
  }

  /** `sub` on a deletion-mode `Increment` sketch: every row register drops by one,
      an empty one wrapping to the largest `nbits`-bit value, nothing else changes,
      and `sub` returns the smallest stored value. */
  lemma {:induction false} SubIncrement(s: Sketch, hf: nat -> Word, val: Word)
    requires Valid(s) && s.policy == Increment && !s.conservative
    ensures var r := Sub(s, hf, val);
      var v := RowValues(s, hf, val);
      && (forall q :: 0 <= q < s.nhashes ==>
            RowValues(r.0, hf, val)[q] == if v[q] >= 1 then v[q] - 1 else Largest(s.nbits))
      && (forall j :: 0 <= j < |s.data| && j !in Rows(s, hf, val) ==> r.0.data[j] == s.data[j])
      && r.1 == if s.nhashes == 0 then SsizeMax else MinOf(RowValues(r.0, hf, val))
  {
    SubStores(s, hf, val);
    BumpedDown(s.nbits, RowValues(s, hf, val));
  }

  /** Two sketches that differ at most in registers and agree on every register of
      `val`'s rows and on every other register are equal. */
  lemma {:induction false} SameRegisters(s: Sketch, t: Sketch, hf: nat -> Word, val: Word)
    requires Valid(s) && Valid(t) && SameConfig(s, t) && t.cursor == s.cursor
    requires forall q :: 0 <= q < s.nhashes ==> RowValues(t, hf, val)[q] == RowValues(s, hf, val)[q]
    requires forall j :: 0 <= j < |s.data| && j !in Rows(s, hf, val) ==> t.data[j] == s.data[j]
    ensures t == s
  {
    RowsKeepShape(s, t, hf, val);
    var idx := Rows(s, hf, val);
    forall j | 0 <= j < |s.data| && j in idx
      ensures t.data[j] == s.data[j]
    {
      var q :| 0 <= q < |idx| && idx[q] == j;
      assert RowValues(t, hf, val)[q] == RowValues(s, hf, val)[q];
    }
  }

  /** Register by register: counting up below the ceiling and then down again
      gives back the old values. */
  lemma {:induction false} UpThenDown(v: seq<int>, w: seq<int>, x: seq<int>, cap: int)
    requires |w| == |v| && |x| == |v|
    requires forall q :: 0 <= q < |v| ==> 0 <= v[q] < cap
    requires forall q :: 0 <= q < |v| ==> w[q] == Min(v[q] + 1, cap)
    requires forall q :: 0 <= q < |v| ==> x[q] == if w[q] >= 1 then w[q] - 1 else cap
    ensures forall q :: 0 <= q < |v| ==> x[q] == v[q]
  {
  }

  /** Register by register: counting down from a non-empty register and then up
      again gives back the old values. */
  lemma {:induction false} DownThenUp(v: seq<int>, w: seq<int>, x: seq<int>, cap: int)
    requires |w| == |v| && |x| == |v|
    requires forall q :: 0 <= q < |v| ==> 1 <= v[q] <= cap
    requires forall q :: 0 <= q < |v| ==> w[q] == (if v[q] >= 1 then v[q] - 1 else cap)
    requires forall q :: 0 <= q < |v| ==> x[q] == Min(w[q] + 1, cap)
    ensures forall q :: 0 <= q < |v| ==> x[q] == v[q]
  {
  }

  /** After `add` then `sub` of the same item, each of its row registers holds its
      old value again. */
  lemma {:induction false} AddThenSubRows(s: Sketch, hf: nat -> Word, val: Word, rng: nat -> Word)
    requires Valid(s) && s.policy == Increment && !s.conservative
    requires forall q :: 0 <= q < s.nhashes ==> RowValues(s, hf, val)[q] < Largest(s.nbits)
    ensures var u := Sub(AddDeletion(s, hf, val, rng).0, hf, val).0;
      forall q :: 0 <= q < s.nhashes ==> RowValues(u, hf, val)[q] == RowValues(s, hf, val)[q]
  {
    var t := AddDeletion(s, hf, val, rng).0;
    var u := Sub(t, hf, val).0;
    var v, w, x := RowValues(s, hf, val), RowValues(t, hf, val), RowValues(u, hf, val);
    AddDeletionValues(s, hf, val, rng);
    SubValues(t, hf, val);
    UpThenDown(v, w, x, Largest(s.nbits));
  }

  /** After `add` then `sub` of an item, no register outside its rows has moved. */
  lemma {:induction false} AddThenSubOthers(s: Sketch, hf: nat -> Word, val: Word, rng: nat -> Word)
    requires Valid(s) && s.policy == Increment && !s.conservative
    ensures var u := Sub(AddDeletion(s, hf, val, rng).0, hf, val).0;
      forall j :: 0 <= j < |s.data| && j !in Rows(s, hf, val) ==> u.data[j] == s.data[j]
  {
    var t := AddDeletion(s, hf, val, rng).0;
    AddDeletionRows(s, hf, val, rng);
    SubIncrement(t, hf, val);
    RowsKeepShape(s, t, hf, val);
  }

  /** Deleting an item right after adding it restores the sketch, as long as none of
      its row registers was full. */
  lemma {:induction false} AddThenSubRestores(s: Sketch, hf: nat -> Word, val: Word, rng: nat -> Word)
    requires Valid(s) && s.policy == Increment && !s.conservative
    requires forall q :: 0 <= q < s.nhashes ==> RowValues(s, hf, val)[q] < Largest(s.nbits)
    ensures Sub(AddDeletion(s, hf, val, rng).0, hf, val).0 == s
  {
    AddThenSubRows(s, hf, val, rng);
    AddThenSubOthers(s, hf, val, rng);
    SameRegisters(s, Sub(AddDeletion(s, hf, val, rng).0, hf, val).0, hf, val);
  }

  /** After `sub` then `add` of the same item, each of its row registers holds its
      old value again. */
  lemma {:induction false} SubThenAddRows(s: Sketch, hf: nat -> Word, val: Word, rng: nat -> Word)
    requires Valid(s) && s.policy == Increment && !s.conservative
    requires forall q :: 0 <= q < s.nhashes ==> RowValues(s, hf, val)[q] >= 1
    ensures var u := AddDeletion(Sub(s, hf, val).0, hf, val, rng).0;
      forall q :: 0 <= q < s.nhashes ==> RowValues(u, hf, val)[q] == RowValues(s, hf, val)[q]
  {
    var t := Sub(s, hf, val).0;
    var u := AddDeletion(t, hf, val, rng).0;
    var v, w, x := RowValues(s, hf, val), RowValues(t, hf, val), RowValues(u, hf, val);
    SubValues(s, hf, val);
    AddDeletionValues(t, hf, val, rng);
    DownThenUp(v, w, x, Largest(s.nbits));
  }

  /** After `sub` then `add` of an item, no register outside its rows has moved. */
  lemma {:induction false} SubThenAddOthers(s: Sketch, hf: nat -> Word, val: Word, rng: nat -> Word)
    requires Valid(s) && s.policy == Increment && !s.conservative
    ensures var u := AddDeletion(Sub(s, hf, val).0, hf, val, rng).0;
      forall j :: 0 <= j < |s.data| && j !in Rows(s, hf, val) ==> u.data[j] == s.data[j]
  {
    var t := Sub(s, hf, val).0;
    SubIncrement(s, hf, val);
    AddDeletionRows(t, hf, val, rng);
    RowsKeepShape(s, t, hf, val);
  }

  /** Adding an item right after deleting it restores the sketch, as long as none of
      its row registers was empty. */
  lemma {:induction false} SubThenAddRestores(s: Sketch, hf: nat -> Word, val: Word, rng: nat -> Word)
    requires Valid(s) && s.policy == Increment && !s.conservative
    requires forall q :: 0 <= q < s.nhashes ==> RowValues(s, hf, val)[q] >= 1
    ensures AddDeletion(Sub(s, hf, val).0, hf, val, rng).0 == s
  {
    SubThenAddRows(s, hf, val, rng);
    SubThenAddOthers(s, hf, val, rng);
    SameRegisters(s, AddDeletion(Sub(s, hf, val).0, hf, val, rng).0, hf, val);
  }

  /** Deletion-mode `add` with ceiling `maxval` under `PowerOfTwo` stores the pass's
      values into the item's rows. */
  lemma {:induction false} AddPassStoresPowerOfTwo(s: Sketch, hf: nat -> Word, val: Word, maxval: int, rng: nat -> Word)
    requires Valid(s) && s.policy == PowerOfTwo && ShiftsDefined(s, hf, val)
    ensures var v := RowValues(s, hf, val);
      RowValues(AddPass(s, hf, val, maxval, rng).0, hf, val) == PowerOfTwoPass(s.nbits, maxval, v, s.cursor, rng).0
  {
    var v := RowValues(s, hf, val);
    var pass := PowerOfTwoPass(s.nbits, maxval, v, s.cursor, rng);
    ApplyRowValues(s, hf, val, pass.0, pass.1);
  }

  /** With the largest `nbits`-bit value as ceiling, a `PowerOfTwo` move never wraps. */
  lemma {:induction false} MovedBelowCeiling(nbits: nat, before: nat, after: nat)
    requires nbits >= 1 && before < Pow2(nbits)
    requires PowerOfTwoMoved(nbits, Largest(nbits), before, after)
    ensures before == 0 ==> after == 1
    ensures before != 0 ==> after == before || after == before + 1 <= Largest(nbits)
  {
  }

  /** Deletion-mode `add` under `PowerOfTwo`: an empty row register becomes 1, a full
      one stays full, and any other one keeps its value or gains one. */
  lemma {:induction false} AddDeletionPowerOfTwoRows(s: Sketch, hf: nat -> Word, val: Word, rng: nat -> Word)
    requires Valid(s) && s.policy == PowerOfTwo && ShiftsDefined(s, hf, val)
    ensures var v, w := RowValues(s, hf, val), RowValues(AddDeletion(s, hf, val, rng).0, hf, val);
      forall q :: 0 <= q < s.nhashes ==>
        && (v[q] == 0 ==> w[q] == 1)
        && (v[q] != 0 ==> w[q] == v[q] || w[q] == v[q] + 1 <= Largest(s.nbits))
  {
    var v, w := RowValues(s, hf, val), RowValues(AddDeletion(s, hf, val, rng).0, hf, val);
    AddPassStoresPowerOfTwo(s, hf, val, Largest(s.nbits), rng);
    PowerOfTwoPassSteps(s.nbits, Largest(s.nbits), v, s.cursor, rng);
    forall q | 0 <= q < s.nhashes
      ensures v[q] == 0 ==> w[q] == 1
      ensures v[q] != 0 ==> w[q] == v[q] || w[q] == v[q] + 1 <= Largest(s.nbits)
    {
      MovedBelowCeiling(s.nbits, v[q], w[q]);
    }
  }

  /** Deletion-mode `add` under `PowerOfTwo` never lowers the item's estimate. */
  lemma {:induction false} AddDeletionPowerOfTwoEstimate(s: Sketch, hf: nat -> Word, val: Word, rng: nat -> Word)
    requires Valid(s) && s.policy == PowerOfTwo && ShiftsDefined(s, hf, val) && s.nhashes >= 1
    ensures var t := AddDeletion(s, hf, val, rng).0;
      && Estimable(s, hf, val) && Estimable(t, hf, val)
      && EstCount(t, hf, val) >= EstCount(s, hf, val)
  {
    var t := AddDeletion(s, hf, val, rng).0;
    var v, w := RowValues(s, hf, val), RowValues(t, hf, val);
    AddDeletionPowerOfTwoRows(s, hf, val, rng);
    MinOfMonotone(v, w);
    var k :| 0 <= k < |w| && w[k] == MinOf(w);
    EstCountIsMin(s, hf, val);
    EstCountIsMin(t, hf, val);
    EstimateMonotone(PowerOfTwo, MinOf(v), MinOf(w));
  }

  /* ---------------- deletion-mode add as written ---------------- */

  /** A one-row sketch of one register holding `v`, whose hash sends every key to
      register 0. */
  function Tiny(nbits: nat, v: nat): Sketch
  {
    Sketch(Increment, false, nbits, 0, 1, 1, [0], [v], Cursor(0, 0, 0))
  }

  function ZeroHash(x: nat): Word { 0 }

  /** As written, deletion-mode `add` on a full one-bit register wraps it to 0: the
      item's estimate drops from 1 to 0. */
  lemma {:induction false} AddDeletionAsWrittenWraps()
    ensures Valid(Tiny(1, 1)) && RowValues(Tiny(1, 1), ZeroHash, 0) == [1]
    ensures var r := AddDeletionAsWritten(Tiny(1, 1), ZeroHash, 0, ZeroHash);
      RowValues(r.0, ZeroHash, 0) == [0] && EstCount(r.0, ZeroHash, 0) == 0
  {
    var s := Tiny(1, 1);
    assert Rows(s, ZeroHash, 0) == [0];
    AddPassStores(s, ZeroHash, 0, Pow2(1), ZeroHash);
    EstCountIsMin(AddDeletionAsWritten(s, ZeroHash, 0, ZeroHash).0, ZeroHash, 0);
  }

  /** As written, deletion-mode `add` under `Increment` returns one more than the
      count it leaves behind: on an empty two-bit register it returns 2 while the
      estimate is 1. */
  lemma {:induction false} AddDeletionAsWrittenOverReports()
    ensures Valid(Tiny(2, 0))
    ensures var r := AddDeletionAsWritten(Tiny(2, 0), ZeroHash, 0, ZeroHash);
      r.1 == 2 && EstCount(r.0, ZeroHash, 0) == 1
  {
    var s := Tiny(2, 0);
    assert Rows(s, ZeroHash, 0) == [0];
    AddPassStores(s, ZeroHash, 0, Pow2(2), ZeroHash);
    EstCountIsMin(AddDeletionAsWritten(s, ZeroHash, 0, ZeroHash).0, ZeroHash, 0);
  }

  /** The corrected deletion-mode `add` on the first sketch: the full register stays
      full and `add` returns the estimate, 1. */
  lemma {:induction false} AddDeletionKeepsFull()
    ensures Valid(Tiny(1, 1))
    ensures var r := AddDeletion(Tiny(1, 1), ZeroHash, 0, ZeroHash);
      EstCount(r.0, ZeroHash, 0) == 1 && r.1 == 1
  {
    AddDeletionIncrement(Tiny(1, 1), ZeroHash, 0, ZeroHash);
    EstCountIsMin(Tiny(1, 1), ZeroHash, 0);
    assert Rows(Tiny(1, 1), ZeroHash, 0) == [0];
  }

  /** The corrected deletion-mode `add` on the second sketch returns the estimate it
      leaves behind, 1. */
  lemma {:induction false} AddDeletionReportsEstimate()
    ensures Valid(Tiny(2, 0))
    ensures var r := AddDeletion(Tiny(2, 0), ZeroHash, 0, ZeroHash);
      EstCount(r.0, ZeroHash, 0) == 1 && r.1 == 1
  {
    AddDeletionIncrement(Tiny(2, 0), ZeroHash, 0, ZeroHash);
    EstCountIsMin(Tiny(2, 0), ZeroHash, 0);
    assert Rows(Tiny(2, 0), ZeroHash, 0) == [0];
  }

  /** Deletion-mode `add` as written moves the registers exactly as the corrected one
      does under `Increment` while no row register is full; only `ret` is one too
      high. */
  lemma {:induction false} AddDeletionAsWrittenAgrees(s: Sketch, hf: nat -> Word, val: Word, rng: nat -> Word)
    requires Valid(s) && s.nbits < 32 && s.policy == Increment
    requires forall q :: 0 <= q < s.nhashes ==> RowValues(s, hf, val)[q] < Largest(s.nbits)
    ensures var a, b := AddDeletionAsWritten(s, hf, val, rng), AddDeletion(s, hf, val, rng);
      a.0 == b.0 && a.1 == SsizeSucc(b.1)
    ensures s.nhashes >= 1 ==>
      AddDeletionAsWritten(s, hf, val, rng).1 == AddDeletion(s, hf, val, rng).1 + 1
  {
    var v := RowValues(s, hf, val);
    assert Bumped(s.nbits, Up(Pow2(s.nbits)), v) == Bumped(s.nbits, Up(Largest(s.nbits)), v);
    AddPassReturns(s, hf, val, Largest(s.nbits), rng);
    Pow2Of32();
    Pow2Monotone(s.nbits, 32);
  }

  /* ---------------- conservative add as written ---------------- */

  /** A one-register sketch reads that register for every item. */
  lemma {:induction false} OneRegisterRows(s: Sketch, hf: nat -> Word, val: Word)
    requires Valid(s) && s.nhashes == 1 && |s.data| == 1
    ensures Rows(s, hf, val) == [0] && RowValues(s, hf, val) == [s.data[0]]
    ensures MinOf(RowValues(s, hf, val)) == s.data[0]
  {
    var idx := Rows(s, hf, val);
    assert idx == [0];
    var v := RowValues(s, hf, val);
    assert v == [s.data[0]];
  }

  /** As written, conservative `add` on a one-row `Increment` sketch whose 32-bit
      register is full resets the register to 0: the item's estimate drops from
      `2^32 - 1` to 0. */
  lemma {:induction false} AddConservativeAsWrittenResets(s: Sketch, hf: nat -> Word, val: Word, rng: nat -> Word)
    requires Valid(s) && s.policy == Increment && s.nbits == 32 && s.nhashes == 1
    requires s.data == [0xFFFF_FFFF]
    ensures EstCount(s, hf, val) == 0xFFFF_FFFF
    ensures var t := AddConservativeAsWritten(s, hf, val, rng).0;
      t.data == [0] && EstCount(t, hf, val) == 0
  {
    OneRegisterRows(s, hf, val);
    IncrementEstimateIsMin(s, hf, val);
    var best := Keep(s.data, [0], 0xFFFF_FFFF);
    MinRowIsKept(s, hf, val);
    assert best[0] == 0;
    Pow2Of32();
    var t := AddConservativeAsWritten(s, hf, val, rng).0;
    assert t.data == IncrementRowsAsWritten(best, s.data, 32);
    assert t.data[0] == 0;
    OneRegisterRows(t, hf, val);
    IncrementEstimateIsMin(t, hf, val);
  }

  /** The corrected conservative `add` on the same sketch: the full register stays
      full and the estimate stays `2^32 - 1`. */
  lemma {:induction false} AddConservativeKeepsFull(s: Sketch, hf: nat -> Word, val: Word, rng: nat -> Word)
    requires Valid(s) && s.policy == Increment && s.nbits == 32 && s.nhashes == 1
    requires s.data == [0xFFFF_FFFF]
    ensures var t := AddConservative(s, hf, val, rng).0;
      t.data == [0xFFFF_FFFF] && EstCount(t, hf, val) == 0xFFFF_FFFF
  {
    OneRegisterRows(s, hf, val);
    Pow2Of32();
    AddConservativeData(s, hf, val, rng);
    var t := AddConservative(s, hf, val, rng).0;
    assert Raised(s, 0xFFFF_FFFF, rng) == 0xFFFF_FFFF;
    assert t.data[0] == 0xFFFF_FFFF;
    assert t.data == [0xFFFF_FFFF];
    OneRegisterRows(t, hf, val);
    IncrementEstimateIsMin(t, hf, val);
  }

  /* ---------------- sub as written ---------------- */

  /** Where a row's index comes from: chunk `chunk` of the hash of seed `seed`. */
  datatype Slot = Slot(seed: nat, chunk: nat)

  /** The slots `add` and `est_count` give rows `0 .. nhashes - 1`.  Their inner loop
      fixes its bound at entry, so seed `g` serves rows `g * nper ..`, `nper` of them
      while that many are left. */
  function AddSlots(nhashes: nat, nper: nat): (p: seq<Slot>)
    requires nper >= 1
    ensures |p| == nhashes
  {
    seq(nhashes, r requires 0 <= r < nhashes => Slot(r / nper, r % nper))
  }

  /** The first `e` chunks of seed `g`. */
  function SeedSlots(g: nat, e: nat): (p: seq<Slot>)
    ensures |p| == e
    ensures forall k :: 0 <= k < e ==> p[k] == Slot(g, k)
  {
    seq(e, k requires 0 <= k < e => Slot(g, k))
  }

  /** How many rows one seed serves in `sub`'s scalar loop when `left` rows are still
      to do.  The loop's bound `min(nper, nhashes - nhdone)` is evaluated again after
      every row, with `nhdone` already counted up, so the seed stops after
      `min(nper, ⌈left / 2⌉)` rows. */
  function SeedShare(nper: nat, left: nat): nat
  {
    Min(nper, (left + 1) / 2)
  }

  /** The slots `sub`'s scalar loop gives the rows from `done` on, starting at seed
      `g`: each seed serves its `SeedShare` of the rows left. */
  function SubSlots(nhashes: nat, nper: nat, done: nat, g: nat): (p: seq<Slot>)
    requires nper >= 1 && done <= nhashes
    ensures |p| == nhashes - done
    decreases nhashes - done
  {
    if done == nhashes then []
    else
      var e := SeedShare(nper, nhashes - done);
      SeedSlots(g, e) + SubSlots(nhashes, nper, done + e, g + 1)
  }

  /** A seed serves at least one of the rows left and at most all of them. */
  lemma {:induction false} SeedShareBounds(nper: nat, left: nat)
    requires nper >= 1 && left >= 1
    ensures 1 <= SeedShare(nper, left) <= left
  {
  }

  /** The test `k < min(nper, left - k)` of the inner loop, with `k` rows already
      served, passes exactly while the seed has not served its share. */
  lemma {:induction false} InnerBound(nper: nat, left: nat, k: nat)
    requires k <= SeedShare(nper, left) <= left
    ensures (k < Min(nper, left - k)) == (k < SeedShare(nper, left))
  {
  }

  /** The inner `for k` loop of `sub` as written for seed `g`, entered with `done`
      rows done: the slots it records and the row count it leaves. */
  method SeedLoop(nhashes: nat, nper: nat, done: nat, g: nat) returns (slots: seq<Slot>, nhdone: nat)
    requires nper >= 1 && done < nhashes
    ensures slots == SeedSlots(g, SeedShare(nper, nhashes - done))
    ensures nhdone == done + SeedShare(nper, nhashes - done) <= nhashes
  {
    ghost var e := SeedShare(nper, nhashes - done);
    SeedShareBounds(nper, nhashes - done);
    slots, nhdone := [], done;
    var k := 0;
    while k < Min(nper, nhashes - nhdone)
      invariant nhdone == done + k && k <= e
      invariant slots == SeedSlots(g, k)
      decreases nper - k
    {
      InnerBound(nper, nhashes - done, k);
      assert SeedSlots(g, k + 1) == SeedSlots(g, k) + [Slot(g, k)];
      slots := slots + [Slot(g, k)];
      k := k + 1;
      nhdone := nhdone + 1;
    }
    InnerBound(nper, nhashes - done, k);
  }

  /** The scalar loop of `sub` as written, recording the slot each row takes.  It
      computes `SubSlots`. */
  method SubSlotLoop(nhashes: nat, nper: nat) returns (p: seq<Slot>)
    requires nper >= 1
    ensures p == SubSlots(nhashes, nper, 0, 0)
  {
    p := [];
    var nhdone, seedind := 0, 0;
    while nhdone < nhashes
      invariant nhdone <= nhashes
      invariant p + SubSlots(nhashes, nper, nhdone, seedind) == SubSlots(nhashes, nper, 0, 0)
      decreases nhashes - nhdone
    {
      ghost var before, rest := p, SubSlots(nhashes, nper, nhdone, seedind);
      var slots, next := SeedLoop(nhashes, nper, nhdone, seedind);
      assert rest == slots + SubSlots(nhashes, nper, next, seedind + 1);
      p := p + slots;
      assert p + SubSlots(nhashes, nper, next, seedind + 1) == before + rest;
      nhdone, seedind := next, seedind + 1;
    }
  }

  /** Whether every seed the slots `p` read lies inside the seed list. */
  predicate SeedsCover(s: Sketch, p: seq<Slot>)
  {
    forall r :: 0 <= r < |p| ==> p[r].seed < |s.seeds|
  }

  /** Row `r`'s register when the row takes `slot`: the slot's chunk of its seed's
      hash, inside row `r`'s block. */
  function SlotIndex(s: Sketch, hf: nat -> Word, val: Word, slot: Slot, r: nat): (i: nat)
    requires |s.data| == s.nhashes * Pow2(s.l2sz)
    requires slot.seed < |s.seeds| && r < s.nhashes
    ensures r * Pow2(s.l2sz) <= i < r * Pow2(s.l2sz) + Pow2(s.l2sz)
    ensures i < |s.data|
  {
    var c := Chunk(hf(SeededKey(val, s.seeds[slot.seed])), slot.chunk, s.l2sz);
    SlotInBlock(c, r, Pow2(s.l2sz), s.nhashes, |s.data|);
    c + r * Pow2(s.l2sz)
  }

  /** The registers the rows take under the slots `p`, one per row. */
  function SlotRows(s: Sketch, hf: nat -> Word, val: Word, p: seq<Slot>): (idx: seq<nat>)
    requires Valid(s) && |p| == s.nhashes && SeedsCover(s, p)
    ensures |idx| == s.nhashes
    ensures forall r :: 0 <= r < |idx| ==> r * Pow2(s.l2sz) <= idx[r] < r * Pow2(s.l2sz) + Pow2(s.l2sz)
    ensures forall r :: 0 <= r < |idx| ==> idx[r] < |s.data|
  {
    seq(s.nhashes, r requires 0 <= r < s.nhashes => SlotIndex(s, hf, val, p[r], r))
  }

  /** Indices that lie in the blocks of their rows increase. */
  lemma {:induction false} BlockIndicesIncrease(idx: seq<nat>, w: nat)
    requires forall r :: 0 <= r < |idx| ==> r * w <= idx[r] < r * w + w
    ensures Increasing(idx)
  {
    forall a, b | 0 <= a < b < |idx|
      ensures idx[a] < idx[b]
    {
      MulMonotone(a + 1, b, w);
      assert (a + 1) * w == a * w + w;
    }
  }

  /** `stored[i]` written to register `idx[i]`: registers stay `nbits` bits wide. */
  function WriteRows(s: Sketch, idx: seq<nat>, stored: seq<nat>): (d: seq<int>)
    requires Valid(s) && |stored| == |idx| && Increasing(idx)
    requires forall i :: 0 <= i < |idx| ==> idx[i] < |s.data|
    requires forall i :: 0 <= i < |stored| ==> stored[i] < Pow2(s.nbits)
    ensures |d| == |s.data| && AllFit(d, s.nbits)
  {
    var d := WriteBack(s.data, idx, stored);
    assert AllFit(d, s.nbits) by {
      forall j | 0 <= j < |d| && j in idx
        ensures d[j] < Pow2(s.nbits)
      {
        var q :| 0 <= q < |idx| && idx[q] == j;
      }
    }
    d
  }

  const SeedsExhausted := "sub reads past the end of the seed list."

  /** `sub(val)` as written.  Refused with `SSIZE_MIN` unless the sketch counts with
      `Increment` and without conservative update.  Otherwise row `r` lowers the
      register of its `SubSlots` slot by one, wrapping in `nbits` bits, and `ret` is
      the smallest stored value.  A slot past the seed list is an out-of-bounds read
      of `seeds_`, which the model reports as a failure. */
  function SubAsWritten(s: Sketch, hf: nat -> Word, val: Word): (r: Result<(Sketch, int)>)
    requires Valid(s)
    ensures r.Failure? <==>
      s.policy == Increment && !s.conservative && !SeedsCover(s, SubSlots(s.nhashes, s.nper, 0, 0))
    ensures s.policy != Increment || s.conservative ==> r == Success((s, SsizeMin))
    ensures r.Success? ==> Valid(r.value.0) && SameConfig(s, r.value.0) && r.value.0.cursor == s.cursor
  {
    var p := SubSlots(s.nhashes, s.nper, 0, 0);
    if s.policy != Increment || s.conservative then Success((s, SsizeMin))
    else if !SeedsCover(s, p) then Failure(SeedsExhausted)
    else
      var idx := SlotRows(s, hf, val, p);
      BlockIndicesIncrease(idx, Pow2(s.l2sz));
      var stored := Bumped(s.nbits, Down, Gather(s.data, idx));
      Success((s.(data := WriteRows(s, idx, stored)), if |stored| == 0 then SsizeMax else MinOf(stored)))
  }

  /** On a deletion-mode `Increment` sketch whose slots stay inside the seed list,
      `sub` as written writes the decremented registers back. */
  lemma {:induction false} SubAsWrittenWrites(s: Sketch, hf: nat -> Word, val: Word, p: seq<Slot>,
                                              idx: seq<nat>, stored: seq<nat>)
    requires Valid(s) && s.policy == Increment && !s.conservative
    requires p == SubSlots(s.nhashes, s.nper, 0, 0) && SeedsCover(s, p)
    requires idx == SlotRows(s, hf, val, p) && stored == Bumped(s.nbits, Down, Gather(s.data, idx))
    ensures Increasing(idx)
    ensures SubAsWritten(s, hf, val)
         == Success((s.(data := WriteBack(s.data, idx, stored)), if |stored| == 0 then SsizeMax else MinOf(stored)))
  {
    BlockIndicesIncrease(idx, Pow2(s.l2sz));
  }

  /** Writing `stored` back at increasing indices and reading them again gives
      `stored`. */
  lemma {:induction false} WriteBackReadsBack(data: seq<int>, idx: seq<nat>, stored: seq<nat>)
    requires |stored| == |idx| && Increasing(idx) && forall i :: 0 <= i < |idx| ==> idx[i] < |data|
    ensures Gather(WriteBack(data, idx, stored), idx) == stored
  {
  }

  /** `sub` as written lowers each register its slots `p` pick by one, an empty one
      wrapping to the largest `nbits`-bit value. */
  lemma {:induction false} SubAsWrittenLowers(s: Sketch, hf: nat -> Word, val: Word, p: seq<Slot>)
    requires Valid(s) && s.policy == Increment && !s.conservative
    requires p == SubSlots(s.nhashes, s.nper, 0, 0) && SeedsCover(s, p)
    ensures var d, idx := SubAsWritten(s, hf, val).value.0.data, SlotRows(s, hf, val, p);
      forall q :: 0 <= q < s.nhashes ==>
        d[idx[q]] == if s.data[idx[q]] >= 1 then s.data[idx[q]] - 1 else Largest(s.nbits)
  {
    var idx := SlotRows(s, hf, val, p);
    var v := Gather(s.data, idx);
    var stored := Bumped(s.nbits, Down, v);
    SubAsWrittenWrites(s, hf, val, p, idx, stored);
    BumpedDown(s.nbits, v);
    var d := WriteBack(s.data, idx, stored);
    forall q | 0 <= q < s.nhashes
      ensures d[idx[q]] == if s.data[idx[q]] >= 1 then s.data[idx[q]] - 1 else Largest(s.nbits)
    {
      assert d[idx[q]] == stored[q];
      assert v[q] == s.data[idx[q]];
    }
  }

  /** `sub` as written leaves every register its slots do not pick alone. */
  lemma {:induction false} SubAsWrittenKeepsOthers(s: Sketch, hf: nat -> Word, val: Word, p: seq<Slot>)
    requires Valid(s) && s.policy == Increment && !s.conservative
    requires p == SubSlots(s.nhashes, s.nper, 0, 0) && SeedsCover(s, p)
    ensures var d, idx := SubAsWritten(s, hf, val).value.0.data, SlotRows(s, hf, val, p);
      forall j :: 0 <= j < |s.data| && j !in idx ==> d[j] == s.data[j]
  {
    var idx := SlotRows(s, hf, val, p);
    SubAsWrittenWrites(s, hf, val, p, idx, Bumped(s.nbits, Down, Gather(s.data, idx)));
  }

  /** `sub` as written returns the smallest value it stored. */
  lemma {:induction false} SubAsWrittenReturnsMin(s: Sketch, hf: nat -> Word, val: Word, p: seq<Slot>)
    requires Valid(s) && s.policy == Increment && !s.conservative
    requires p == SubSlots(s.nhashes, s.nper, 0, 0) && SeedsCover(s, p)
    ensures var r, idx := SubAsWritten(s, hf, val).value, SlotRows(s, hf, val, p);
      r.1 == if s.nhashes == 0 then SsizeMax else MinOf(Gather(r.0.data, idx))
  {
    var idx := SlotRows(s, hf, val, p);
    var stored := Bumped(s.nbits, Down, Gather(s.data, idx));
    SubAsWrittenWrites(s, hf, val, p, idx, stored);
    WriteBackReadsBack(s.data, idx, stored);
  }

  /** `sub` as written lowers each of the registers its slots `p` pick by one, an
      empty one wrapping to the largest `nbits`-bit value, leaves every other
      register alone, and returns the smallest stored value. */
  lemma {:induction false} SubAsWrittenStores(s: Sketch, hf: nat -> Word, val: Word, p: seq<Slot>)
    requires Valid(s) && s.policy == Increment && !s.conservative
    requires p == SubSlots(s.nhashes, s.nper, 0, 0) && SeedsCover(s, p)
    ensures var r, idx := SubAsWritten(s, hf, val).value, SlotRows(s, hf, val, p);
      && (forall q :: 0 <= q < s.nhashes ==>
            r.0.data[idx[q]] == if s.data[idx[q]] >= 1 then s.data[idx[q]] - 1 else Largest(s.nbits))
      && (forall j :: 0 <= j < |s.data| && j !in idx ==> r.0.data[j] == s.data[j])
      && r.1 == if s.nhashes == 0 then SsizeMax else MinOf(Gather(r.0.data, idx))
  {
    SubAsWrittenLowers(s, hf, val, p);
    SubAsWrittenKeepsOthers(s, hf, val, p);
    SubAsWrittenReturnsMin(s, hf, val, p);
  }

  /** With one row per hash word, `sub`'s slots are `add`'s. */
  lemma {:induction false} SubSlotsOnePerSeed(nhashes: nat, done: nat, g: nat)
    requires done <= nhashes
    ensures forall r :: 0 <= r < nhashes - done ==> SubSlots(nhashes, 1, done, g)[r] == Slot(g + r, 0)
    decreases nhashes - done
  {
    if done < nhashes {
      SubSlotsOnePerSeed(nhashes, done + 1, g + 1);
    }
  }

  /** With one row per hash word, or at most one row, `sub`'s slots are `add`'s. */
  lemma {:induction false} SubSlotsAgree(nhashes: nat, nper: nat)
    requires nper == 1 || (nper >= 1 && nhashes <= 1)
    ensures SubSlots(nhashes, nper, 0, 0) == AddSlots(nhashes, nper)
  {
    if nper == 1 {
      SubSlotsOnePerSeed(nhashes, 0, 0);
    }
  }

  /** `add`'s slots read only seeds in the list, and give the rows `add` uses. */
  lemma {:induction false} AddSlotRows(s: Sketch, hf: nat -> Word, val: Word, p: seq<Slot>)
    requires Valid(s) && p == AddSlots(s.nhashes, s.nper)
    ensures SeedsCover(s, p)
    ensures SlotRows(s, hf, val, p) == Rows(s, hf, val)
  {
    forall r | 0 <= r < s.nhashes
      ensures p[r].seed < |s.seeds|
    {
      DivBelow(r, s.nper, |s.seeds|);
    }
    var idx := SlotRows(s, hf, val, p);
    forall r | 0 <= r < s.nhashes
      ensures idx[r] == RowIndex(Shape(s), hf, val, r)
    {
      assert p[r] == Slot(r / s.nper, r % s.nper);
    }
    SameAsRows(s, hf, val, idx);
  }

  /** The corrected `sub` on a deletion-mode `Increment` sketch writes the
      decremented row registers back. */
  lemma {:induction false} SubWrites(s: Sketch, hf: nat -> Word, val: Word, idx: seq<nat>, stored: seq<nat>)
    requires Valid(s) && s.policy == Increment && !s.conservative
    requires idx == Rows(s, hf, val) && stored == Bumped(s.nbits, Down, Gather(s.data, idx))
    ensures Increasing(idx)
    ensures Sub(s, hf, val)
         == (s.(data := WriteBack(s.data, idx, stored)), if |stored| == 0 then SsizeMax else MinOf(stored))
  {
    RowsDistinct(s, hf, val);
  }

  /** `sub` as written picks the registers `add` raises, and so is the corrected
      `sub`, whenever its slots are `add`'s: in particular with one row per hash word
      or at most one row (`SubSlotsAgree`). */
  lemma {:induction false} SubAsWrittenAgrees(s: Sketch, hf: nat -> Word, val: Word)
    requires Valid(s) && SubSlots(s.nhashes, s.nper, 0, 0) == AddSlots(s.nhashes, s.nper)
    ensures SubAsWritten(s, hf, val) == Success(Sub(s, hf, val))
  {
    if s.policy == Increment && !s.conservative {
      var p := SubSlots(s.nhashes, s.nper, 0, 0);
      AddSlotRows(s, hf, val, p);
      var idx := Rows(s, hf, val);
      var stored := Bumped(s.nbits, Down, Gather(s.data, idx));
      SubAsWrittenWrites(s, hf, val, p, idx, stored);
      SubWrites(s, hf, val, idx, stored);
    }
  }

  /** `sub`'s slots on four rows carved from one hash word. */
  lemma {:induction false} SubSlotsFourByFour()
    ensures SubSlots(4, 4, 0, 0) == [Slot(0, 0), Slot(0, 1), Slot(1, 0), Slot(2, 0)]
  {
    assert SubSlots(4, 4, 4, 3) == [];
    assert SeedSlots(2, 1) == [Slot(2, 0)];
    assert SubSlots(4, 4, 3, 2) == SeedSlots(2, 1) + SubSlots(4, 4, 4, 3);
    assert SeedSlots(1, 1) == [Slot(1, 0)];
    assert SubSlots(4, 4, 2, 1) == SeedSlots(1, 1) + SubSlots(4, 4, 3, 2);
    assert SeedSlots(0, 2) == [Slot(0, 0), Slot(0, 1)];
    assert SubSlots(4, 4, 0, 0) == SeedSlots(0, 2) + SubSlots(4, 4, 2, 1);
  }

  /** `add`'s slots on four rows carved from one hash word. */
  lemma {:induction false} AddSlotsFourByFour()
    ensures AddSlots(4, 4) == [Slot(0, 0), Slot(0, 1), Slot(0, 2), Slot(0, 3)]
  {
  }

  /** A sketch of four rows carved from one hash word, with the constructor's seed
      count, has one seed. */
  lemma {:induction false} FourByFourOneSeed(s: Sketch)
    requires Valid(s) && s.nper == 4 && s.nhashes == 4 && (|s.seeds| - 1) * s.nper < s.nhashes
    ensures |s.seeds| == 1
  {
    var n := |s.seeds|;
    assert n * 4 >= 4 && (n - 1) * 4 < 4;
  }

  /** As written, `sub` on four rows carved from one hash word, for which the
      constructor draws a single seed, takes the slots (0, 0), (0, 1), (1, 0) and
      (2, 0) where `add` takes (0, 0) to (0, 3): rows 2 and 3 come from other seeds,
      which lie past the end of the seed list. */
  lemma {:induction false} SubAsWrittenReadsPastSeeds(s: Sketch, hf: nat -> Word, val: Word)
    requires Valid(s) && s.policy == Increment && !s.conservative
    requires s.nper == 4 && s.nhashes == 4 && (|s.seeds| - 1) * s.nper < s.nhashes
    ensures AddSlots(4, 4) == [Slot(0, 0), Slot(0, 1), Slot(0, 2), Slot(0, 3)]
    ensures SubSlots(4, 4, 0, 0) == [Slot(0, 0), Slot(0, 1), Slot(1, 0), Slot(2, 0)]
    ensures |s.seeds| == 1
    ensures SubAsWritten(s, hf, val).Failure?
  {
    AddSlotsFourByFour();
    SubSlotsFourByFour();
    FourByFourOneSeed(s);
    var p := SubSlots(s.nhashes, s.nper, 0, 0);
    assert p[2].seed == 1;
    assert !SeedsCover(s, p);
  }

  /* ---------------- add ---------------- */

  /** What `add(val)` needs: a conservative sketch reads `indices[0]`, so it needs a
      row, and `PowerOfTwo` shifts by the register it raises, which must stay below
      64. */
  predicate CanAdd(s: Sketch, hf: nat -> Word, val: Word)
    requires Valid(s)
  {
    if s.conservative then
      s.nhashes >= 1 && (s.policy == PowerOfTwo ==> MinOf(RowValues(s, hf, val)) < 64)
    else ShiftsDefined(s, hf, val)
  }

  /** `add(val)`: conservative update when `conservative_update` is set, deletion
      mode otherwise. */
  function Add(s: Sketch, hf: nat -> Word, val: Word, rng: nat -> Word): (r: (Sketch, int))
    requires Valid(s) && CanAdd(s, hf, val)
    ensures Valid(r.0) && SameConfig(s, r.0)
  {
    if s.conservative then AddConservative(s, hf, val, rng) else AddDeletion(s, hf, val, rng)
  }

  /** `add(val)` as written: conservative `add` as written, or deletion-mode `add` as
      written, whose ceiling `1u << nbits` needs `nbits` below 32. */
  function AddAsWritten(s: Sketch, hf: nat -> Word, val: Word, rng: nat -> Word): (r: (Sketch, int))
    requires Valid(s) && CanAdd(s, hf, val)
    requires !s.conservative ==> s.nbits < 32
    ensures Valid(r.0) && SameConfig(s, r.0)
    ensures s.conservative && (s.policy == PowerOfTwo || MinOf(RowValues(s, hf, val)) < 0xFFFF_FFFF) ==>
      r == Add(s, hf, val, rng)
    ensures (&& !s.conservative && s.policy == Increment
             && forall q :: 0 <= q < s.nhashes ==> RowValues(s, hf, val)[q] < Largest(s.nbits)) ==>
      r.0 == Add(s, hf, val, rng).0 && r.1 == SsizeSucc(Add(s, hf, val, rng).1)
  {
    if s.conservative then
      if s.policy == PowerOfTwo || MinOf(RowValues(s, hf, val)) < 0xFFFF_FFFF then
        AddConservativeAsWrittenAgrees(s, hf, val, rng);
        AddConservativeAsWritten(s, hf, val, rng)
      else AddConservativeAsWritten(s, hf, val, rng)
    else
      if s.policy == Increment && forall q :: 0 <= q < s.nhashes ==> RowValues(s, hf, val)[q] < Largest(s.nbits) then
        AddDeletionAsWrittenAgrees(s, hf, val, rng);
        AddDeletionAsWritten(s, hf, val, rng)
      else AddDeletionAsWritten(s, hf, val, rng)
  }

  /** Under `Increment`, in either mode, the corrected `add` raises the item's
      estimate by exactly one as long as its smallest row register has room, and
      returns the new estimate. */
  lemma {:induction false} AddCountsOne(s: Sketch, hf: nat -> Word, val: Word, rng: nat -> Word)
    requires Valid(s) && s.policy == Increment && s.nhashes >= 1
    requires MinOf(RowValues(s, hf, val)) < Largest(s.nbits)
    ensures var r := Add(s, hf, val, rng);
      && EstCount(r.0, hf, val) == EstCount(s, hf, val) + 1
      && r.1 == EstCount(r.0, hf, val)
  {
    EstCountIsMin(s, hf, val);
    if s.conservative {
      AddConservativeIncrement(s, hf, val, rng);
    } else {
      AddDeletionIncrement(s, hf, val, rng);
    }
  }

  /* ---------------- clear, merge and intersect ---------------- */

  /** `clear()`: every register becomes 0. */
  function Clear(s: Sketch): (r: Sketch)
    requires Valid(s)
    ensures Valid(r) && SameConfig(s, r) && r.cursor == s.cursor
    ensures |r.data| == |s.data| && forall j :: 0 <= j < |r.data| ==> r.data[j] == 0
  {
    s.(data := seq(|s.data|, _ => 0))
  }

  /** After `clear()` every item's estimate is 0. */
  lemma {:induction false} ClearForgets(s: Sketch, hf: nat -> Word, val: Word)
    requires Valid(s) && s.nhashes >= 1
    ensures Estimable(Clear(s), hf, val) && EstCount(Clear(s), hf, val) == 0
  {
    var z := Clear(s);
    var v := RowValues(z, hf, val);
    assert v[0] == 0;
    MinOfIs(v, 0);
    EstCountIsMin(z, hf, val);
  }

  const DifferentHashes := "Could not add sketches together with different hash functions."

  /** Register-wise `+=` as written: each register takes the policy's `combine` of
      both, stored into `nbits` bits; under `PowerOfTwo` two empty registers make 1. */
  function Combined(s: Sketch, t: Sketch): (d: seq<int>)
    requires Valid(s) && Valid(t) && |t.data| >= |s.data|
    ensures |d| == |s.data| && AllFit(d, s.nbits)
  {
    seq(|s.data|, j requires 0 <= j < |s.data| => Store(s.nbits, CombineAsWritten(s.policy, s.data[j], t.data[j])))
  }

  /** `operator+=` as written: refused when the seed lists differ; otherwise every
      register takes `combine` of both. */
  function Merge(s: Sketch, t: Sketch): (r: Result<Sketch>)
    requires Valid(s) && Valid(t) && |t.data| >= |s.data|
    ensures r.Failure? <==> s.seeds != t.seeds
    ensures r.Failure? ==> r.error == DifferentHashes
    ensures r.Success? ==> Valid(r.value) && SameConfig(s, r.value) && r.value.cursor == s.cursor
    ensures r.Success? ==> forall j :: 0 <= j < |s.data| ==>
      r.value.data[j] == Store(s.nbits, CombineAsWritten(s.policy, s.data[j], t.data[j]))
  {
    if s.seeds != t.seeds then Failure(DifferentHashes)
    else Success(s.(data := Combined(s, t)))
  }

  /** Register-wise `+=` as intended: two empty `PowerOfTwo` registers stay empty. */
  function CombinedCorrected(s: Sketch, t: Sketch): (d: seq<int>)
    requires Valid(s) && Valid(t) && |t.data| >= |s.data|
    ensures |d| == |s.data| && AllFit(d, s.nbits)
  {
    seq(|s.data|, j requires 0 <= j < |s.data| => Store(s.nbits, Combine(s.policy, s.data[j], t.data[j])))
  }

  /** `operator+=` as intended, with the corrected `PowerOfTwo` `combine`. */
  function MergeCorrected(s: Sketch, t: Sketch): (r: Result<Sketch>)
    requires Valid(s) && Valid(t) && |t.data| >= |s.data|
    ensures r.Failure? <==> s.seeds != t.seeds
    ensures r.Failure? ==> r.error == DifferentHashes
    ensures r.Success? ==> Valid(r.value) && SameConfig(s, r.value) && r.value.cursor == s.cursor
    ensures r.Success? ==> forall j :: 0 <= j < |s.data| ==>
      r.value.data[j] == Store(s.nbits, Combine(s.policy, s.data[j], t.data[j]))
  {
    if s.seeds != t.seeds then Failure(DifferentHashes)
    else Success(s.(data := CombinedCorrected(s, t)))
  }

  /** Both merges agree under `Increment`, and under `PowerOfTwo` whenever no
      position is empty in both sketches. */
  lemma {:induction false} MergeAgrees(s: Sketch, t: Sketch)
    requires Valid(s) && Valid(t) && |t.data| >= |s.data|
    requires s.policy == Increment || forall j :: 0 <= j < |s.data| ==> s.data[j] != 0 || t.data[j] != 0
    ensures Merge(s, t) == MergeCorrected(s, t)
  {
    var a, b := Combined(s, t), CombinedCorrected(s, t);
    assert forall j :: 0 <= j < |s.data| ==> a[j] == b[j];
    assert a == b;
  }

  /** Merging two sketches of the same shape gives the same registers either way. */
  lemma {:induction false} MergeCommutes(s: Sketch, t: Sketch)
    requires Valid(s) && Valid(t) && SameConfig(s, t)
    ensures Merge(s, t).Success? && Merge(t, s).Success?
    ensures Merge(s, t).value.data == Merge(t, s).value.data
  {
    forall j | 0 <= j < |s.data|
      ensures Combined(s, t)[j] == Combined(t, s)[j]
    {
      CombineAsWrittenCommutes(s.policy, s.data[j], t.data[j]);
    }
  }

  /** As written, `+=` of two cleared `PowerOfTwo` sketches sets every register to 1,
      so every item, estimated 0 in both, is estimated 1 afterwards. */
  lemma {:induction false} MergeClearedAsWrittenCounts(s: Sketch, hf: nat -> Word, val: Word)
    requires Valid(s) && s.policy == PowerOfTwo && s.nhashes >= 1
    ensures EstCount(Clear(s), hf, val) == 0
    ensures Merge(Clear(s), Clear(s)).Success?
    ensures var m := Merge(Clear(s), Clear(s)).value;
      && (forall j :: 0 <= j < |m.data| ==> m.data[j] == 1)
      && Estimable(m, hf, val) && EstCount(m, hf, val) == 1
  {
    var z := Clear(s);
    ClearForgets(s, hf, val);
    var m := Merge(z, z).value;
    assert Pow2(s.nbits) >= 2;
    assert forall j :: 0 <= j < |m.data| ==> m.data[j] == 1;
    RowsKeepShape(s, m, hf, val);
    var v := RowValues(m, hf, val);
    assert v[0] == 1;
    MinOfIs(v, 0);
    EstCountIsMin(m, hf, val);
  }

  /** With the corrected `combine`, merging a cleared copy of a sketch into it
      changes nothing. */
  lemma {:induction false} MergeClearedIsIdentity(s: Sketch)
    requires Valid(s)
    ensures MergeCorrected(s, Clear(s)) == Success(s)
  {
    var d := CombinedCorrected(s, Clear(s));
    forall j | 0 <= j < |s.data|
      ensures d[j] == s.data[j]
    {
    }
    assert d == s.data;
  }

  /** Under `Increment`, when no register overflows, a merged sketch's rows hold the
      sums of both inputs' rows. */
  lemma {:induction false} MergeIncrementRows(s: Sketch, t: Sketch, hf: nat -> Word, val: Word)
    requires Valid(s) && Valid(t) && SameConfig(s, t) && s.policy == Increment
    requires forall j :: 0 <= j < |s.data| ==> s.data[j] + t.data[j] < Pow2(s.nbits)
    ensures Merge(s, t).Success?
    ensures forall q :: 0 <= q < s.nhashes ==>
      RowValues(Merge(s, t).value, hf, val)[q] == RowValues(s, hf, val)[q] + RowValues(t, hf, val)[q]
  {
    RowsKeepShape(s, t, hf, val);
    RowsKeepShape(s, Merge(s, t).value, hf, val);
  }

  /** So a merged `Increment` sketch estimates at least the sum of both inputs'
      estimates. */
  lemma {:induction false} MergeIncrementAdds(s: Sketch, t: Sketch, hf: nat -> Word, val: Word)
    requires Valid(s) && Valid(t) && SameConfig(s, t) && s.policy == Increment && s.nhashes >= 1
    requires forall j :: 0 <= j < |s.data| ==> s.data[j] + t.data[j] < Pow2(s.nbits)
    ensures Merge(s, t).Success?
    ensures EstCount(Merge(s, t).value, hf, val) >= EstCount(s, hf, val) + EstCount(t, hf, val)
  {
    var m := Merge(s, t).value;
    MergeIncrementRows(s, t, hf, val);
    var u, v, w := RowValues(s, hf, val), RowValues(t, hf, val), RowValues(m, hf, val);
    MinOfSum(u, v, w);
    EstCountIsMin(s, hf, val);
    EstCountIsMin(t, hf, val);
    EstCountIsMin(m, hf, val);
  }

  /** Register-wise `&=`: each register keeps the smaller of both. */
  function Intersected(s: Sketch, t: Sketch): (d: seq<int>)
    requires Valid(s) && Valid(t) && |t.data| >= |s.data|
    ensures |d| == |s.data| && AllFit(d, s.nbits)
  {
    seq(|s.data|, j requires 0 <= j < |s.data| => Min(s.data[j], t.data[j]))
  }

  /** `operator&=`: refused when the seed lists differ; otherwise every register keeps
      the smaller value. */
  function Intersect(s: Sketch, t: Sketch): (r: Result<Sketch>)
    requires Valid(s) && Valid(t) && |t.data| >= |s.data|
    ensures r.Failure? <==> s.seeds != t.seeds
    ensures r.Failure? ==> r.error == DifferentHashes
    ensures r.Success? ==> Valid(r.value) && SameConfig(s, r.value) && r.value.cursor == s.cursor
    ensures r.Success? ==> forall j :: 0 <= j < |s.data| ==> r.value.data[j] == Min(s.data[j], t.data[j])
  {
    if s.seeds != t.seeds then Failure(DifferentHashes)
    else Success(s.(data := Intersected(s, t)))
  }

  /** Intersecting a sketch with itself changes nothing. */
  lemma {:induction false} IntersectIdempotent(s: Sketch)
    requires Valid(s)
    ensures Intersect(s, s) == Success(s)
  {
    assert Intersected(s, s) == s.data;
  }

  /** Intersecting two sketches of the same shape gives the same registers either way. */
  lemma {:induction false} IntersectCommutes(s: Sketch, t: Sketch)
    requires Valid(s) && Valid(t) && SameConfig(s, t)
    ensures Intersect(s, t).Success? && Intersect(t, s).Success?
    ensures Intersect(s, t).value.data == Intersect(t, s).value.data
  {
    assert Intersected(s, t) == Intersected(t, s);
  }

  /** An intersection's rows hold the smaller of both inputs' rows. */
  lemma {:induction false} IntersectRows(s: Sketch, t: Sketch, hf: nat -> Word, val: Word)
    requires Valid(s) && Valid(t) && SameConfig(s, t)
    ensures Intersect(s, t).Success?
    ensures forall q :: 0 <= q < s.nhashes ==>
      RowValues(Intersect(s, t).value, hf, val)[q] == Min(RowValues(s, hf, val)[q], RowValues(t, hf, val)[q])
  {
    RowsKeepShape(s, t, hf, val);
    RowsKeepShape(s, Intersect(s, t).value, hf, val);
  }

  /** So an intersection never estimates more than either input. */
  lemma {:induction false} IntersectEstimatesBelow(s: Sketch, t: Sketch, hf: nat -> Word, val: Word)
    requires Valid(s) && Valid(t) && SameConfig(s, t) && s.nhashes >= 1
    requires Estimable(s, hf, val) && Estimable(t, hf, val)
    ensures Intersect(s, t).Success?
    ensures var m := Intersect(s, t).value;
      && Estimable(m, hf, val)
      && EstCount(m, hf, val) <= EstCount(s, hf, val)
      && EstCount(m, hf, val) <= EstCount(t, hf, val)
  {
    var m := Intersect(s, t).value;
    IntersectRows(s, t, hf, val);
    var u, v, w := RowValues(s, hf, val), RowValues(t, hf, val), RowValues(m, hf, val);
    MinOfMonotone(w, u);
    MinOfMonotone(w, v);
    EstCountIsMin(s, hf, val);
    EstCountIsMin(t, hf, val);
    EstimateMonotone(s.policy, MinOf(w), MinOf(u));
    EstimateMonotone(s.policy, MinOf(w), MinOf(v));
    EstCountIsMin(m, hf, val);
  }
}
