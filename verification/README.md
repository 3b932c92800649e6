# Count-Min and Count sketches of `hll`, modelled in Dafny

This project models the counting core of the `hll` C++ library:

- **`ccmbase_t`** is a Count-Min sketch with `nhashes` rows of `2^l2sz` registers, each `nbits` wide. Its scalar paths are modelled:
  - the constructor and its argument checks;
  - the derivation of row indices from one 64-bit hash per seed;
  - the two counter policies, the saturating `update::Increment` and the probabilistic `update::PowerOfTwo`, plus the `detail::range_check` saturation test;
  - conservative `add`, deletion-mode `add` and `sub`;
  - `est_count`, `clear`, `operator+=` and `operator&=`.
- **`csbase_t` and `cs4wbase_t`** are the two count sketches:
  - the signed ±1 register updates `add`/`sub` and their row index and sign;
  - `addh`/`subh` and `addh_val`/`subh_val`;
  - the median-style `est_count` and the register-wise `operator+=`.
- **The 64-bit word functions** of common.h and src/timerevhash.cpp:
  - Thomas Wang's hash and Geoffrey Irving's inverse of it;
  - the Murmur3 finalizer (`finalize`, `MurFinHash`);
  - `is_pow2`.

Every operation is a pure function over immutable values. A sketch is a datatype holding its configuration and a `seq<int>` of registers. An operation that updates a sketch returns the new sketch, paired with the value the C++ member returns. A thrown `std::runtime_error` becomes a `Failure` that carries its message.

The code's collaborators become parameters, since their code is not available:

| collaborator | modelled as |
|---|---|
| hash functor `hf_` | a function `hf: nat -> Word` on 64-bit words |
| `KWiseHasherSet<4>` | a function `hf(seed, val, row)` |
| `mt19937_64` / `DefaultRNGType` | a function `rng: nat -> Word` giving the generator's `i`-th output |
| `lut::nhashesper64bitword[l2sz]` | a field `nper >= 1` with `nper * l2sz <= 64` |

The registers of `compact::vector` keep the low `nbits` bits of what is written to them (`CountMin.Store`). The hash functions work on `bv64`, so their wrap-around is the bit-vector arithmetic itself. Elsewhere integers are unbounded, and the wrap-arounds the model depends on are written out explicitly.

Files:

| file | contents |
|---|---|
| `arith.dfy` | powers of two, shifts, masks and xor on naturals |
| `wrappers.dfy` | `Result` |
| `hash.dfy` | WangHash, irving_inv_hash, finalize/MurFinHash, is_pow2 |
| `policy.dfy` | range_check, `Increment`, `PowerOfTwo` |
| `countmin.dfy` | `ccmbase_t` |
| `sorting.dfy` | insertion sort and the median of the sorted readings |
| `counters.dfy` | the signed register table both count sketches share |
| `countsketch.dfy` | `csbase_t` |
| `countsketch4.dfy` | `cs4wbase_t` |

## Model

| member | source | states |
|---|---|---|
| Hash.WangMix21IsAffine | common.h:90 | the first WangHash step is `key * 2^21 + ~key`, i.e. `key * 2^21 - key - 1` modulo 2^64, as its comment says |
| Hash.WangMul265IsProduct | common.h:92 | `(key + (key << 3)) + (key << 8)` is `key * 265` modulo 2^64 |
| Hash.WangMul21IsProduct | common.h:94 | `(key + (key << 2)) + (key << 4)` is `key * 21` modulo 2^64 |
| Hash.InverseConstants | src/timerevhash.cpp:24-32 | 14933078535860113213 * 21 and 15244667743933553977 * 265 are both 1 modulo 2^64 |
| Hash.AddShl31RoundTrip | src/timerevhash.cpp:18-20 | lines 19-20 undo `key + (key << 31)` and are undone by it, for every word |
| Hash.XorShift28RoundTrip | src/timerevhash.cpp:21-23 | lines 22-23 and `x ^ (x >> 28)` are mutual inverses |
| Hash.Mul21RoundTrip | src/timerevhash.cpp:24-25 | line 25 and the step `key * 21` are mutual inverses |
| Hash.XorShift14RoundTrip | src/timerevhash.cpp:26-30 | lines 27-30 and `x ^ (x >> 14)` are mutual inverses |
| Hash.Mul265RoundTrip | src/timerevhash.cpp:31-32 | line 32 and the step `key * 265` are mutual inverses |
| Hash.XorShift24RoundTrip | src/timerevhash.cpp:33-35 | lines 34-35 and `x ^ (x >> 24)` are mutual inverses |
| Hash.Mix21RoundTrip | src/timerevhash.cpp:36-40 | lines 37-40 and `(~x) + (x << 21)` are mutual inverses |
| Hash.WangHash | common.h:88-98 | `irving_inv_hash` undoes the hash: `irving_inv_hash(WangHash(k)) == k` for every 64-bit `k` |
| Hash.IrvingInvHash | src/timerevhash.cpp:16-42 | WangHash's seven steps (common.h:90-96) applied to `irving_inv_hash(h)` give back `h` for every word, so WangHash is onto as well as one-to-one |
| Hash.WangHashInjective | common.h:86-98 | distinct keys have distinct WangHash values |
| Hash.MurFinHash | common.h:111-119 | the scalar `MurFinHash` computes the same function as `finalize` |
| Hash.XorShift33SelfInverse | common.h:75 | `x ^ (x >> 33)` is its own inverse |
| Hash.FinMulRoundTrip | common.h:76-78 | both finalizer multiplications are undone by multiplying by their inverses modulo 2^64 |
| Hash.Finalize | common.h:73-81 | the Murmur3 finalizer is invertible: `UnFinalize(finalize(k)) == k` for every word |
| Hash.BitPassesIsPow2 | common.h:150-153 | every word with exactly one set bit passes `is_pow2` |
| Hash.IsPow2HasSingleBit | common.h:151-152 | every word that passes `is_pow2` is a single set bit `1 << k` |
| Policy.RangeCheck | ccm.h:86-98 | 0 exactly when the value fits the register kind, -1 exactly when a signed value is below `-2^(nbits-1)`, 1 in every other case; floating-point values always fit |
| Policy.IncrementRegister | ccm.h:105-109 | the scalar `Increment` step adds one below `maxval` and leaves a register at or above `maxval` alone |
| Policy.IncrementSaturates | ccm.h:103-109 | `n` scalar steps from at most `maxval` give `min(ref + n, maxval)` |
| Policy.WriteAll | ccm.h:115-116 | every listed register holds the value afterwards and every other register is unchanged |
| Policy.IncrementedCount | ccm.h:112-113 | the `unsigned` count is the register plus one below 2^32, and a full 32-bit register wraps to 0 |
| Policy.IncrementRowsAsWritten | ccm.h:110-118 | the multi-register step writes the 32-bit count to every listed register when it is below `2^nbits`, and otherwise changes nothing |
| Policy.IncrementRowsAsWrittenResets | ccm.h:112-116 | as written, one full 32-bit register is reset to 0 |
| Policy.IncrementRows | ccm.h:110-118 | corrected step: every listed register takes the first one plus one when that fits in `nbits` bits, otherwise nothing changes |
| Policy.IncrementRowsFit | ccm.h:114-116 | the corrected multi-register step writes only values that fit in `nbits` bits |
| Policy.IncrementRowsAsWrittenFit | ccm.h:114-116 | the step as written also writes only values that fit in `nbits` bits |
| Policy.IncrementRowsAgree | ccm.h:110-118 | the step as written is the corrected step unless the first listed register is a full 32-bit one |
| Policy.NewCursor | ccm.h:226 | the constructor's random-bit cursor is valid: 64 unused bits of the first generator word |
| Policy.Refill | ccm.h:195 | with fewer unused bits than needed, the cursor takes the generator's next word with 64 fresh bits; otherwise it is unchanged |
| Policy.PowerOfTwoRegister | ccm.h:187-200 | an empty register becomes 1 and one at or above `maxval` stays; any other gains one exactly when the next `ref` random bits are zero, and those bits are consumed |
| Policy.ConsumeKeepsValid | ccm.h:198 | consuming bits leaves a cursor that holds no more bits than it claims |
| Policy.RefillKeepsValid | ccm.h:195 | a refilled cursor is valid and holds at least the bits needed |
| Policy.PowerOfTwoRegisterKeepsCursor | ccm.h:187-200 | the scalar `PowerOfTwo` step keeps the cursor valid |
| Policy.PowerOfTwoRows | ccm.h:201-219 | an empty first register sets every listed register to 1 without drawing bits; otherwise the listed registers become `val + 1` exactly when the next `val` bits are zero and `val + 1` fits, and `val` bits are consumed either way |
| Policy.PowerOfTwoRowsKeepsCursor | ccm.h:208-217 | the multi-register `PowerOfTwo` step keeps the cursor valid |
| Policy.PowerOfTwoRowsFit | ccm.h:210-214 | the multi-register `PowerOfTwo` step writes only values that fit in `nbits` bits |
| Policy.Estimate | ccm.h:227-229 | `PowerOfTwo` reads a register `v` as `2^(v-1)` and an empty register as 0, and `Increment` reads a register as its own value |
| Policy.EstimateMonotone | ccm.h:227-229 | a larger register never stands for a smaller count |
| Policy.PowerOfTwoCombineAsWritten | ccm.h:220-225 | as written, `PowerOfTwo::combine` is at least either input; equal inputs give one more than either, different ones the larger |
| Policy.PowerOfTwoCombineAsWrittenInventsCount | ccm.h:220-225 | as written, combining two empty `PowerOfTwo` registers gives 1, which reads as a count of one |
| Policy.Combine | ccm.h:220-225 | corrected `combine`: under `PowerOfTwo` the result is empty exactly when both inputs are, lies between the larger input and one above it, and is one above only for equal inputs |
| Policy.CombineAsWritten | ccm.h:220-225 | `combine` as written agrees with the corrected one, except on two empty `PowerOfTwo` registers, where it gives 1 instead of 0 |
| Policy.CombineAsWrittenCommutes | ccm.h:220-225 | `combine` as written is symmetric for both policies |
| Policy.CombineCommutes | ccm.h:220-225 | corrected `combine` is symmetric for both policies; the `Increment` sum of lines 124-128 included |
| Policy.CombineCoversBoth | ccm.h:220-225 | under corrected `combine`, a combined register is empty exactly when both inputs are, and reads at least as much as either input |
| Policy.CombineEqualDoubles | ccm.h:220-225 | combining, as written or corrected, two equal nonzero `PowerOfTwo` registers doubles the count they stand for |
| CountMin.Store | ccm.h:290-291 | an `nbits`-bit register keeps a value below `2^nbits`; in-range values unchanged, -1 becomes the largest value and `2^nbits` becomes 0 |
| CountMin.Create | ccm.h:289-310 | negative `nbits`, `l2sz`, `nhashes` fail with their messages, in that order; otherwise `nhashes << l2sz` zeroed registers and the fewest generator seeds covering every row |
| CountMin.RowIndex | ccm.h:475-489 | each row's register index lies inside the table |
| CountMin.RowIndexInBlock | ccm.h:479 | row `r`'s index lies in `[r * 2^l2sz, (r + 1) * 2^l2sz)` |
| CountMin.RowsDistinct | ccm.h:479 | different rows of an item never share a register |
| CountMin.ChunkIsRowIndex | ccm.h:477-479 | chunk `k` of seed `g`'s hash, offset by its row's block, is the index of row `g * nper + k` |
| CountMin.SeedChunks | ccm.h:477-487 | the inner loop yields the indices of rows `g * nper ..` in order |
| CountMin.RowIndices | ccm.h:475-489 | the index loop yields every row's index, one per row, in row order |
| CountMin.MinOf | ccm.h:539-555 | the minimum is one of the values and no value is smaller |
| CountMin.KeepMembers | ccm.h:494-503 | the kept indices are exactly the listed indices whose register equals the given value |
| CountMin.SelectStep | ccm.h:495-502 | one iteration keeps `minval` the smallest register seen and `best_indices` every index seen holding it |
| CountMin.SelectBest | ccm.h:492-503 | the selection loop returns the minimum over the rows and exactly the row indices holding it |
| CountMin.MinRowIsKept | ccm.h:492-503 | at least one row holds the minimum, and every kept index does |
| CountMin.EstCount | ccm.h:531-558 | `est_count` is the policy's reading of a row register that no other row undercuts |
| CountMin.EstCountIsMin | ccm.h:546-557 | `est_count` is the policy's reading of the minimum over the item's rows |
| CountMin.IncrementEstimateIsMin | ccm.h:546-557 | under `Increment` the estimate is the minimum row register |
| CountMin.AddConservativeData | ccm.h:492-505 | corrected conservative `add` writes the policy's raised value into exactly the row registers holding the minimum, and nothing else |
| CountMin.AddConservativeRowValues | ccm.h:492-505 | corrected conservative `add`: only registers of the item's rows that held the minimum change, and those take the raised value; strictly larger rows are unchanged |
| CountMin.AddConservative | ccm.h:457-529 | corrected conservative `add` returns the old minimum, plus one under `Increment`, keeps the configuration, and under `Increment` draws no random bits |
| CountMin.AddConservativeAsWritten | ccm.h:492-529 | conservative `add` as written keeps the configuration, returns the old minimum (plus one under `Increment`), and under `PowerOfTwo` is the corrected `add` |
| CountMin.AddConservativeAsWrittenAgrees | ccm.h:110-118 | whenever the minimum is below `2^32 - 1`, conservative `add` as written is the corrected one |
| CountMin.AddConservativeMinimum | ccm.h:492-505 | after a corrected conservative `add` the minimum over the item's rows is the raised value |
| CountMin.AddConservativeIncrement | ccm.h:457-529 | corrected conservative `add` under `Increment`: when the minimum plus one fits, the estimate rises by exactly one and `add` returns the new estimate |
| CountMin.AddConservativePowerOfTwo | ccm.h:457-529 | conservative `add` under `PowerOfTwo` returns the old minimum and never lowers the estimate |
| CountMin.PowerOfTwoPassSteps | ccm.h:520-527 | in deletion mode each `PowerOfTwo` row register becomes 1 when empty, stays when at the ceiling, and otherwise keeps its value or gains one |
| CountMin.ApplyRowValues | ccm.h:520-527 | writing the rows' new values: the rows read them back, other registers are unchanged, and the smallest is returned |
| CountMin.AddPassStores | ccm.h:520-527 | deletion-mode `add` under `Increment` stores every row register's step, draws no bits, touches nothing else and returns the smallest stored value |
| CountMin.SubStores | ccm.h:439-448 | corrected `sub`, over the registers `add` raises: stores every row register's decrement, touches nothing else and returns the smallest stored value |
| CountMin.Sub | ccm.h:414-422 | corrected `sub`: refuses with `SSIZE_MIN` and changes nothing unless the sketch counts with `Increment` without conservative update; otherwise it lowers the registers `add` raises |
| CountMin.AddDeletionValues | ccm.h:520-527 | corrected deletion-mode `add` moves each row register to `min(v + 1, 2^nbits - 1)` |
| CountMin.SubValues | ccm.h:439-448 | corrected `sub` moves each of `add`'s row registers down by one, from 0 to the largest `nbits`-bit value |
| CountMin.AddDeletionRows | ccm.h:508-529 | corrected deletion-mode `add` saturates each row register, leaves other registers and the cursor alone, and returns the new minimum |
| CountMin.AddDeletionReturnsMin | ccm.h:520-529 | corrected deletion-mode `add` returns the smallest stored value |
| CountMin.AddDeletionMin | ccm.h:520-527 | corrected deletion-mode `add` moves the minimum over the item's rows to `min(m + 1, 2^nbits - 1)` |
| CountMin.AddDeletionIncrement | ccm.h:508-529 | corrected deletion-mode `add` returns the new estimate, and that is the old one plus one, saturating at `2^nbits - 1` |
| CountMin.SubIncrement | ccm.h:414-449 | corrected `sub` decrements each of `add`'s row registers, wrapping an empty one, touches nothing else and returns the new minimum |
| CountMin.AddThenSubRestores | ccm.h:414-529 | corrected: `add` then the corrected `sub` of an item restores the whole sketch when none of its row registers was full |
| CountMin.SubThenAddRestores | ccm.h:414-529 | corrected: the corrected `sub` then `add` of an item restores the whole sketch when none of its row registers was empty |
| CountMin.AddPassStoresPowerOfTwo | ccm.h:520-527 | deletion-mode `add` under `PowerOfTwo` stores the row-by-row pass's values into the item's rows |
| CountMin.AddDeletionPowerOfTwoRows | ccm.h:520-527 | corrected deletion-mode `add` under `PowerOfTwo`: an empty row register becomes 1, others keep their value or gain one without exceeding the largest value |
| CountMin.AddDeletionPowerOfTwoEstimate | ccm.h:508-558 | corrected deletion-mode `add` under `PowerOfTwo` never lowers the estimate |
| CountMin.SubSlotLoop | ccm.h:439-448 | the scalar loop of `sub`, with its bound `min(nperhash64, nhashes_ - nhdone)` evaluated after every row, gives row after row the slots `SubSlots` lists |
| CountMin.SeedLoop | ccm.h:441-446 | one pass of `sub`'s inner loop serves `min(nper, ⌈left / 2⌉)` rows of the `left` still to do, at chunks 0, 1, … of the current seed |
| CountMin.SubAsWritten | ccm.h:414-449 | `sub` as written: refuses with `SSIZE_MIN` outside deletion-mode `Increment`, fails exactly when a slot reads past the seed list, and otherwise keeps the configuration and cursor |
| CountMin.SubAsWrittenStores | ccm.h:439-448 | `sub` as written lowers each register its slots pick by one, wrapping an empty one, touches nothing else and returns the smallest stored value |
| CountMin.SubSlotsAgree | ccm.h:439-448 | with one row per hash word, or at most one row, `sub`'s slots are `add`'s |
| CountMin.SubAsWrittenAgrees | ccm.h:414-529 | whenever `sub`'s slots are `add`'s, `sub` as written is the corrected `sub` |
| CountMin.SubAsWrittenReadsPastSeeds | ccm.h:439-448 | on four rows carved from one hash word, `sub` takes slots (0,0), (0,1), (1,0), (2,0) where `add` takes (0,0) to (0,3), and reads seeds past the end of the one-seed list |
| CountMin.AddDeletionAsWrittenNoRows | ccm.h:508-529 | as written, deletion-mode `add` on a sketch without rows returns `SSIZE_MIN`, the wrapped `SSIZE_MAX + 1` |
| CountMin.AddDeletionAsWrittenWraps | ccm.h:524 | as written, `add` on a full one-bit register wraps it to 0 and the estimate drops from 1 to 0 |
| CountMin.AddDeletionAsWrittenOverReports | ccm.h:529 | as written, deletion-mode `add` on an empty register returns 2 while the estimate is 1 |
| CountMin.AddDeletionKeepsFull | ccm.h:524 | corrected, the full register stays full and `add` returns the estimate 1 |
| CountMin.AddDeletionReportsEstimate | ccm.h:529 | corrected, `add` on the empty register returns the estimate it leaves, 1 |
| CountMin.AddDeletionAsWrittenAgrees | ccm.h:520-529 | under `Increment`, while no row register is full, deletion-mode `add` as written moves the registers as the corrected one does and returns one more, wrapping past `SSIZE_MAX` |
| CountMin.AddConservativeAsWrittenResets | ccm.h:112-116 | as written, conservative `add` on a one-row `Increment` sketch whose 32-bit register is full resets it to 0, and the estimate drops from `2^32 - 1` to 0 |
| CountMin.AddConservativeKeepsFull | ccm.h:112-116 | corrected, on the same sketch the full register stays full and the estimate stays `2^32 - 1` |
| CountMin.AddAsWritten | ccm.h:450-530 | `add` as written keeps the configuration; in conservative mode it is the corrected `add` unless a full 32-bit minimum wraps, and in deletion mode under `Increment` it moves the registers as the corrected `add` while none is full, returning one more |
| CountMin.AddCountsOne | ccm.h:450-530 | corrected `add` under `Increment`, in either mode, raises the estimate by exactly one while the minimum has room, and returns the new estimate |
| CountMin.Clear | ccm.h:266-268 | `clear` zeroes every register and keeps the configuration |
| CountMin.ClearForgets | ccm.h:266-268 | after `clear` every item's estimate is 0 |
| CountMin.Merge | ccm.h:577-584 | `+=` as written fails with its message exactly when the seed lists differ; otherwise every register takes `combine` as written of both registers, kept to `nbits` bits, and the configuration is kept |
| CountMin.MergeCorrected | ccm.h:577-584 | corrected `+=`: the same, with the corrected `combine` in every register |
| CountMin.MergeAgrees | ccm.h:577-584 | both merges agree under `Increment`, and under `PowerOfTwo` when no position is empty in both sketches |
| CountMin.MergeCommutes | ccm.h:580-582 | merging gives the same registers in either order |
| CountMin.MergeClearedAsWrittenCounts | ccm.h:220-225 | as written, `+=` of two cleared `PowerOfTwo` sketches sets every register to 1, so an item estimated 0 by both is estimated 1 |
| CountMin.MergeClearedIsIdentity | ccm.h:577-584 | corrected `+=` of a cleared copy changes nothing |
| CountMin.MergeIncrementRows | ccm.h:580-582 | under `Increment`, without overflow, the merged rows hold the sums of both inputs' rows |
| CountMin.MergeIncrementAdds | ccm.h:577-584 | a merged `Increment` sketch estimates at least the sum of both estimates |
| CountMin.Intersect | ccm.h:569-576 | `&=` fails with its message exactly when the seed lists differ; otherwise every register keeps the smaller of both registers, and the configuration is kept |
| CountMin.IntersectIdempotent | ccm.h:569-576 | intersecting a sketch with itself changes nothing |
| CountMin.IntersectCommutes | ccm.h:572-574 | intersecting gives the same registers in either order |
| CountMin.IntersectRows | ccm.h:572-574 | the intersection's rows hold the smaller of both inputs' rows |
| CountMin.IntersectEstimatesBelow | ccm.h:569-576 | an intersection never estimates more than either input |
| Sorting.InsertionSortPermutes | ccm.h:631 | the sort's result is a permutation of the values |
| Sorting.InsertionSortSorts | ccm.h:631 | the sort's result is ascending |
| Sorting.InsertionSortShift | ccm.h:631 | adding the same amount to every value commutes with sorting |
| Sorting.MedianBetween | ccm.h:633 | `(p[n >> 1] + p[(n - 1) >> 1]) >> 1` lies between the two middle elements, and is the middle one for odd `n` |
| Sorting.MedianShift | ccm.h:633 | adding `c` to every value adds `c` to the median |
| Sorting.MedianOfSortInRange | ccm.h:631-633 | the median of the sorted readings lies between the smallest and the largest reading |
| Sorting.MedianOfConstant | ccm.h:631-633 | when every reading is `c` the median is `c` |
| Counters.Zeroed | ccm.h:605 | a new table has `nh << np` registers, all 0 |
| Counters.Index | ccm.h:689-691 | `index(hv, row)` lies inside row `row`'s block, below the table's size |
| Counters.RowsApart | ccm.h:689-691 | different rows never pick the same register |
| Counters.Sign | ccm.h:713-724 | `sign` is +1 exactly when bit `np` of the hash is set, -1 otherwise |
| Counters.Bump | ccm.h:692-704 | `add`/`sub` change only the picked register and return its new value |
| Counters.BumpInverse | ccm.h:692-704 | `sub` at the same `(hv, row)` undoes `add`, and the other way round |
| Counters.ApplyAt | ccm.h:635-647 | each row's register moves by exactly the row's sign |
| Counters.ApplyOff | ccm.h:635-647 | a register no row picks keeps its value |
| Counters.ApplyReturns | ccm.h:617-630 | the values the `add` calls return are the registers' final values |
| Counters.ApplyInverse | ccm.h:635-670 | `subh` after `addh` of the same item (or the reverse) restores every register |
| Counters.ApplyShiftsReadings | ccm.h:766-773 | `addh` raises every row's signed reading of the item by one; `subh` lowers each by one |
| Counters.Estimate | ccm.h:631-633 | the median of the sorted readings lies between two of the item's readings: some row reads at most it and some row at least it |
| Counters.EstimateAsWritten | ccm.h:780-787 | the written `est_count` is the lower middle sorted reading, and so one of the item's readings |
| Counters.EstimateAsWrittenOddIsMedian | ccm.h:780-787 | for odd `nh` the written `est_count` is the median |
| Counters.ApplyMovesEstimate | ccm.h:755-788 | moving each of the item's registers by `d` times its sign moves the median estimate by exactly `d`: +1 for `addh`, -1 for `subh` |
| Counters.ApplyValAsWritten | ccm.h:617-633 | `addh_val`/`subh_val` as written update the registers as `addh`/`subh` do and return the median of the updated registers' raw values, without their signs |
| Counters.ApplyVal | ccm.h:617-634 | corrected `addh_val`/`subh_val` update the registers as `addh`/`subh` do and return the old estimate moved by `d` |
| Counters.MergeAddsReadings | ccm.h:789-793 | a merged table's reading of each row is the sum of both inputs' readings |
| Counters.MergeAfterApply | ccm.h:789-793 | adding an item before merging is adding it to the merge |
| Counters.MergeZeroedIsIdentity | ccm.h:789-793 | merging an all-zero table changes nothing |
| Counters.MergeCommutes | ccm.h:789-793 | merging gives the same registers in either order |
| Counters.ZeroedEstimatesZero | ccm.h:603-613 | a new table estimates 0 for every item |
| Counters.Merge | ccm.h:789-793 | `+=` keeps the table's shape and sets every register to the sum of both registers |
| CountSketch.SeedsNeeded | ccm.h:607 | the constructor draws one seed per hash group after the first, `(nh - 1) / nph` |
| CountSketch.Int32Of | ccm.h:610 | a generator word stored as an `int32_t` seed keeps its value modulo 2^32 |
| CountSketch.Create | ccm.h:603-613 | a new sketch has `nh << np` zeroed registers and as many seeds as the larger of the SIMD lane count and `(nh - 1) / nph`, each the `int32_t` of the generator's next word |
| CountSketch.AsWrittenTakesNextRow | ccm.h:638 | the written first loop hands each row of the first group the hash meant for the next row |
| CountSketch.Addh | ccm.h:635-647 | corrected `addh` raises each of the item's row readings, as `est_count` reads them, by one |
| CountSketch.Subh | ccm.h:658-670 | corrected `subh` lowers each of the item's row readings by one |
| CountSketch.AddhAsWritten | ccm.h:635-647 | `addh` as written raises by one the readings at the row hashes its shifted first loop uses |
| CountSketch.SubhAsWritten | ccm.h:658-670 | `subh` as written lowers by one the readings at the same shifted row hashes |
| CountSketch.EstCount | ccm.h:755-788 | corrected `est_count` lies between two of the item's readings: some row reads at most it and some row at least it |
| CountSketch.EstCountAsWritten | ccm.h:755-788 | `est_count` as written is the lower middle sorted reading, and the corrected estimate when the number of rows is odd |
| CountSketch.AddhValAsWritten | ccm.h:617-633 | `addh_val` as written performs the written `addh` and returns the median of the updated registers' raw values |
| CountSketch.SubhValAsWritten | ccm.h:671-687 | `subh_val` as written performs the written `subh` and returns the median of the updated registers' raw values |
| CountSketch.Merge | ccm.h:789-793 | `+=` keeps the seeds and the shape and sets every register to the sum of both registers |
| CountSketch.AddhVal | ccm.h:617-634 | corrected `addh_val` performs `addh` and returns the old estimate plus one |
| CountSketch.SubhVal | ccm.h:671-688 | corrected `subh_val` performs `subh` and returns the old estimate minus one |
| CountSketch.CreateEstimatesZero | ccm.h:603-613 | a new sketch estimates 0 for every item |
| CountSketch.AddhThenSubh | ccm.h:635-670 | `subh` undoes `addh` of the same item |
| CountSketch.SubhThenAddh | ccm.h:635-670 | `addh` undoes `subh` of the same item |
| CountSketch.AddhAsWrittenThenSubhAsWritten | ccm.h:635-670 | even as written, `subh` undoes `addh`, since both use the same shifted hashes |
| CountSketch.AddhCountsOne | ccm.h:635-647 | `addh` raises each of the item's row readings, and so its estimate, by exactly one |
| CountSketch.SubhUncountsOne | ccm.h:658-670 | `subh` lowers the item's estimate by exactly one |
| CountSketch.AddhValIsNewEstimate | ccm.h:617-634 | corrected `addh_val` returns the estimate `est_count` gives afterwards |
| CountSketch.EstCountAsWrittenOddAgrees | ccm.h:780-787 | with an odd number of rows the written `est_count` is the median |
| CountSketch.MergeAddsReadings | ccm.h:789-793 | merged readings are sums, for sketches of the same shape and seeds |
| CountSketch.MergeAfterAddh | ccm.h:789-793 | `addh` before merging is `addh` on the merge |
| CountSketch.EstCountAsWrittenTakesLower | ccm.h:780-784 | two rows reading 0 and 2: the written `est_count` returns 0 where the median is 1 |
| CountSketch.AddhAsWrittenMissesRow | ccm.h:635-647 | one row of two registers: the written `addh` moves a register `est_count` does not read, so the estimate stays 0 |
| CountSketch.AddhValAsWrittenReturnsRaw | ccm.h:617-633 | one register with sign -1: the written `addh_val` returns -1 while the new estimate is 1 |
| CountSketch4.Create | ccm.h:822-827 | a new sketch has `nh << np` zeroed registers and keeps the hash family's seed |
| CountSketch4.Addh | ccm.h:851-855 | `addh` raises each of the item's row readings by one |
| CountSketch4.Subh | ccm.h:856-860 | `subh` lowers each of the item's row readings by one |
| CountSketch4.EstCount | ccm.h:908-924 | corrected `est_count` lies between two of the item's readings: some row reads at most it and some row at least it |
| CountSketch4.EstCountAsWritten | ccm.h:908-924 | `est_count` as written is the lower middle sorted reading, and the corrected estimate when the number of rows is odd |
| CountSketch4.AddhValAsWritten | ccm.h:841-849 | `addh_val` as written performs `addh` and returns the median of the updated registers' raw values |
| CountSketch4.SubhValAsWritten | ccm.h:861-869 | `subh_val` as written performs `subh` and returns the median of the updated registers' raw values |
| CountSketch4.Merge | ccm.h:831-835 | `+=` keeps the seed and the shape and sets every register to the sum of both registers |
| CountSketch4.AddhVal | ccm.h:841-850 | corrected `addh_val` performs `addh` and returns the old estimate plus one |
| CountSketch4.SubhVal | ccm.h:861-870 | corrected `subh_val` performs `subh` and returns the old estimate minus one |
| CountSketch4.CreateEstimatesZero | ccm.h:822-827 | a new sketch estimates 0 for every item |
| CountSketch4.AddhThenSubh | ccm.h:851-860 | `subh` undoes `addh` of the same item |
| CountSketch4.SubhThenAddh | ccm.h:851-860 | `addh` undoes `subh` of the same item |
| CountSketch4.AddhCountsOne | ccm.h:851-855 | `addh` raises each of the item's row readings, and so its estimate, by exactly one |
| CountSketch4.SubhUncountsOne | ccm.h:856-860 | `subh` lowers the item's estimate by exactly one |
| CountSketch4.ValIsNewEstimate | ccm.h:841-870 | corrected `addh_val`/`subh_val` return the estimate `est_count` gives afterwards |
| CountSketch4.EstCountAsWrittenOddAgrees | ccm.h:920-924 | with an odd number of rows the written `est_count` is the median |
| CountSketch4.MergeAddsReadings | ccm.h:831-835 | merged readings are sums |
| CountSketch4.MergeAfterAddh | ccm.h:831-835 | `addh` before merging is `addh` on the merge |
| CountSketch4.MergeCreatedIsIdentity | ccm.h:831-835 | merging a new sketch changes nothing |
| CountSketch4.EstCountAsWrittenTakesLower | ccm.h:920-924 | two rows reading 0 and 2: the written `est_count` returns 0 where the median is 1 |
| CountSketch4.AddhValAsWrittenReturnsRaw | ccm.h:841-849 | one register with sign -1: the written `addh_val` returns -1 while the new estimate is 1 |

## Left out

- Vectorised paths. The `Space::VType` loops of `add`, `sub` and `est_count` (ccm.h:461-473, 510-519, 429-438, 540-545) are not modelled. Neither are the vector `addh`/`subh` overloads (ccm.h:725-754, 902-907) or the vector `WangHash`/`MurFinHash` overloads (common.h:99-108, 120-147). The model follows the scalar loops, which are the whole computation when `nhashes < Space::COUNT * nperhash64`. For `add` and `est_count` the vector loops visit the same registers. For `sub` they do not: the vector loop serves `nperhash64` rows per seed, while the scalar loop serves fewer (CountMin.SubAsWritten).
- `sqrl2`, `l2est` and `wj_est` (ccm.h:14-78, 269-271, 321-355) work in floating point.
- `may_contain` (ccm.h:364-413) throws before doing anything.
- `cmmbase_t` (ccm.h:937-954) throws in its constructor.
- `SlidingWindow` (ccm.h:956-973) calls members `std::queue` does not have.
- `update::CountSketch` (ccm.h:137-180) is a policy for `ccmbase_t` whose `combine` is a self-declared placeholder. The count sketches modelled here are `csbase_t` and `cs4wbase_t`.
- The move constructor (ccm.h:282-286) and the copy constructor are not modelled. Neither are the copying `operator+` and `operator&` (ccm.h:559-568, 794-798, 836-840), which are `+=`/`&=` on a copy; with immutable values, `+=` is already a function returning the result.
- Accessors are not modelled: `size`, `est_memory_usage`, `seeds_size`, `for_each_register`, `ref`, `hash`, `subhash`, `mask`, `np` and `at_pos` (only inside the index computation).
- Debug-only printing is not modelled. Neither are the sign counters `sign_plus`/`sign_minus` and the destructors that print them.
- The benchmark `main` of src/timerevhash.cpp is not modelled.
- Collaborators whose code is not part of this model are parameters:
  - the hash functors `hf_` and `KWiseHasherSet<4>`;
  - the random generators;
  - `lut::nhashesper64bitword`;
  - `common::sort::insertion_sort`, modelled as an insertion sort on `seq<int>`;
  - `common::detail::zero_memory`, modelled as zeroing every register.
- `alloca_wrap` allocation failure (`std::bad_alloc`, ccm.h:763) is not modelled.
- The `compact::vector` register store is assumed to keep the low `nbits` bits of a written value (`CountMin.Store`).
- CountMin.Create: requires `nbits <= 32`, `nper >= 1` and `nper * l2sz <= 64`. `add` reads registers through `unsigned` locals, and the lookup table bounds `nper`. Larger `nbits` are not modelled.
- CountMin.EstCount: requires at least one row, because with none the source's `assert(nhdone < nhashes_)` fails. Under `PowerOfTwo` it also requires the minimum row register to be at most 64.
- CountMin.RowIndex: the 32-bit `uint32_t index` of ccm.h:479 and ccm.h:550 is not truncated. Tables of 2^32 registers or more are not modelled.
- Policy.PowerOfTwoRegister: requires a register below 64 unless it is 0 or at the ceiling, because the shift by `64 - ref` is undefined otherwise.
- Policy.PowerOfTwoRows: requires a first register below 64, for the same reason.
- CountMin.AddConservative and CountMin.AddDeletion: under `PowerOfTwo` require the item's row registers below 64, for the same reason.
- CountMin.AddDeletionAsWritten and CountMin.AddAsWritten: require `nbits < 32` in deletion mode, because `1u << 32` is undefined.
- CountMin.AddConservative, CountMin.AddDeletion, CountMin.Add, CountMin.Sub and CountMin.MergeCorrected are the corrected operations the other CountMin lemmas build on. What the code computes is CountMin.AddConservativeAsWritten, CountMin.AddDeletionAsWritten, CountMin.AddAsWritten, CountMin.SubAsWritten and CountMin.Merge, and each is tied to its corrected form where the two agree.
- CountMin.SubAsWritten: a slot past the end of the seed list is an out-of-bounds read of `seeds_`, undefined in C++; the model reports it as a Failure rather than guessing the value read.
- CountMin.AddDeletionAsWritten: with no rows `ret + 1` overflows `ssize_t`, undefined in C++; the model wraps to `SSIZE_MIN` as two's complement hardware does.
- Policy.RangeCheck: for unsigned registers requires `nbits < 64`, so `2^nbits` fits the 64-bit comparison.
- Policy.Estimate: `PowerOfTwo` registers are read only up to 64, because `1 << (val - 1)` is undefined beyond that.
- Counters.Bump: the `int32_t` counters of both count sketches are unbounded integers. Overflow of a register, and of the sum of the two middle readings, is not modelled.
- Counters.Index: `subidx << np_` is computed on 32-bit `unsigned` and is not truncated. Tables with `nh << np >= 2^32` are not modelled.
- CountSketch.Valid: requires at least one row and `np < 64`. With no rows, `est_count` reads `ptr[0]` of an empty buffer.
- CountSketch.Merge and CountSketch4.Merge: `operator+=` does not compare seeds and neither does the model. The merge lemmas assume equal shapes.

## Findings

| source | as written | input that shows it | evidently intended | confidence | as-written member | corrected member |
|---|---|---|---|---|---|---|
| ccm.h:524 | deletion-mode `add` hands `Increment` the ceiling `1u << nbits_`, one past the largest `nbits`-bit value, so a full register is raised to `2^nbits` and the register stores 0 | `nbits` 1, one row, register holding 1: afterwards it holds 0 and the estimate drops from 1 to 0 | ceiling `(1u << nbits_) - 1`, so a full register stays full | not executed | CountMin.AddDeletionAsWrittenWraps | CountMin.AddDeletionKeepsFull |
| ccm.h:440-447 | the scalar loop of `sub` re-evaluates `min(nperhash64, nhashes_ - nhdone)` after each row, so a seed serves at most ⌈left / 2⌉ of the `left` rows still to do and later rows read further seeds | `nperhash64` 4, `nhashes` 4 (the constructor draws one seed): `sub` visits (seed, chunk) (0,0), (0,1), (1,0), (2,0) instead of `add`'s (0,0) to (0,3), lowers registers `add` never raised and reads `seeds_[1]`, `seeds_[2]` past the end | fix the bound on entry to the inner loop, as `add` and `est_count` do | not executed | CountMin.SubAsWrittenReadsPastSeeds | CountMin.AddThenSubRestores |
| ccm.h:529 | `ret + 1` under `Increment` in deletion mode, where `ret` is already the minimum after the update | `nbits` 2, one empty register: `add` returns 2 while `est_count` is 1 | add one only on the conservative path, where `ret` is the minimum before the update | not executed | CountMin.AddDeletionAsWrittenOverReports | CountMin.AddDeletionReportsEstimate |
| ccm.h:220-225 | `PowerOfTwo::combine` returns `max + (i == j)`, so two empty registers combine to 1 | `+=` of two cleared `PowerOfTwo` sketches: every register becomes 1 and every item estimates 1 | two empty registers stay empty | not executed | CountMin.MergeClearedAsWrittenCounts | CountMin.MergeClearedIsIdentity |
| ccm.h:112-116 | the multi-register `Increment` step counts in 32-bit `unsigned`, so a full 32-bit register wraps to 0, passes `range_check` and is written | `nbits` 32, conservative `add` on one row whose register holds `0xFFFFFFFF`: it becomes 0 and the estimate drops from `2^32 - 1` to 0 | the count taken in 64 bits, so the range check refuses `2^32` and the register stays full | not executed | CountMin.AddConservativeAsWrittenResets | CountMin.AddConservativeKeepsFull |
| ccm.h:780-784 | `csbase_t::est_count` adds `ptr[(nh_-1)>>1]` to itself, so it returns the lower middle reading | two rows reading 0 and 2: returns 0, the median is 1 | `ptr[nh_>>1] + ptr[(nh_-1)>>1]`, the median `addh_val` computes at ccm.h:633 | not executed | CountSketch.EstCountAsWrittenTakesLower | CountSketch.AddhValIsNewEstimate |
| ccm.h:920-924 | `cs4wbase_t::est_count` has the same doubled lower middle | two rows reading 0 and 2: returns 0, the median is 1 | the median of the sorted readings | not executed | CountSketch4.EstCountAsWrittenTakesLower | CountSketch4.ValIsNewEstimate |
| ccm.h:638 | the first loop of `addh` shifts `v` before each `add`, while `est_count` (ccm.h:766-768) reads each row before shifting, so the first group's rows update one row hash off | `np` 1, one row, `hf(val)` = 1, zeroed registers: `addh` moves register 0, `est_count` reads register 1 and still gives 0 | shift after each `add`, as `est_count` does | not executed | CountSketch.AddhAsWrittenMissesRow | CountSketch.AddhCountsOne |
| ccm.h:617-633 | `csbase_t::addh_val` returns the median of the raw register values `add` returned, without applying each row's sign | `np` 0, one row, `hf(val)` = 0 (sign -1), register 0: returns -1 while the new estimate is 1 | the median of the signed readings, i.e. the item's new estimate | not executed | CountSketch.AddhValAsWrittenReturnsRaw | CountSketch.AddhVal |
| ccm.h:841-849 | `cs4wbase_t::addh_val` likewise returns the median of unsigned-by-sign register values | one register, row hash 0 (sign -1), register 0: returns -1 while the new estimate is 1 | the item's new estimate | not executed | CountSketch4.AddhValAsWrittenReturnsRaw | CountSketch4.AddhVal |
