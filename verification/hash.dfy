/** The 64-bit word functions of common.h and src/timerevhash.cpp: Thomas Wang's
    64-bit hash, Geoffrey Irving's inverse of it, the Murmur3 finalizer and the
    power-of-two test.  Every function here is a total function on `bv64`, so
    unsigned 64-bit wrap-around is the bit-vector arithmetic itself.
 */
module Hash {

  /* ---------------- Thomas Wang's hash, one function per line ---------------- */

  /** `key = (~key) + (key << 21)` */
  function WangMix21(key: bv64): bv64 { (!key) + (key << 21) }

  /** `key = key ^ (key >> 24)` */
  function XorShift24(key: bv64): bv64 { key ^ (key >> 24) }

  /** `key = (key + (key << 3)) + (key << 8)` */
  function WangMul265(key: bv64): bv64 { (key + (key << 3)) + (key << 8) }

  /** `key = key ^ (key >> 14)` */
  function XorShift14(key: bv64): bv64 { key ^ (key >> 14) }

  /** `key = (key + (key << 2)) + (key << 4)` */
  function WangMul21(key: bv64): bv64 { (key + (key << 2)) + (key << 4) }

  /** `key = key ^ (key >> 28)` */
  function XorShift28(key: bv64): bv64 { key ^ (key >> 28) }

  /** `key = key + (key << 31)` */
  function WangAddShl31(key: bv64): bv64 { key + (key << 31) }

  /** The scalar `WangHash::operator()(uint64_t)`: the seven steps in order.
      `irving_inv_hash` undoes it, so distinct keys never share a hash. */
  function WangHash(key: bv64): (r: bv64)
    ensures IrvingInvHash(r) == key
  {
    var k1 := WangMix21(key);
    var k2 := XorShift24(k1);
    var k3 := WangMul265(k2);
    var k4 := XorShift14(k3);
    var k5 := WangMul21(k4);
    var k6 := XorShift28(k5);
    AddShl31RoundTrip(k6);
    XorShift28RoundTrip(k5);
    Mul21RoundTrip(k4);
    XorShift14RoundTrip(k3);
    Mul265RoundTrip(k2);
    XorShift24RoundTrip(k1);
    Mix21RoundTrip(key);
    WangAddShl31(k6)
  }

  /* ---------------- Irving's inverse, one function per block ---------------- */

  /** Undoes `key + (key << 31)`. */
  function UndoAddShl31(key: bv64): bv64
  {
    var tmp := key - (key << 31);
    key - (tmp << 31)
  }

  /** Undoes `x ^ (x >> 28)`: two rounds suffice because 2 * 28 >= 64 - 28. */
  function UndoXorShift28(key: bv64): bv64
  {
    var tmp := key ^ (key >> 28);
    key ^ (tmp >> 28)
  }

  /** Undoes `key *= 21`: 14933078535860113213 is the inverse of 21 modulo 2^64. */
  function UndoMul21(key: bv64): bv64 { key * 14933078535860113213 }

  /** Undoes `x ^ (x >> 14)`: four rounds because 4 * 14 >= 64 - 14. */
  function UndoXorShift14(key: bv64): bv64
  {
    var t1 := key ^ (key >> 14);
    var t2 := key ^ (t1 >> 14);
    var t3 := key ^ (t2 >> 14);
    key ^ (t3 >> 14)
  }

  /** Undoes `key *= 265`: 15244667743933553977 is the inverse of 265 modulo 2^64. */
  function UndoMul265(key: bv64): bv64 { key * 15244667743933553977 }

  /** Undoes `x ^ (x >> 24)`: two rounds because 2 * 24 >= 64 - 24. */
  function UndoXorShift24(key: bv64): bv64
  {
    var tmp := key ^ (key >> 24);
    key ^ (tmp >> 24)
  }

  /** Undoes `(~x) + (x << 21)`: each round fixes 21 more low bits. */
  function UndoMix21(key: bv64): bv64
  {
    var t0 := !key;
    var t1 := !(key - (t0 << 21));
    var t2 := !(key - (t1 << 21));
    !(key - (t2 << 21))
  }

  /** `irving_inv_hash`: the blocks applied in reverse order of WangHash. Running
      WangHash's seven steps on its result gives back the input, so every word is
      some key's hash. */
  function IrvingInvHash(key: bv64): (r: bv64)
    ensures WangAddShl31(XorShift28(WangMul21(XorShift14(WangMul265(XorShift24(WangMix21(r))))))) == key
  {
    var k1 := UndoAddShl31(key);
    var k2 := UndoXorShift28(k1);
    var k3 := UndoMul21(k2);
    var k4 := UndoXorShift14(k3);
    var k5 := UndoMul265(k4);
    var k6 := UndoXorShift24(k5);
    Mix21RoundTrip(k6);
    XorShift24RoundTrip(k5);
    Mul265RoundTrip(k4);
    XorShift14RoundTrip(k3);
    Mul21RoundTrip(k2);
    XorShift28RoundTrip(k1);
    AddShl31RoundTrip(key);
    UndoMix21(k6)
  }

  /* ---------------- the arithmetic the comments of WangHash claim ---------------- */

  /** Bitwise complement is `-key - 1` in 64-bit arithmetic. */
  lemma {:induction false} ComplementIsNegation(key: bv64)
    ensures !key == 0 - key - 1
  {
  }

  /** The first step is `key * 2^21` plus the complement of `key`, which by
      `ComplementIsNegation` is `key * 2^21 - key - 1` modulo 2^64. */
  lemma {:induction false} WangMix21IsAffine(key: bv64)
    ensures WangMix21(key) == key * 0x20_0000 + !key
  {
  }

  /** The third step multiplies by 265. */
  lemma {:induction false} WangMul265IsProduct(key: bv64)
    ensures WangMul265(key) == key * 265
  {
  }

  /** The fifth step multiplies by 21. */
  lemma {:induction false} WangMul21IsProduct(key: bv64)
    ensures WangMul21(key) == key * 21
  {
  }

  /** The constants of lines 25 and 32 are the inverses of 21 and 265. */
  lemma {:induction false} InverseConstants()
    ensures (14933078535860113213 as bv64) * 21 == 1
    ensures (15244667743933553977 as bv64) * 265 == 1
  {
  }

  /* ---------------- each block undoes its step, in both orders ----------------
     Each round trip is proved in two parts: the block applied to the step's own
     expression, then the step function itself. */

  lemma {:induction false} AddShl31Bodies(x: bv64)
    ensures UndoAddShl31(x + (x << 31)) == x
    ensures var tmp := x - (x << 31); WangAddShl31(x - (tmp << 31)) == x
  {
  }

  /** Lines 19-20 undo `key + (key << 31)`. */
  lemma {:induction false} AddShl31RoundTrip(x: bv64)
    ensures UndoAddShl31(WangAddShl31(x)) == x
    ensures WangAddShl31(UndoAddShl31(x)) == x
  {
    AddShl31Bodies(x);
  }

  lemma {:induction false} XorShift28Bodies(x: bv64)
    ensures UndoXorShift28(x ^ (x >> 28)) == x
    ensures var tmp := x ^ (x >> 28); XorShift28(x ^ (tmp >> 28)) == x
  {
  }

  /** Lines 22-23 undo `x ^ (x >> 28)`. */
  lemma {:induction false} XorShift28RoundTrip(x: bv64)
    ensures UndoXorShift28(XorShift28(x)) == x
    ensures XorShift28(UndoXorShift28(x)) == x
  {
    XorShift28Bodies(x);
  }

  lemma {:induction false} Mul21Bodies(x: bv64)
    ensures UndoMul21(x * 21) == x
  {
  }

  lemma {:induction false} Mul21Inverse(x: bv64)
    ensures WangMul21(x * 14933078535860113213) == x
  {
    forall y: bv64 ensures WangMul21(y) == y * 21 {
      WangMul21IsProduct(y);
    }
  }

  /** Line 25 undoes `key * 21`. */
  lemma {:induction false} Mul21RoundTrip(x: bv64)
    ensures UndoMul21(WangMul21(x)) == x
    ensures WangMul21(UndoMul21(x)) == x
  {
    WangMul21IsProduct(x);
    Mul21Bodies(x);
    Mul21Inverse(x);
  }

  lemma {:induction false} XorShift14Bodies(x: bv64)
    ensures UndoXorShift14(x ^ (x >> 14)) == x
    ensures var t1 := x ^ (x >> 14);
            var t2 := x ^ (t1 >> 14);
            var t3 := x ^ (t2 >> 14);
            XorShift14(x ^ (t3 >> 14)) == x
  {
  }

  /** Lines 27-30 undo `x ^ (x >> 14)`. */
  lemma {:induction false} XorShift14RoundTrip(x: bv64)
    ensures UndoXorShift14(XorShift14(x)) == x
    ensures XorShift14(UndoXorShift14(x)) == x
  {
    XorShift14Bodies(x);
  }

  lemma {:induction false} Mul265Bodies(x: bv64)
    ensures UndoMul265(x * 265) == x
  {
  }

  lemma {:induction false} Mul265Inverse(x: bv64)
    ensures WangMul265(x * 15244667743933553977) == x
  {
    forall y: bv64 ensures WangMul265(y) == y * 265 {
      WangMul265IsProduct(y);
    }
  }

  /** Line 32 undoes `key * 265`. */
  lemma {:induction false} Mul265RoundTrip(x: bv64)
    ensures UndoMul265(WangMul265(x)) == x
    ensures WangMul265(UndoMul265(x)) == x
  {
    WangMul265IsProduct(x);
    Mul265Bodies(x);
    Mul265Inverse(x);
  }

  lemma {:induction false} XorShift24Bodies(x: bv64)
    ensures UndoXorShift24(x ^ (x >> 24)) == x
    ensures var tmp := x ^ (x >> 24); XorShift24(x ^ (tmp >> 24)) == x
  {
  }

  /** Lines 34-35 undo `x ^ (x >> 24)`. */
  lemma {:induction false} XorShift24RoundTrip(x: bv64)
    ensures UndoXorShift24(XorShift24(x)) == x
    ensures XorShift24(UndoXorShift24(x)) == x
  {
    XorShift24Bodies(x);
  }

  lemma {:induction false} Mix21Bodies(x: bv64)
    ensures UndoMix21((!x) + (x << 21)) == x
    ensures var t0 := !x;
            var t1 := !(x - (t0 << 21));
            var t2 := !(x - (t1 << 21));
            WangMix21(!(x - (t2 << 21))) == x
  {
  }

  /** Lines 37-40 undo `(~x) + (x << 21)`. */
  lemma {:induction false} Mix21RoundTrip(x: bv64)
    ensures UndoMix21(WangMix21(x)) == x
    ensures WangMix21(UndoMix21(x)) == x
  {
    Mix21Bodies(x);
  }

  /** Distinct keys hash to distinct words. */
  lemma {:induction false} WangHashInjective(a: bv64, b: bv64)
    requires WangHash(a) == WangHash(b)
    ensures a == b
  {
    assert IrvingInvHash(WangHash(a)) == a && IrvingInvHash(WangHash(b)) == b;
  }

  /* ---------------- Murmur3 finalizer ---------------- */

  /** `h ^= h >> 33` */
  function XorShift33(key: bv64): bv64 { key ^ (key >> 33) }

  /** `h *= 0xff51afd7ed558ccd` */
  function FinMul1(key: bv64): bv64 { key * 0xff51afd7ed558ccd }

  /** `h *= 0xc4ceb9fe1a85ec53` */
  function FinMul2(key: bv64): bv64 { key * 0xc4ceb9fe1a85ec53 }

  /** `finalize`: the Murmur3 64-bit finalizer. */
  function Finalize(key: bv64): (r: bv64)
    ensures UnFinalize(r) == key
  {
    var k1 := XorShift33(key);
    var k2 := FinMul1(k1);
    var k3 := XorShift33(k2);
    var k4 := FinMul2(k3);
    XorShift33SelfInverse(k4);
    FinMulRoundTrip(k3);
    XorShift33SelfInverse(k2);
    FinMulRoundTrip(k1);
    XorShift33SelfInverse(key);
    XorShift33(k4)
  }

  /** The scalar `MurFinHash::operator()(uint64_t)`: its body repeats the five
      lines of `finalize`. */
  function MurFinHash(key: bv64): (r: bv64)
    ensures r == Finalize(key)
  {
    XorShift33(FinMul2(XorShift33(FinMul1(XorShift33(key)))))
  }

  /** Undoes `h *= 0xff51afd7ed558ccd`: multiplies by its inverse modulo 2^64. */
  function UndoFinMul1(key: bv64): bv64 { key * 0x4f74430c22a54005 }

  /** Undoes `h *= 0xc4ceb9fe1a85ec53`. */
  function UndoFinMul2(key: bv64): bv64 { key * 0x9cb4b2f8129337db }

  /** An inverse of the finalizer, used as its partner: `x ^ (x >> 33)` is its own
      inverse, and the two multipliers are odd, hence invertible modulo 2^64. */
  function UnFinalize(h: bv64): bv64
  {
    XorShift33(UndoFinMul1(XorShift33(UndoFinMul2(XorShift33(h)))))
  }

  lemma {:induction false} XorShift33Body(x: bv64)
    ensures XorShift33(x ^ (x >> 33)) == x
  {
  }

  lemma {:induction false} XorShift33SelfInverse(x: bv64)
    ensures XorShift33(XorShift33(x)) == x
  {
    XorShift33Body(x);
  }

  lemma {:induction false} FinMulBodies(x: bv64)
    ensures UndoFinMul1(x * 0xff51afd7ed558ccd) == x
    ensures UndoFinMul2(x * 0xc4ceb9fe1a85ec53) == x
  {
  }

  lemma {:induction false} FinMulRoundTrip(x: bv64)
    ensures UndoFinMul1(FinMul1(x)) == x
    ensures UndoFinMul2(FinMul2(x)) == x
  {
    FinMulBodies(x);
  }

  /* ---------------- is_pow2 ---------------- */

  /** `is_pow2`: nonzero, and clearing the lowest set bit leaves nothing. */
  predicate IsPow2(v: bv64)
  {
    v != 0 && v & (v - 1) == 0
  }

  /** The word whose only set bit is bit `k`. */
  function Bit(k: bv8): bv64
    requires k < 64
  {
    (1 as bv64) << k
  }

  /** The bits below position `i` (all 64 bits when `i` is 64). */
  function LowMask(i: bv8): bv64
    requires i <= 64
  {
    if i == 64 then !0 else Bit(i) - 1
  }

  lemma {:induction false} LowMaskGrows(i: bv8)
    requires i < 64
    ensures LowMask(i + 1) == LowMask(i) | Bit(i)
  {
  }

  lemma {:induction false} DisjointFromUnion(v: bv64, m: bv64, b: bv64)
    requires v & m == 0 && v & b == 0
    ensures v & (m | b) == 0
  {
  }

  /** A word that passes `is_pow2`, has no bit below `i` and has bit `i` is bit `i`. */
  lemma {:induction false} LowestSetBitIsAll(v: bv64, i: bv8)
    requires i < 64
    requires IsPow2(v) && v & LowMask(i) == 0 && v & Bit(i) != 0
    ensures v == Bit(i)
  {
  }

  /** Every single-bit word passes the test. */
  lemma {:induction false} BitPassesIsPow2(k: bv8)
    requires k < 64
    ensures IsPow2(Bit(k))
  {
  }

  /** Scanning upwards from bit `i` finds the one set bit of a word that passes. */
  lemma {:induction false} IsPow2FindsBit(v: bv64, i: bv8)
    requires i <= 64
    requires IsPow2(v) && v & LowMask(i) == 0
    ensures exists k: bv8 :: i <= k < 64 && v == Bit(k)
    decreases 64 - i as int
  {
    if i == 64 {
      assert false;
    } else if v & Bit(i) != 0 {
      LowestSetBitIsAll(v, i);
    } else {
      LowMaskGrows(i);
      DisjointFromUnion(v, LowMask(i), Bit(i));
      IsPow2FindsBit(v, i + 1);
    }
  }

  /** A word that passes `is_pow2` has exactly one set bit. */
  lemma {:induction false} IsPow2HasSingleBit(v: bv64)
    requires IsPow2(v)
    ensures exists k: bv8 :: k < 64 && v == Bit(k)
  {
    IsPow2FindsBit(v, 0);
  }
}
