/** Integer facts shared by the sketches: powers of two and the 64-bit word
    range.  A shift `x >> n` of a `uint64_t` is `x / Pow2(n)` here and a mask
    `x & ((1ull << n) - 1)` is `x % Pow2(n)`. */
module Arith {

  /** `2^n`; the C++ `1ull << n`. */
  function Pow2(n: nat): (r: nat)
    ensures r >= 1
  {
    if n == 0 then 1 else 2 * Pow2(n - 1)
  }

  /** The largest `n`-bit value, `(1ull << n) - 1`. */
  function Largest(n: nat): (m: nat)
    ensures m + 1 == Pow2(n)
  {
    Pow2(n) - 1
  }

  const WordLimit: nat := 0x1_0000_0000_0000_0000

  /** An unsigned 64-bit value. */
  type Word = x: int | 0 <= x < WordLimit

  lemma {:induction false} Pow2Add(a: nat, b: nat)
    ensures Pow2(a + b) == Pow2(a) * Pow2(b)
    decreases a
  {
    if a > 0 {
      Pow2Add(a - 1, b);
    }
  }

  lemma {:induction false} Pow2Monotone(a: nat, b: nat)
    requires a <= b
    ensures Pow2(a) <= Pow2(b)
    decreases b
  {
    if a < b {
      Pow2Monotone(a, b - 1);
    }
  }

  lemma {:induction false} Pow2Of8()
    ensures Pow2(8) == 0x100
  {
  }

  lemma {:induction false} Pow2Of16()
    ensures Pow2(16) == 0x1_0000
  {
    Pow2Of8();
    Pow2Add(8, 8);
  }

  lemma {:induction false} Pow2Of32()
    ensures Pow2(32) == 0x1_0000_0000
  {
    Pow2Of16();
    Pow2Add(16, 16);
  }

  lemma {:induction false} Pow2Of64()
    ensures Pow2(64) == WordLimit
  {
    Pow2Of32();
    Pow2Add(32, 32);
  }

  /** `x >> n` on an unsigned value: drop the low bit `n` times. */
  function Shr(x: nat, n: nat): (r: nat)
    decreases n
  {
    if n == 0 then x else Shr(x / 2, n - 1)
  }

  /** Shifting an `a + b`-bit value right by `a` leaves a `b`-bit value. */
  lemma {:induction false} ShrBelow(x: nat, a: nat, b: nat)
    requires x < Pow2(a + b)
    ensures Shr(x, a) < Pow2(b)
    decreases a
  {
    if a > 0 {
      ShrBelow(x / 2, a - 1, b);
    }
  }

  /** The low `n` bits of `x` in two's complement -- `x & ((1 << n) - 1)`, and what an
      `n`-bit register keeps of a value written to it: bit 0 is `x % 2`, the others
      are the low bits of `x / 2`. */
  function LowBits(x: int, n: nat): (r: nat)
    ensures r < Pow2(n)
    ensures 0 <= x < Pow2(n) ==> r == x
    ensures x == -1 ==> r == Largest(n)
    ensures x == Pow2(n) ==> r == 0
    decreases n
  {
    if n == 0 then 0 else x % 2 + 2 * LowBits(x / 2, n - 1)
  }

  /** `a ^ b` on unsigned values, bit by bit. */
  function Xor(a: nat, b: nat): nat
    decreases a + b
  {
    if a == 0 then b
    else if b == 0 then a
    else (a + b) % 2 + 2 * Xor(a / 2, b / 2)
  }

  lemma {:induction false} MulAtLeast(a: nat, n: nat)
    requires a >= 1
    ensures a * n >= n
    decreases a
  {
    if a > 1 {
      MulAtLeast(a - 1, n);
      assert a * n == (a - 1) * n + n;
    }
  }

  lemma {:induction false} MulMonotone(a: nat, b: nat, n: nat)
    requires a <= b
    ensures a * n <= b * n
  {
    if a < b {
      MulAtLeast(b - a, n);
      assert b * n == a * n + (b - a) * n;
    }
  }

  /** Multiplication by the same factor keeps strict order the other way round. */
  lemma {:induction false} MulCancel(a: nat, b: nat, n: nat)
    requires a * n < b * n
    ensures a < b
  {
    if b <= a {
      MulMonotone(b, a, n);
    }
  }

  /** Quotient and remainder of `q * n + k` when `k < n`. */
  lemma {:induction false} DivModOf(q: nat, k: nat, n: nat)
    requires k < n
    ensures (q * n + k) / n == q
    ensures (q * n + k) % n == k
  {
    var x := q * n + k;
    var q', k' := x / n, x % n;
    assert x == q' * n + k';
    if q' > q {
      assert (q' - q) * n == q' * n - q * n;
      MulAtLeast(q' - q, n);
    } else if q' < q {
      assert (q - q') * n == q * n - q' * n;
      MulAtLeast(q - q', n);
    }
  }

  /** Below `p * q`, the quotient by `p` is below `q`. */
  lemma {:induction false} DivBelow(x: nat, p: nat, q: nat)
    requires p >= 1 && x < p * q
    ensures x / p < q
  {
    var d := x / p;
    assert d * p <= x;
    if d >= q {
      MulMonotone(q, d, p);
    }
  }

  /** Division rounded down by a positive divisor is monotone. */
  lemma {:induction false} DivMonotone(x: nat, y: nat, p: nat)
    requires p >= 1 && x <= y
    ensures x / p <= y / p
  {
    var a, b := x / p, y / p;
    if a > b {
      assert a * p <= x && y < (b + 1) * p;
      MulMonotone(b + 1, a, p);
    }
  }

  lemma {:induction false} ModSmall(v: int, m: int)
    requires 0 <= v < m
    ensures v % m == v
  {
  }

  /** A slot inside row `r`'s block of width `w` lies before the end of `h` rows. */
  lemma {:induction false} SlotInTable(c: nat, r: nat, w: nat, h: nat)
    requires c < w && r < h
    ensures r * w <= c + r * w < (r + 1) * w <= h * w
  {
    MulMonotone(r + 1, h, w);
    assert (r + 1) * w == r * w + w;
  }

  /** A slot inside row `r`'s block of width `w` lies in that block and before the
      end of a table of `n == h * w` slots. */
  lemma {:induction false} SlotInBlock(c: nat, r: nat, w: nat, h: nat, n: nat)
    requires c < w && r < h && n == h * w
    ensures r * w <= c + r * w < r * w + w
    ensures c + r * w < n
  {
    SlotInTable(c, r, w, h);
  }

  /** The two's-complement bit pattern of a signed value as an unsigned 64-bit word. */
  function Unsigned64(x: int): (w: Word)
    requires -0x8000_0000_0000_0000 <= x < 0x8000_0000_0000_0000
    ensures w % WordLimit == x % WordLimit
  {
    if x < 0 then x + WordLimit else x
  }
}
