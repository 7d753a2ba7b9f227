/** The bit operations of `math/bits` and of Go's `uint64` that the Merkle code uses.  They are
    defined on natural numbers by their lowest bit, and agree with Go's on every 64-bit value. */
module Bits {

  function Pow2(k: nat): (p: nat)
    ensures p >= 1
  {
    if k == 0 then 1 else 2 * Pow2(k - 1)
  }

  predicate IsOdd(n: nat) {
    n % 2 == 1
  }

  /** `n >> k` */
  function Shr(n: nat, k: nat): (r: nat) {
    if k == 0 then n else Shr(n / 2, k - 1)
  }

  /** `n << k`, for results that fit in 64 bits. */
  function Shl(n: nat, k: nat): (r: nat) {
    if k == 0 then n else 2 * Shl(n, k - 1)
  }

  /** The k lowest bits of n. */
  function Low(n: nat, k: nat): (r: nat)
    ensures r < Pow2(k)
  {
    if k == 0 then 0 else 2 * Low(n / 2, k - 1) + n % 2
  }

  /** `bits.Len64`: the number of bits needed to write n. */
  function Len64(n: nat): nat {
    if n == 0 then 0 else 1 + Len64(n / 2)
  }

  /** `bits.OnesCount64` */
  function OnesCount64(n: nat): nat {
    if n == 0 then 0 else n % 2 + OnesCount64(n / 2)
  }

  /** `bits.TrailingZeros64` (the only caller passes n > 0). */
  function TrailingZeros64(n: nat): nat
    requires n > 0
  {
    if IsOdd(n) then 0 else 1 + TrailingZeros64(n / 2)
  }

  /** `a ^ b` */
  function Xor(a: nat, b: nat): nat {
    if a == 0 && b == 0 then 0
    else 2 * Xor(a / 2, b / 2) + (if a % 2 == b % 2 then 0 else 1)
  }

  /** `a & b` */
  function And(a: nat, b: nat): nat {
    if a == 0 || b == 0 then 0
    else 2 * And(a / 2, b / 2) + (if a % 2 == 1 && b % 2 == 1 then 1 else 0)
  }

  const TWO_TO_THE_64: nat := 0x1_0000_0000_0000_0000

  /** The result of an addition or subtraction of `uint64`. */
  function Wrap64(n: int): (r: nat)
    ensures r < TWO_TO_THE_64
    ensures 0 <= n < TWO_TO_THE_64 ==> r == n
    ensures 0 <= n ==> r <= n
  {
    n % TWO_TO_THE_64
  }

  /** `-n`, with the wrap-around of `uint64`. */
  function Neg64(n: nat): nat
    requires n < TWO_TO_THE_64
  {
    (TWO_TO_THE_64 - n) % TWO_TO_THE_64
  }

  /** One step of the recursive definitions. */
  lemma {:induction false} LowestBit(n: nat, k: nat)
    requires k > 0
    ensures Shr(n, k) == Shr(n / 2, k - 1) && Low(n, k) == 2 * Low(n / 2, k - 1) + n % 2
    ensures Pow2(k) == 2 * Pow2(k - 1)
  {
  }

  lemma {:induction false} NoBits(n: nat)
    ensures Shr(n, 0) == n && Low(n, 0) == 0 && Pow2(0) == 1
  {
  }

  lemma {:induction false} PowerHasOneBit(k: nat)
    ensures Low(Pow2(k), k) == 0
  {
    if k > 0 { PowerHasOneBit(k - 1); }
  }

  lemma {:induction false} ShrSmall(n: nat, k: nat)
    requires n < Pow2(k)
    ensures Shr(n, k) == 0
  {
    if k > 0 { ShrSmall(n / 2, k - 1); }
  }

  /** Shifting right and back clears the k lowest bits. */
  lemma {:induction false} ShrShlLow(n: nat, k: nat)
    ensures Shl(Shr(n, k), k) + Low(n, k) == n
  {
    if k > 0 { ShrShlLow(n / 2, k - 1); }
  }

  lemma {:induction false} LenBounds(n: nat)
    ensures n < Pow2(Len64(n))
    ensures n > 0 ==> Len64(n) > 0 && Pow2(Len64(n) - 1) <= n
  {
    if n > 0 { LenBounds(n / 2); }
  }

  lemma {:induction false} ShrMonotone(a: nat, b: nat, k: nat)
    requires a <= b
    ensures Shr(a, k) <= Shr(b, k)
  {
    if k > 0 { ShrMonotone(a / 2, b / 2, k - 1); }
  }

  lemma {:induction false} ShrNext(n: nat, k: nat)
    ensures Shr(n, k + 1) == Shr(n, k) / 2
  {
    if k > 0 { ShrNext(n / 2, k - 1); }
  }

  lemma {:induction false} ShlNext(n: nat, k: nat)
    ensures Shl(n + 1, k) == Shl(n, k) + Pow2(k)
  {
    if k > 0 { ShlNext(n, k - 1); }
  }

  lemma {:induction false} ShlOfZero(k: nat)
    ensures Shl(0, k) == 0
  {
    if k > 0 { ShlOfZero(k - 1); }
  }

  lemma {:induction false} XorZero(a: nat, b: nat)
    ensures Xor(a, b) == 0 <==> a == b
  {
    if a > 0 || b > 0 { XorZero(a / 2, b / 2); }
  }

  /** `bits.Len64(fn^en) - 1` is the most significant bit in which fn and en differ: there they are
      neighbours under one parent, and the range between them splits at a multiple of 2^k. */
  lemma {:induction false} Diverge(fn: nat, en: nat)
    requires fn < en
    ensures Len64(Xor(fn, en)) > 0
    ensures var k := Len64(Xor(fn, en)) - 1;
      && !IsOdd(Shr(fn, k)) && Shr(en, k) == Shr(fn, k) + 1
    decreases en
  {
    XorZero(fn, en);
    XorZero(fn / 2, en / 2);
    if fn / 2 < en / 2 { Diverge(fn / 2, en / 2); }
  }

  lemma {:induction false} XorBelow(a: nat, b: nat, m: nat)
    requires a < Pow2(m) && b < Pow2(m)
    ensures Len64(Xor(a, b)) <= m
    decreases m
  {
    if m > 0 { XorBelow(a / 2, b / 2, m - 1); }
  }

  /** The highest bit of a ^ b tells whether the highest bits of a and b differ. */
  lemma {:induction false} HighestBit(a: nat, b: nat, m: nat)
    requires a < Pow2(m + 1) && b < Pow2(m + 1)
    ensures Len64(Xor(a, b)) == m + 1 <==> (a < Pow2(m)) != (b < Pow2(m))
    decreases m
  {
    if m > 0 { HighestBit(a / 2, b / 2, m - 1); }
  }

  /** Whether exactly one of two 64-bit numbers is below 2^63. */
  predicate TopBitsDiffer(a: nat, b: nat) {
    (a < Pow2(63)) != (b < Pow2(63))
  }

  lemma {:induction false} TopBitOfXor(a: nat, b: nat)
    requires a < TWO_TO_THE_64 && b < TWO_TO_THE_64
    ensures Len64(Xor(a, b)) <= 64
    ensures Len64(Xor(a, b)) == 64 <==> TopBitsDiffer(a, b)
  {
    hide Pow2, Xor, Len64;
    Pow2Of64();
    XorBelow(a, b, 64);
    HighestBit(a, b, 63);
  }

  /** `en & -(1<<k)` clears the k lowest bits of a 64-bit number. */
  lemma {:induction false} MaskClearsLowBits(en: nat, k: nat)
    requires en < TWO_TO_THE_64 && k < 64
    ensures Pow2(k) < TWO_TO_THE_64 && And(en, Neg64(Pow2(k))) == Shl(Shr(en, k), k)
  {
    assert Pow2(64) == TWO_TO_THE_64 by { Pow2Of64(); }
    PowersOrdered(k, 64);
    AndMask(en, k, 64);
  }

  lemma {:induction false} Pow2Of64()
    ensures Pow2(64) == TWO_TO_THE_64
  {
    assert Pow2(8) == 0x100;
    assert Pow2(16) == 0x1_0000 by { PowAdd(8, 8); }
    assert Pow2(32) == 0x1_0000_0000 by { PowAdd(16, 16); }
    PowAdd(32, 32);
  }

  lemma {:induction false} HalfOfRange()
    ensures 2 * Pow2(63) == TWO_TO_THE_64
  {
    Pow2Of64();
  }

  lemma {:induction false} PowAdd(a: nat, b: nat)
    ensures Pow2(a + b) == Pow2(a) * Pow2(b)
  {
    if a > 0 {
      PowAdd(a - 1, b);
    }
  }

  lemma {:induction false} PowersOrdered(a: nat, b: nat)
    requires a < b
    ensures 2 * Pow2(a) <= Pow2(b)
  {
    if a > 0 { PowersOrdered(a - 1, b - 1); }
  }

  lemma {:induction false} AndMask(n: nat, k: nat, m: nat)
    requires k <= m && n < Pow2(m)
    ensures Pow2(k) <= Pow2(m) && And(n, Pow2(m) - Pow2(k)) == Shl(Shr(n, k), k)
    decreases m
  {
    hide And, Pow2;
    if k < m { PowersOrdered(k, m); }
    NoBits(0);
    if m == 0 {
      AndHalf(0, 0);
    } else {
      LowestBit(n, m);
      AndHalf(n, Pow2(m) - Pow2(k));
      if k > 0 {
        LowestBit(n, k);
        AndMask(n / 2, k - 1, m - 1);
      } else {
        AndMask(n / 2, 0, m - 1);
        assert (Pow2(m) - 1) / 2 == Pow2(m - 1) - 1;
      }
    }
  }

  lemma {:induction false} AndHalf(a: nat, b: nat)
    ensures And(a, b) == 2 * And(a / 2, b / 2) + (if a % 2 == 1 && b % 2 == 1 then 1 else 0)
    ensures a == 0 || b == 0 ==> And(a, b) == 0
  {
  }
}
