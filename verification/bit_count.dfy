/**
 * `bit_count`: population count and trailing-zero count, on unbounded
 * naturals (the callers pass values of at most 64 bits).
 */
module BitCount {
  function Pow2(k: nat): (r: nat)
    ensures r >= 1
  {
    if k == 0 then 1 else 2 * Pow2(k - 1)
  }

  /** `bit_count::pop_count`: the number of one bits. */
  function PopCount(n: nat): nat
  {
    if n == 0 then 0 else n % 2 + PopCount(n / 2)
  }

  /** `bit_count::ctz`: the number of trailing zero bits of a non-zero value. */
  function Ctz(n: nat): nat
    requires n >= 1
  {
    if n % 2 == 1 then 0 else 1 + Ctz(n / 2)
  }

  predicate IsPowerOfTwo(n: nat)
  {
    PopCount(n) == 1
  }

  lemma {:induction false} NoBitsIsZero(n: nat)
    requires PopCount(n) == 0
    ensures n == 0
  {
    if n > 0 {
      NoBitsIsZero(n / 2);
    }
  }

  /** A value with a single one bit is two raised to its count of trailing zeros. */
  lemma {:induction false} SingleBitIsPowerOfCtz(n: nat)
    requires IsPowerOfTwo(n)
    ensures n >= 1 && Pow2(Ctz(n)) == n
  {
    if n % 2 == 1 {
      NoBitsIsZero(n / 2);
    } else {
      assert PopCount(n / 2) == 1;
      SingleBitIsPowerOfCtz(n / 2);
    }
  }

  /** Conversely every power of two has one bit, `k` zeros below it. */
  lemma {:induction false} PowerOfTwoHasOneBit(k: nat)
    ensures IsPowerOfTwo(Pow2(k)) && Ctz(Pow2(k)) == k
  {
    if k > 0 {
      PowerOfTwoHasOneBit(k - 1);
      assert Pow2(k) / 2 == Pow2(k - 1) && Pow2(k) % 2 == 0;
    }
  }

  lemma {:induction false} Pow2Grows(j: nat, k: nat)
    requires j <= k
    ensures Pow2(j) <= Pow2(k)
  {
    if j < k {
      Pow2Grows(j, k - 1);
    }
  }

  lemma Pow2Of32()
    ensures Pow2(32) == 0x1_0000_0000
  {
    assert Pow2(8) == 0x100;
    assert Pow2(16) == 0x1_0000;
    assert Pow2(24) == 0x100_0000;
  }

  lemma {:induction false} Pow2Sum(j: nat, k: nat)
    ensures Pow2(j + k) == Pow2(j) * Pow2(k)
  {
    if k > 0 {
      Pow2Sum(j, k - 1);
    }
  }

  lemma Pow2Of64()
    ensures Pow2(64) == 0x1_0000_0000_0000_0000
  {
    Pow2Of32();
    Pow2Sum(32, 32);
  }
}
