/**
 Powers of two, as computed by Python's `2**i` on non-negative exponents, and the
 product j x 2^i written as j doubled i times.
 */
module Powers {

  /** 2 raised to the power `i`. */
  function Pow2(i: nat): (r: nat)
    ensures r >= 1
  {
    if i == 0 then 1 else 2 * Pow2(i - 1)
  }

  /** j x 2^i, obtained by doubling j i times. */
  function Shifted(j: nat, i: nat): nat
  {
    if i == 0 then j else 2 * Shifted(j, i - 1)
  }

  /** Raising the exponent by one doubles the power. */
  lemma Pow2Succ(i: nat)
    ensures Pow2(i + 1) == 2 * Pow2(i)
  {
  }

  /** Doubling j i times multiplies it by 2^i. */
  lemma {:induction false} ShiftedIsProduct(j: nat, i: nat)
    ensures Shifted(j, i) == j * Pow2(i)
    decreases i
  {
    if i > 0 {
      ShiftedIsProduct(j, i - 1);
      assert j * Pow2(i) == j * (2 * Pow2(i - 1)) == 2 * (j * Pow2(i - 1));
    }
  }

  /** `Pow2` is strictly increasing, so distinct exponents give distinct lengths. */
  lemma {:induction false} Pow2StrictlyIncreasing(i: nat, k: nat)
    requires i < k
    ensures Pow2(i) < Pow2(k)
    decreases k
  {
    if i + 1 < k {
      Pow2StrictlyIncreasing(i, k - 1);
    }
  }

  /** More sections of the same length take more points. */
  lemma {:induction false} ShiftedMonotoneInCount(j: nat, k: nat, i: nat)
    requires j <= k
    ensures Shifted(j, i) <= Shifted(k, i)
    decreases i
  {
    if i > 0 {
      ShiftedMonotoneInCount(j, k, i - 1);
    }
  }

  /** Longer sections take more points. */
  lemma {:induction false} ShiftedMonotoneInExponent(j: nat, e: nat, i: nat)
    requires e <= i
    ensures Shifted(j, e) <= Shifted(j, i)
    decreases i
  {
    if e < i {
      ShiftedMonotoneInExponent(j, e, i - 1);
    }
  }
}
