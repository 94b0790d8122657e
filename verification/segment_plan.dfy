/**
 The segmentation plan for averaged power-spectral-density estimation: a number of
 sub-sections NS and a sub-section length NFFT (a power of two) whose product stays
 below the record length N.

 This module states, independently of any loop, which plan the selector must pick:
 the largest admissible exponent first, then the largest admissible section count
 for that exponent.
 */
module SegmentPlan {
  import opened Powers

  /** Exponents tried for NFFT = 2^i: `range(3, 20)`. */
  const MinExponent: nat := 3
  const MaxExponent: nat := 19

  /** Section counts tried for NS: `range(8, 30)`. */
  const MinSections: nat := 8
  const MaxSections: nat := 29

  /** A chosen plan: NS sub-sections of NFFT points each. */
  datatype Plan = Plan(ns: nat, nfft: nat)

  /** The only way selection fails: no candidate pair fits below N. */
  datatype SegmentError = InsufficientData

  datatype Option<T> = None | Some(value: T)

  datatype Result<T> = Ok(value: T) | Err(error: SegmentError)

  /**
   The pair (NS = j, NFFT = 2^i) is one the selector tries and accepts for N = n:
   both in range and j x 2^i < n (see `ShiftedIsProduct`).
   */
  predicate Feasible(n: nat, i: nat, j: nat)
  {
    MinExponent <= i <= MaxExponent && MinSections <= j <= MaxSections && Shifted(j, i) < n
  }

  /** `p` is 2^i for an exponent the selector tries. */
  ghost predicate IsSegmentLength(p: nat)
  {
    exists i :: MinExponent <= i <= MaxExponent && p == Pow2(i)
  }

  /** `p` is a pair the selector tries and accepts for N = n. */
  ghost predicate Admissible(n: nat, p: Plan)
  {
    exists i :: Feasible(n, i, p.ns) && p.nfft == Pow2(i)
  }

  /** Lexicographic order on plans: longer sections first, then more sections. */
  predicate PlanBelow(p: Plan, q: Plan)
  {
    p.nfft < q.nfft || (p.nfft == q.nfft && p.ns < q.ns)
  }

  /** Multiplication by a non-negative factor keeps order. */
  lemma MulMonotone(a: nat, b: nat, q: nat)
    requires a <= b
    ensures a * q <= b * q
  {
  }

  /** One more section adds one section length. */
  lemma MulSucc(a: nat, q: nat)
    ensures (a + 1) * q == a * q + q
  {
  }

  /** Fewer sections of the same length fit too. */
  lemma FeasibleDownInCount(n: nat, i: nat, j: nat, k: nat)
    requires Feasible(n, i, j) && MinSections <= k <= j
    ensures Feasible(n, i, k)
  {
    ShiftedMonotoneInCount(k, j, i);
  }

  /** The same number of shorter sections fits too. */
  lemma FeasibleDownInExponent(n: nat, i: nat, j: nat, e: nat)
    requires Feasible(n, i, j) && MinExponent <= e <= i
    ensures Feasible(n, e, j)
  {
    ShiftedMonotoneInExponent(j, e, i);
  }

  /**
   The largest exponent in [MinExponent, hi] for which the smallest section count
   fits below n, searching downward from hi.
   */
  function LargestExponent(n: nat, hi: nat): (r: Option<nat>)
    requires hi <= MaxExponent
    ensures r.Some? ==> MinExponent <= r.value <= hi && Feasible(n, r.value, MinSections)
    // Termination needs only hi. The unchanging n is listed as well purely as solver tuning:
    // it keeps the verifier from unfolding the whole search when hi is a literal bound.
    decreases n, hi
  {
    if hi < MinExponent then None
    else if Shifted(MinSections, hi) < n then Some(hi)
    else LargestExponent(n, hi - 1)
  }

  /** No exponent up to hi that fits is missed, or lies above the one found. */
  lemma {:induction false} LargestExponentIsMax(n: nat, hi: nat, i: nat)
    requires hi <= MaxExponent && i <= hi
    requires Feasible(n, i, MinSections)
    ensures LargestExponent(n, hi).Some? && i <= LargestExponent(n, hi).value
    decreases hi
  {
    if i < hi && !(Shifted(MinSections, hi) < n) {
      LargestExponentIsMax(n, hi - 1, i);
    }
  }

  /** The largest section count in [MinSections, hi] that fits below n with NFFT = 2^i. */
  function LargestCount(n: nat, i: nat, hi: nat): (r: Option<nat>)
    requires MinExponent <= i <= MaxExponent
    requires hi <= MaxSections
    ensures r.Some? ==> MinSections <= r.value <= hi && Feasible(n, i, r.value)
    // As in LargestExponent, only hi matters for termination; n is solver tuning.
    decreases n, hi
  {
    if hi < MinSections then None
    else if Shifted(hi, i) < n then Some(hi)
    else LargestCount(n, i, hi - 1)
  }

  /** No count up to hi that fits is missed, or lies above the one found. */
  lemma {:induction false} LargestCountIsMax(n: nat, i: nat, hi: nat, j: nat)
    requires hi <= MaxSections && j <= hi
    requires Feasible(n, i, j)
    ensures LargestCount(n, i, hi).Some? && j <= LargestCount(n, i, hi).value
    decreases hi
  {
    if j < hi && !(Shifted(hi, i) < n) {
      LargestCountIsMax(n, i, hi - 1, j);
    }
  }

  /** An exponent that fits while the next one does not is the one the search finds. */
  lemma LargestExponentIs(n: nat, hi: nat, e: nat)
    requires hi <= MaxExponent && e <= hi
    requires Feasible(n, e, MinSections)
    requires e == hi || !Feasible(n, e + 1, MinSections)
    ensures LargestExponent(n, hi) == Some(e)
  {
    LargestExponentIsMax(n, hi, e);
    var r := LargestExponent(n, hi).value;
    if e < r {
      FeasibleDownInExponent(n, r, MinSections, e + 1);
    }
  }

  /** A count that fits while the next one does not is the one the search finds. */
  lemma LargestCountIs(n: nat, i: nat, hi: nat, j: nat)
    requires hi <= MaxSections && j <= hi
    requires Feasible(n, i, j)
    requires j == hi || !Feasible(n, i, j + 1)
    ensures LargestCount(n, i, hi) == Some(j)
  {
    LargestCountIsMax(n, i, hi, j);
    var r := LargestCount(n, i, hi).value;
    if j < r {
      FeasibleDownInCount(n, i, r, j + 1);
    }
  }

  /** The count search succeeds exactly when the smallest count fits. */
  lemma LargestCountExists(n: nat, i: nat, hi: nat)
    requires MinExponent <= i <= MaxExponent && MinSections <= hi <= MaxSections
    ensures LargestCount(n, i, hi).Some? <==> Feasible(n, i, MinSections)
  {
    var r := LargestCount(n, i, hi);
    if r.Some? {
      FeasibleDownInCount(n, i, r.value, MinSections);
    } else if Feasible(n, i, MinSections) {
      LargestCountIsMax(n, i, hi, MinSections);
    }
  }

  /** The exponent search succeeds exactly when the smallest pair, 8 x 2^3, fits. */
  lemma LargestExponentExists(n: nat, hi: nat)
    requires MinExponent <= hi <= MaxExponent
    ensures LargestExponent(n, hi).Some? <==> Feasible(n, MinExponent, MinSections)
  {
    var r := LargestExponent(n, hi);
    if r.Some? {
      FeasibleDownInExponent(n, r.value, MinSections, MinExponent);
    } else if Feasible(n, MinExponent, MinSections) {
      LargestExponentIsMax(n, hi, MinExponent);
    }
  }

  /** What an accepted pair guarantees: counts in range, NS x NFFT < n, NFFT a tried power of two. */
  lemma AdmissibleFits(n: nat, p: Plan)
    requires Admissible(n, p)
    ensures MinSections <= p.ns <= MaxSections && p.ns * p.nfft < n && IsSegmentLength(p.nfft)
  {
    var i :| Feasible(n, i, p.ns) && p.nfft == Pow2(i);
    ShiftedIsProduct(p.ns, i);
  }

  /**
   The plan the selector must return for a record of n points: NFFT = 2^i* for the
   largest admissible i*, then the largest admissible NS for that NFFT; an error when
   no pair fits.
   */
  function SelectSegments(n: nat): (r: Result<Plan>)
    ensures r.Err? <==> n <= 64
    ensures r.Ok? ==> Admissible(n, r.value)
  {
    LargestExponentExists(n, MaxExponent);
    match LargestExponent(n, MaxExponent)
    case None => Err(InsufficientData)
    case Some(i) =>
      LargestCountExists(n, i, MaxSections);
      Ok(Plan(LargestCount(n, i, MaxSections).value, Pow2(i)))
  }

  /** The plan selected for a record that admits some pair, with the exponent it comes from. */
  lemma SelectUnfold(n: nat) returns (e: nat, j: nat)
    requires Feasible(n, MinExponent, MinSections)
    ensures LargestExponent(n, MaxExponent) == Some(e)
    ensures MinExponent <= e <= MaxExponent
    ensures LargestCount(n, e, MaxSections) == Some(j)
    ensures SelectSegments(n) == Ok(Plan(j, Pow2(e)))
  {
    LargestExponentExists(n, MaxExponent);
    e := LargestExponent(n, MaxExponent).value;
    LargestCountExists(n, e, MaxSections);
    j := LargestCount(n, e, MaxSections).value;
  }

  /**
   No feasible pair lies above the selected plan in the lexicographic order: every
   pair the selector accepts has a shorter NFFT, or the same NFFT and no more sections.
   */
  lemma SelectIsLexMax(n: nat, i: nat, j: nat)
    requires Feasible(n, i, j)
    ensures SelectSegments(n).Ok?
    ensures Plan(j, Pow2(i)) == SelectSegments(n).value || PlanBelow(Plan(j, Pow2(i)), SelectSegments(n).value)
  {
    FeasibleDownInCount(n, i, j, MinSections);
    FeasibleDownInExponent(n, i, MinSections, MinExponent);
    var e, k := SelectUnfold(n);
    LargestExponentIsMax(n, MaxExponent, i);
    if i < e {
      Pow2StrictlyIncreasing(i, e);
    } else {
      assert i == e;
      LargestCountIsMax(n, i, MaxSections, j);
    }
  }

  /**
   The selected NFFT in closed form: the largest tried power of two with
   8 x NFFT < n, so either 2^19 or at least n / 16.
   */
  lemma SelectLengthClosedForm(n: nat)
    requires 64 < n
    ensures 8 * SelectSegments(n).value.nfft < n
    ensures SelectSegments(n).value.nfft == Pow2(MaxExponent) || n <= 16 * SelectSegments(n).value.nfft
  {
    var e, j := SelectUnfold(n);
    ShiftedIsProduct(MinSections, e);
    if e < MaxExponent {
      if Feasible(n, e + 1, MinSections) {
        LargestExponentIsMax(n, MaxExponent, e + 1);
      }
    }
  }

  /** min((n - 1) / q, 29): how many whole sections of q points fit strictly below n, capped. */
  function CappedQuotient(n: nat, q: nat): nat
    requires n >= 1 && q >= 1
  {
    var d := (n - 1) / q;
    if d < MaxSections then d else MaxSections
  }

  /** The largest j <= 29 with j x q < n is min(29, (n - 1) / q). */
  lemma CountIsQuotient(n: nat, j: nat, q: nat)
    requires q >= 1 && j <= MaxSections && j * q < n
    requires j == MaxSections || n <= (j + 1) * q
    ensures j == CappedQuotient(n, q)
  {
    var d := (n - 1) / q;
    var m := (n - 1) % q;
    assert d * q + m == n - 1 && m < q;
    MulSucc(d, q);
    if d < j {
      MulMonotone(d + 1, j, q);
    }
    if j < MaxSections && j < d {
      MulMonotone(j + 1, d, q);
    }
  }

  /** The selected NS in closed form: (n - 1) / NFFT, capped at 29. */
  lemma SelectCountClosedForm(n: nat)
    requires 64 < n
    ensures SelectSegments(n).value.nfft >= 1
    ensures SelectSegments(n).value.ns == CappedQuotient(n, SelectSegments(n).value.nfft)
  {
    var e, j := SelectUnfold(n);
    var q := Pow2(e);
    ShiftedIsProduct(j, e);
    ShiftedIsProduct(j + 1, e);
    assert j == MaxSections || n <= (j + 1) * q by {
      if j < MaxSections && Feasible(n, e, j + 1) {
        LargestCountIsMax(n, e, MaxSections, j + 1);
      }
    }
    CountIsQuotient(n, j, q);
  }

  /** A short record: 64 points admit no pair, since 8 x 8 is not below 64. */
  lemma ShortRecordFails()
    ensures SelectSegments(64) == Err(InsufficientData)
    ensures SelectSegments(65) == Ok(Plan(8, 8))
  {
    assert Shifted(8, 3) == 64 && Shifted(9, 3) == 72 && Shifted(8, 4) == 128;
    assert Pow2(3) == 8;
    LargestExponentIs(65, MaxExponent, 3);
    LargestCountIs(65, 3, MaxSections, 8);
  }

  /** N = 10000 selects NFFT = 1024 and NS = 9: 9 x 1024 < 10000 <= 8 x 2048. */
  lemma TenThousandPoints()
    ensures SelectSegments(10000) == Ok(Plan(9, 1024))
  {
    assert Shifted(9, 10) == 9216 && Shifted(10, 10) == 10240 && Shifted(8, 11) == 16384;
    assert Pow2(10) == 1024;
    LargestExponentIs(10000, MaxExponent, 10);
    LargestCountIs(10000, 10, MaxSections, 9);
  }
}
