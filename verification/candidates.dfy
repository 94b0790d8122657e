/**
 The sequence of (NS, NFFT) pairs the selector's nested loops append, written as a
 function of N: exponents i = 3..19 outer, counts j = 8..29 inner, a pair kept when
 j x 2^i < N. The lemmas here show that this sequence is exactly the feasible pairs
 in increasing lexicographic order, so its last element is the plan `SelectSegments`
 defines.
 */
module Candidates {
  import opened Powers
  import opened SegmentPlan

  /** Pairs the inner loop has appended for exponent i once it has tried counts 8 .. j - 1. */
  function Row(n: nat, i: nat, j: nat): seq<Plan>
    // Termination needs only j. The unchanging n is listed as well purely as solver tuning:
    // it keeps the verifier from unfolding the whole row when j is a literal bound.
    decreases n, j
  {
    if j <= MinSections then []
    else Row(n, i, j - 1) + (if Shifted(j - 1, i) < n then [Plan(j - 1, Pow2(i))] else [])
  }

  /** Pairs the outer loop has appended once it has tried exponents 3 .. i - 1. */
  function Table(n: nat, i: nat): seq<Plan>
    // Only i matters for termination; n is solver tuning, as in Row.
    decreases n, i
  {
    if i <= MinExponent then [] else Table(n, i - 1) + Row(n, i - 1, MaxSections + 1)
  }

  /** Everything the two loops append for a record of n points. */
  function Enumeration(n: nat): seq<Plan>
  {
    Table(n, MaxExponent + 1)
  }

  function Last(s: seq<Plan>): Plan
    requires |s| > 0
  {
    s[|s| - 1]
  }

  /** The last element of a concatenation with a non-empty tail comes from the tail. */
  lemma LastAppend(s: seq<Plan>, t: seq<Plan>)
    requires |t| > 0
    ensures Last(s + t) == Last(t)
  {
  }

  /** An element of a concatenation is in one of its parts. */
  lemma InAppend(x: Plan, s: seq<Plan>, t: seq<Plan>)
    ensures x in s + t <==> x in s || x in t
  {
  }

  /** Strictly increasing in the lexicographic order of plans. */
  predicate Sorted(s: seq<Plan>)
  {
    forall a, b :: 0 <= a < b < |s| ==> PlanBelow(s[a], s[b])
  }

  /** Every pair is one the selector accepts for n. */
  ghost predicate AllAdmissible(n: nat, s: seq<Plan>)
  {
    forall k :: 0 <= k < |s| ==> Admissible(n, s[k])
  }

  /**
   The last pair of a row is the largest count search's answer, and the row is empty
   exactly when that search finds nothing.
   */
  lemma {:induction false} RowLast(n: nat, i: nat, j: nat)
    requires MinExponent <= i <= MaxExponent
    requires MinSections <= j <= MaxSections + 1
    ensures |Row(n, i, j)| == 0 <==> LargestCount(n, i, j - 1).None?
    ensures |Row(n, i, j)| > 0 ==> Some(Last(Row(n, i, j)).ns) == LargestCount(n, i, j - 1)
    ensures |Row(n, i, j)| > 0 ==> Last(Row(n, i, j)).nfft == Pow2(i)
    decreases j
  {
    if j > MinSections {
      RowLast(n, i, j - 1);
    }
  }

  /** A full row is empty exactly when the smallest count does not fit. */
  lemma RowEmpty(n: nat, i: nat)
    requires MinExponent <= i <= MaxExponent
    ensures |Row(n, i, MaxSections + 1)| == 0 <==> !Feasible(n, i, MinSections)
  {
    RowLast(n, i, MaxSections + 1);
    LargestCountExists(n, i, MaxSections);
  }

  /** A table is empty exactly when no exponent below i admits the smallest count. */
  lemma {:induction false} TableEmpty(n: nat, i: nat)
    requires MinExponent <= i <= MaxExponent + 1
    ensures |Table(n, i)| == 0 <==> LargestExponent(n, i - 1).None?
    decreases i
  {
    if i > MinExponent {
      TableEmpty(n, i - 1);
      RowEmpty(n, i - 1);
      assert |Table(n, i)| == |Table(n, i - 1)| + |Row(n, i - 1, MaxSections + 1)|;
      assert LargestExponent(n, i - 1).None? <==>
        LargestExponent(n, i - 2).None? && !Feasible(n, i - 1, MinSections);
    }
  }

  /** The last pair of a table comes from the largest exponent that admits a count. */
  lemma {:induction false} TableLast(n: nat, i: nat, e: nat)
    requires MinExponent <= i <= MaxExponent + 1
    requires LargestExponent(n, i - 1) == Some(e)
    ensures |Table(n, i)| > 0
    ensures Last(Table(n, i)).nfft == Pow2(e)
    ensures Some(Last(Table(n, i)).ns) == LargestCount(n, e, MaxSections)
    decreases i
  {
    TableEmpty(n, i);
    var t, r := Table(n, i - 1), Row(n, i - 1, MaxSections + 1);
    assert Table(n, i) == t + r;
    RowEmpty(n, i - 1);
    if |r| == 0 {
      assert LargestExponent(n, i - 2) == Some(e);
      TableLast(n, i - 1, e);
      assert Table(n, i) == t;
    } else {
      assert e == i - 1;
      RowLast(n, e, MaxSections + 1);
      LastAppend(t, r);
    }
  }

  /**
   The last appended pair is the selected plan; nothing is appended exactly when
   selection fails.
   */
  lemma EnumerationLast(n: nat)
    ensures |Enumeration(n)| == 0 <==> SelectSegments(n).Err?
    ensures |Enumeration(n)| > 0 ==> SelectSegments(n) == Ok(Last(Enumeration(n)))
  {
    TableEmpty(n, MaxExponent + 1);
    LargestExponentExists(n, MaxExponent);
    if |Enumeration(n)| > 0 {
      var e, j := SelectUnfold(n);
      TableLast(n, MaxExponent + 1, e);
    }
  }

  /** A row holds NFFT = 2^i throughout and counts below j in increasing order. */
  lemma {:induction false} RowShape(n: nat, i: nat, j: nat)
    requires MinExponent <= i <= MaxExponent && j <= MaxSections + 1
    ensures Sorted(Row(n, i, j))
    ensures forall k :: 0 <= k < |Row(n, i, j)| ==>
      Row(n, i, j)[k].nfft == Pow2(i) && Row(n, i, j)[k].ns < j && Feasible(n, i, Row(n, i, j)[k].ns)
    decreases j
  {
    if j > MinSections {
      RowShape(n, i, j - 1);
    }
  }

  /** Concatenating two sorted runs, all of the first below all of the second, is sorted. */
  lemma SortedAppend(s: seq<Plan>, t: seq<Plan>)
    requires Sorted(s) && Sorted(t)
    requires forall a, b :: 0 <= a < |s| && 0 <= b < |t| ==> PlanBelow(s[a], t[b])
    ensures Sorted(s + t)
  {
  }

  /**
   A table is sorted, holds only accepted pairs, and every pair in it has NFFT
   below 2^i.
   */
  lemma {:induction false} TableShape(n: nat, i: nat)
    requires i <= MaxExponent + 1
    ensures Sorted(Table(n, i))
    ensures AllAdmissible(n, Table(n, i))
    ensures forall k :: 0 <= k < |Table(n, i)| ==> Table(n, i)[k].nfft < Pow2(i)
    decreases i
  {
    if i > MinExponent {
      var t, r := Table(n, i - 1), Row(n, i - 1, MaxSections + 1);
      assert Table(n, i) == t + r;
      TableShape(n, i - 1);
      RowShape(n, i - 1, MaxSections + 1);
      Pow2Succ(i - 1);
      SortedAppend(t, r);
      forall k | 0 <= k < |t + r|
        ensures Admissible(n, (t + r)[k]) && (t + r)[k].nfft < Pow2(i)
      {
        if k >= |t| {
          assert (t + r)[k] == r[k - |t|];
          assert Feasible(n, i - 1, r[k - |t|].ns);
        }
      }
    }
  }

  /** The loops append accepted pairs in increasing order, and nothing else. */
  lemma EnumerationSortedAndSound(n: nat)
    ensures Sorted(Enumeration(n))
    ensures AllAdmissible(n, Enumeration(n))
  {
    TableShape(n, MaxExponent + 1);
  }

  /** Every pair counted below j is in the row. */
  lemma {:induction false} RowComplete(n: nat, i: nat, j: nat, c: nat)
    requires Feasible(n, i, c) && c < j
    ensures Plan(c, Pow2(i)) in Row(n, i, j)
    decreases j
  {
    var r, x := Row(n, i, j - 1), Plan(j - 1, Pow2(i));
    assert Row(n, i, j) == r + [x] || Row(n, i, j) == r;
    if c < j - 1 {
      RowComplete(n, i, j - 1, c);
      InAppend(Plan(c, Pow2(i)), r, [x]);
    }
  }

  /** Every pair with exponent below i is in the table. */
  lemma {:induction false} TableComplete(n: nat, i: nat, e: nat, c: nat)
    requires Feasible(n, e, c) && e < i
    ensures Plan(c, Pow2(e)) in Table(n, i)
    decreases i
  {
    var t, r := Table(n, i - 1), Row(n, i - 1, MaxSections + 1);
    assert Table(n, i) == t + r;
    if e < i - 1 {
      TableComplete(n, i - 1, e, c);
    } else {
      RowComplete(n, e, MaxSections + 1, c);
    }
    InAppend(Plan(c, Pow2(e)), t, r);
  }

  /** The loops miss no accepted pair. */
  lemma EnumerationComplete(n: nat, i: nat, j: nat)
    requires Feasible(n, i, j)
    ensures Plan(j, Pow2(i)) in Enumeration(n)
  {
    TableComplete(n, MaxExponent + 1, i, j);
  }
}
