/**
 The segment-size selector of the signal-processing helpers: the nested loops that
 append every accepted (NS, NFFT) pair to two parallel lists, and the selection of
 the last pair appended.
 */
module Signal {
  import opened Powers
  import opened SegmentPlan
  import opened Candidates

  /** The parallel lists read pair by pair. */
  function Zip(counts: seq<nat>, lengths: seq<nat>): seq<Plan>
    requires |counts| == |lengths|
  {
    seq(|counts|, k requires 0 <= k < |counts| => Plan(counts[k], lengths[k]))
  }

  /**
   The two loops for a record of n points: exponents 3..19 outer, counts 8..29
   inner, appending j and 2^i together whenever j x 2^i < n. The lists stay the same
   length, and pair by pair they are the sorted feasible pairs.
   */
  method CollectCandidates(n: nat) returns (counts: seq<nat>, lengths: seq<nat>)
    ensures |counts| == |lengths|
    ensures Zip(counts, lengths) == Enumeration(n)
    ensures Sorted(Zip(counts, lengths))
    ensures forall k :: 0 <= k < |counts| ==>
      MinSections <= counts[k] <= MaxSections && counts[k] * lengths[k] < n
      && IsSegmentLength(lengths[k])
  {
    counts, lengths := [], [];
    var i := MinExponent;
    while i < MaxExponent + 1
      invariant MinExponent <= i <= MaxExponent + 1
      invariant |counts| == |lengths|
      invariant Zip(counts, lengths) == Table(n, i)
    {
      counts, lengths := AppendRow(n, i, counts, lengths);
      assert Table(n, i + 1) == Table(n, i) + Row(n, i, MaxSections + 1);
      i := i + 1;
    }
    CandidatesFit(n, counts, lengths);
  }

  /**
   The inner loop for exponent i: counts 8..29, appending j and 2^i together
   whenever j x 2^i < n.
   */
  method AppendRow(n: nat, i: nat, counts0: seq<nat>, lengths0: seq<nat>)
    returns (counts: seq<nat>, lengths: seq<nat>)
    requires |counts0| == |lengths0|
    ensures |counts| == |lengths|
    ensures Zip(counts, lengths) == Zip(counts0, lengths0) + Row(n, i, MaxSections + 1)
  {
    counts, lengths := counts0, lengths0;
    var j := MinSections;
    assert Zip(counts0, lengths0) + Row(n, i, j) == Zip(counts0, lengths0);
    while j < MaxSections + 1
      invariant MinSections <= j <= MaxSections + 1
      invariant |counts| == |lengths|
      invariant Zip(counts, lengths) == Zip(counts0, lengths0) + Row(n, i, j)
    {
      ShiftedIsProduct(j, i);
      if j * Pow2(i) < n {
        ZipSnoc(counts, lengths, j, Pow2(i));
        counts := counts + [j];
        lengths := lengths + [Pow2(i)];
      }
      j := j + 1;
    }
  }

  /** Appending one pair to both lists appends that pair to the zipped view. */
  lemma ZipSnoc(counts: seq<nat>, lengths: seq<nat>, c: nat, l: nat)
    requires |counts| == |lengths|
    ensures Zip(counts + [c], lengths + [l]) == Zip(counts, lengths) + [Plan(c, l)]
  {
  }

  /** Lists that zip to the enumeration hold sorted, accepted pairs. */
  lemma CandidatesFit(n: nat, counts: seq<nat>, lengths: seq<nat>)
    requires |counts| == |lengths| && Zip(counts, lengths) == Enumeration(n)
    ensures Sorted(Zip(counts, lengths))
    ensures forall k :: 0 <= k < |counts| ==>
      MinSections <= counts[k] <= MaxSections && counts[k] * lengths[k] < n
      && IsSegmentLength(lengths[k])
  {
    EnumerationSortedAndSound(n);
    forall k | 0 <= k < |counts|
      ensures MinSections <= counts[k] <= MaxSections && counts[k] * lengths[k] < n
      ensures IsSegmentLength(lengths[k])
    {
      AdmissibleFits(n, Zip(counts, lengths)[k]);
    }
  }

  /**
   GetNS_NFFT: the last (NS, NFFT) pair the loops append. With no pair appended the
   source indexes an empty list; that failure is `Err(InsufficientData)`. The result
   depends on the record only through its length, and `showInfo` (which only prints)
   does not affect it.
   */
  method GetNsNfft<T>(data: seq<T>, showInfo: bool) returns (r: Result<Plan>)
    ensures r == SelectSegments(|data|)
    ensures r.Ok? <==> |Enumeration(|data|)| > 0
    ensures r.Ok? ==> r.value == Last(Enumeration(|data|))
    ensures r.Err? <==> |data| <= 64
    ensures r.Ok? ==> MinSections <= r.value.ns <= MaxSections && r.value.ns * r.value.nfft < |data|
    ensures r.Ok? ==> IsSegmentLength(r.value.nfft)
  {
    var n := |data|;
    var counts, lengths := CollectCandidates(n);
    EnumerationLast(n);
    if SelectSegments(n).Ok? {
      AdmissibleFits(n, SelectSegments(n).value);
    }
    if |counts| == 0 {
      return Err(InsufficientData);
    }
    r := Ok(Plan(counts[|counts| - 1], lengths[|lengths| - 1]));
  }
}
