# Segment-size selector for power-spectral-density estimates

`GetNS_NFFT` chooses, for a record of N points, a number of sub-sections NS and a
sub-section length NFFT (a power of two) with NS x NFFT < N, "for calculating the power
spectral density" as its documentation says. It runs two nested loops: exponents
i = 3..19 outer and counts j = 8..29 inner. Each accepted pair, (j, 2^i) with
j x 2^i < N, is appended to two parallel lists. The function then returns the last
pair appended. The `PowerSpectrum` function beside it takes a single FFT over the
whole record and does not use NS or NFFT.

This project models that selector in Dafny.

- `powers.dfy` (module `Powers`): defines `2**i`, and the product j x 2^i as j doubled
  i times.
- `segment_plan.dfy` (module `SegmentPlan`): says which plan must be chosen, without
  reference to any loop.
  - `SelectSegments` takes the largest exponent whose smallest count fits. It then
    takes the largest count that fits for that exponent.
  - It fails when no pair fits.
- `candidates.dfy` (module `Candidates`): models the appended pairs as a pure
  function of N. It shows that this sequence is exactly the accepted pairs, in
  increasing lexicographic order. So its last element is `SelectSegments`'s plan.
- `signal.dfy` (module `Signal`): the nested loops as methods that build the two
  parallel lists, plus `GetNsNfft`, which returns their last entries.

The source indexes `NS[-1]` on an empty list when N <= 64; the model returns
`Err(InsufficientData)` in that case. The data values and the `showInfo` flag never
influence the result: `GetNsNfft` takes any sequence and is specified only through
its length.

NS is always between 8 and 29. For N = 10000
the code selects NFFT = 1024 and NS = 9. The reason is that 8 x 2048 = 16384 does not
fit below 10000, while 9 x 1024 = 9216 does and 10 x 1024 does not.
`TenThousandPoints` states this case.

## Model

| member | source | states |
|---|---|---|
| SegmentPlan.SelectSegments | mySignal.py:61-88 | Selection fails exactly when N <= 64. Otherwise the plan is a pair the loops accept: NFFT = 2^i for some i in 3..19, 8 <= NS <= 29, and NS x 2^i < N. |
| SegmentPlan.SelectIsLexMax | mySignal.py:74-81 | Every pair the loops accept is either the returned plan or below it. Below means a shorter NFFT, or the same NFFT with fewer sections. So NFFT is maximal, and NS is maximal for that NFFT. |
| SegmentPlan.SelectLengthClosedForm | mySignal.py:74-81 | The returned NFFT satisfies 8 x NFFT < N. It is 2^19, or else doubling it would no longer fit: N <= 16 x NFFT. |
| SegmentPlan.SelectCountClosedForm | mySignal.py:75-81 | The returned NS is min((N - 1) / NFFT, 29), the most whole sections that fit strictly below N. |
| SegmentPlan.CountIsQuotient | mySignal.py:75-77 | A count j <= 29 with j x q < N, whose successor does not fit or exceeds 29, equals min((N - 1) / q, 29). |
| SegmentPlan.LargestExponentIsMax | mySignal.py:74-77 | The downward exponent search finds an exponent no smaller than any exponent whose smallest count fits. |
| SegmentPlan.LargestCountIsMax | mySignal.py:75-77 | The downward count search finds a count no smaller than any count that fits for that exponent. |
| SegmentPlan.LargestExponentExists | mySignal.py:74-81 | Some exponent is found exactly when the smallest pair, 8 x 2^3, fits below N. |
| SegmentPlan.LargestCountExists | mySignal.py:75-77 | Some count is found for an exponent exactly when 8 sections of that length fit. |
| SegmentPlan.FeasibleDownInCount | mySignal.py:75-77 | When j sections fit, any smaller count of at least 8 fits too. |
| SegmentPlan.FeasibleDownInExponent | mySignal.py:74-77 | When a count fits with NFFT = 2^i, it also fits with any smaller tried exponent. |
| SegmentPlan.AdmissibleFits | mySignal.py:76-78 | Every accepted pair has 8 <= NS <= 29, NS x NFFT < N and NFFT a tried power of two. |
| SegmentPlan.ShortRecordFails | mySignal.py:76-81 | 64 points admit no pair. 65 points give NS = 8, NFFT = 8. |
| SegmentPlan.TenThousandPoints | mySignal.py:74-81 | 10000 points give NS = 9, NFFT = 1024. |
| Powers.ShiftedIsProduct | mySignal.py:76 | Doubling j i times equals j x 2**i, the product the loop compares with N. |
| Powers.Pow2StrictlyIncreasing | mySignal.py:74 | Larger exponents give strictly longer sections. |
| Powers.Pow2 | mySignal.py:74-78 | `2**i`, the NFFT the loops append; it is always at least 1. |
| Powers.Shifted | mySignal.py:76 | The product `j*(2**i)` tested against N, computed as j doubled i times. It has no contract of its own; its meaning is `ShiftedIsProduct`. |
| Candidates.Row | mySignal.py:75-78 | The pairs one inner loop appends after trying counts 8 up to j - 1. It has no contract of its own; its meaning comes from `RowLast`, `RowShape` and `RowComplete`. |
| Candidates.Table | mySignal.py:74-78 | The pairs the outer loop has appended after trying exponents 3 up to i - 1. It has no contract of its own; its meaning comes from `TableEmpty`, `TableLast`, `TableShape` and `TableComplete`. |
| Candidates.Enumeration | mySignal.py:74-78 | Everything the two loops append. It has no contract of its own; its meaning comes from `EnumerationSortedAndSound`, `EnumerationComplete` and `EnumerationLast`. |
| Candidates.RowLast | mySignal.py:75-78 | The inner loop for one exponent appends nothing exactly when no count fits. Otherwise its last pair is the largest count that fits, with that exponent's NFFT. |
| Candidates.TableEmpty | mySignal.py:74-78 | After trying exponents below i, the lists are empty exactly when none of those exponents admits 8 sections. |
| Candidates.TableLast | mySignal.py:74-78 | After trying exponents below i, the last pair comes from the largest exponent that admits a count, with that exponent's largest count. |
| Candidates.EnumerationLast | mySignal.py:74-81 | The loops append nothing exactly when selection fails. Otherwise the last pair appended is the selected plan. |
| Candidates.RowShape | mySignal.py:75-78 | One inner loop appends pairs with the same NFFT, strictly increasing counts, and each pair fits. |
| Candidates.TableShape | mySignal.py:74-78 | The pairs appended so far are strictly increasing lexicographically, all accepted, and all shorter than the next exponent. |
| Candidates.EnumerationSortedAndSound | mySignal.py:74-78 | The full list of pairs is strictly increasing lexicographically, and every pair is accepted. |
| Candidates.RowComplete | mySignal.py:75-78 | Every count that fits and was tried in an inner loop was appended. |
| Candidates.TableComplete | mySignal.py:74-78 | Every accepted pair with a tried exponent was appended. |
| Candidates.EnumerationComplete | mySignal.py:74-78 | The loops miss no accepted pair. |
| Signal.Zip | mySignal.py:77-81 | The parallel lists read pair by pair, the count and the length taken at the same index. It has no contract of its own; its meaning comes from `ZipSnoc` and from `CollectCandidates`, which ensures the two lists have equal length and zip to `Enumeration(n)`. |
| Signal.CollectCandidates | mySignal.py:71-78 | The two lists always have equal length. Read pair by pair, they are exactly the accepted pairs in increasing order. Each pair has 8 <= NS <= 29, NS x NFFT < N and NFFT a tried power of two. |
| Signal.AppendRow | mySignal.py:75-78 | One inner loop extends both lists together by exactly the pairs accepted for that exponent. |
| Signal.CandidatesFit | mySignal.py:74-78 | Lists equal to the full enumeration are sorted and hold only accepted pairs. |
| Signal.GetNsNfft | mySignal.py:61-88 | The result is the last pair of the two lists, taken at the same index. It agrees with `SelectSegments` on the record's length, whatever the data values or `showInfo`. It fails exactly when N <= 64, and otherwise satisfies the range, product and power-of-two bounds. |

## Left out

- The `showInfo` printing (mySignal.py:83-86) is console output only. The flag is a parameter that does not affect the result.
- `GetNsNfft`: the Python `IndexError` on an empty list is modelled as the value `Err(InsufficientData)`, not as an exception.
- `PowerSpectrum`, `applyGridInterp` and the rest of mySignal.py are left out: FFT and floating-point interpolation are outside this model.
- myStats.py, myData.py and myPlots.py are not part of this model: statistics, file I/O and plotting.
- The package `__init__.py` and `main_functions.py` are not part of this model: they only wire the helpers together.
