# calcInfo in Dafny

calcInfo simulates a discrete memoryless source over the 256 byte values and measures what
it produced. This project models its two halves.

- **The generator** (`byteSource/byteSource.py`, and the older copy `byteSource/ByteSource.py`):
  - a probability vector becomes its cumulative distribution (`CDF`, a running sum);
  - each uniform draw `f` becomes the first symbol `i` with `f <= F[i]` (`gen_msg_arr`,
    inverse-transform sampling by `np.searchsorted`);
  - the newer file casts the result to `uint8`; the older one returns the raw index;
  - the 8-fold extension of a binary source gives byte `i` the probability
    `p^popcount(i) · (1-p)^(8-popcount(i))`;
  - a distribution is read from `symbol,probability` records into a zeroed 256-entry vector.
- **The estimator** (`calcInfo.py`):
  - `probability` is the 256-bin histogram of a byte array divided by its length;
  - `self_info` is a masked `-log2` that writes into a caller's buffer only where `p != 0`;
  - `entropy` is the weighted sum `Σ p[i]·self_info(p)[i]`.

Probabilities are Dafny `real`s, so sums and products are exact. `log2` is a parameter of
type `real -> real`. Lemmas that need particular values of it ask for them
(`log2(1) == 0`, `log2(1/256) == -8`).

Module layout, one file each:
- `Wrappers`: `Option` and `Result`.
- `Alphabet`: the byte type and the `uint8` cast.
- `Vectors`: sums of real vectors.
- `CumulativeDistribution`: `CDF`.
- `InverseCdf`: `np.searchsorted` with its left side. It has a linear specification and a
  binary-search method proved to meet it. It is also the whole of `gen_msg_arr` in
  `byteSource/ByteSource.py`.
- `ByteSource`: `gen_msg_arr` with the `uint8` cast.
- `ExtendedSource`: the binary-source extension.
- `DistributionLoader`: `read_as_probability_distribution`. It is textually identical in
  both generator files.
- `CalcInfo`: the estimator.
- `Pipeline`: the two halves composed.

Some behaviours of the code are easy to misread; the model follows the code.
- A draw of exactly 0 yields symbol 0 for every non-negative distribution, even one with
  `p[0] == 0`, because the insertion point of 0 is before `F[0] >= 0`. It does not yield the
  first symbol of positive probability (`ByteSource.ZeroDrawPicksSymbolZero`).
- The result of `gen_msg_arr` is cast to `uint8`, which wraps 256 to 0. Nothing clamps it
  to 255 (see Findings).
- `self_info` returns the negation of the whole output buffer. At zero-probability slots
  the result is therefore `-out[i]`, the negated old buffer content, not `out[i]`. With the
  zero-filled buffer that `TestCalcInfo.py` passes, both are 0.
- `entropy` calls `self_info` without a buffer, so numpy allocates an uninitialised one.
  The model gives `Entropy` an arbitrary `buffer` argument for those contents and proves
  that the result does not depend on it (`CalcInfo.Entropy`).

## Model

| member | source | states |
|---|---|---|
| Alphabet.Uint8 | byteSource/byteSource.py:60 | the `uint8` cast leaves 0..255 unchanged and turns 256 into 0; it does not clamp |
| CumulativeDistribution.Cdf | byteSource/byteSource.py:5-12 | `CDF(p)` has the length of `p` and entry `i` is `p[0] + … + p[i]` |
| CumulativeDistribution.CdfStep | byteSource/byteSource.py:12 | the first entry is `p[0]` and every later entry is the previous one plus `p[i]` |
| CumulativeDistribution.CdfLast | byteSource/byteSource.py:12 | the last CDF entry is the total probability |
| CumulativeDistribution.CdfGrowth | byteSource/byteSource.py:12 | between positions `i <= j` the CDF grows by exactly `p[i+1] + … + p[j]` |
| CumulativeDistribution.CdfOrdered | byteSource/ByteSource.py:12 | for non-negative `p`, `i <= j` implies `F[i] <= F[j]` |
| CumulativeDistribution.CdfOfNonNegative | byteSource/ByteSource.py:5-12 | for non-negative `p` the CDF is non-decreasing and non-negative, and no entry exceeds the total |
| InverseCdf.InsertionPoint | byteSource/byteSource.py:36-39 | the left insertion point: at most `len(F)`, every earlier entry is below `f`, and `f <= F[i]` when `i < len(F)` |
| InverseCdf.InsertionPointUnique | byteSource/byteSource.py:36-39 | the interval conditions `F[i-1] < f <= F[i]` determine the symbol |
| InverseCdf.SearchSortedLeft | byteSource/byteSource.py:60 | on a sorted CDF, binary search returns exactly the left insertion point |
| InverseCdf.SearchSorted | byteSource/ByteSource.py:60 | one raw index per draw, each the left insertion point and at most `len(F)`; a draw above the last entry gives `len(F)`; a larger draw never gives a smaller index |
| InverseCdf.InsertionPointMonotone | byteSource/ByteSource.py:60 | `f1 <= f2` implies the index of `f1` is at most that of `f2`, for the same CDF |
| InverseCdf.InsertionPointPastEnd | byteSource/ByteSource.py:60 | in a sorted CDF a draw above the last entry gives exactly `len(F)` |
| InverseCdf.InsertionPointInRange | byteSource/byteSource.py:36-39 | a draw at or below the last entry gives a real symbol, below `len(F)` |
| InverseCdf.ZeroWidthNeverChosen | byteSource/byteSource.py:38 | a symbol `i > 0` with `F[i] == F[i-1]` is never chosen, for any draw |
| InverseCdf.BoundaryExample | byteSource/byteSource.py:36-39 | with CDF `[0.3, 0.3, 1.0]`, the draw 0.3 goes to symbol 0 and 0.30001 to symbol 2 |
| ByteSource.Emitted | byteSource/byteSource.py:60 | the stream `gen_msg_arr` returns: one byte per draw; a draw whose insertion point is below 256 gives that point, and insertion point 256 gives 0. What the stream contains is stated by `ZeroProbabilitySymbolNeverEmitted`, `NormalisedSourceNeverWraps` and `WrapBreaksMonotonicity` |
| ByteSource.GenMsgArr | byteSource/byteSource.py:24-60 | one byte per draw, the cast insertion point; with 256 symbols a draw at or below `F[255]` gives its insertion point unchanged and a draw above `F[255]` gives 0 |
| ByteSource.ZeroDrawPicksSymbolZero | byteSource/byteSource.py:37 | for a non-negative distribution a draw of 0 gives symbol 0, even when `p[0] == 0` |
| ByteSource.ZeroProbabilitySymbolNeverEmitted | byteSource/byteSource.py:60 | a symbol `i > 0` with `p[i] == 0` appears nowhere in the emitted stream, whatever the draws |
| ByteSource.DegenerateSourceEmitsZero | byteSource/TestByteSource.py:80-83 | with distribution `[1, 0, …, 0]` every draw up to 1 gives symbol 0 |
| ByteSource.NormalisedSourceNeverWraps | byteSource/byteSource.py:60 | if `p` sums to 1, every draw up to 1 has insertion point below 256 and the cast keeps it |
| ByteSource.WrapBreaksMonotonicity | byteSource/byteSource.py:60 | as written: with total 0.9999 on symbol 255, the draw 0.5 gives 255 but the larger draw 0.99995 gives 0 |
| ByteSource.ClampedSymbol | byteSource/byteSource.py:60 | the corrected symbol for one draw: never above the insertion point, equal to it below 256, and 255 for insertion point 256; `ClampedAgreesInRange` and `ClampedMonotone` give its meaning |
| ByteSource.ClampedAgreesInRange | byteSource/byteSource.py:60 | at or below `F[255]` the clamped symbol equals the cast one and the insertion point; above it, on a sorted CDF, it is 255 |
| ByteSource.ClampedMonotone | byteSource/byteSource.py:36-39 | the clamped symbol never decreases as the draw grows |
| ByteSource.GenMsgArrClamped | byteSource/byteSource.py:60 | corrected generator: one clamped symbol per draw, and larger draws never give smaller symbols |
| ExtendedSource.Popcount | byteSource/byteSource.py:96 | `bin(i).count('1')`, the number of one bits of `i`; `PopcountBound`, `PopcountZero` and `PopcountFull` state its properties |
| ExtendedSource.PopcountBound | byteSource/byteSource.py:96 | an 8-bit pattern has at most 8 one bits, so the exponent `8 - popcount(i)` is natural |
| ExtendedSource.PopcountZero | byteSource/byteSource.py:96 | only pattern 0 has no one bits |
| ExtendedSource.PopcountFull | byteSource/byteSource.py:96 | among `n`-bit patterns only the all-ones one has `n` one bits |
| ExtendedSource.PatternProb | byteSource/byteSource.py:96 | the weight `x^popcount(i) · y^(n-popcount(i))` of the `n`-bit pattern `i`; `ProductAt` proves it equal to the independent bit-by-bit product, and `PatternProbIsProbability` bounds it |
| ExtendedSource.PatternProbIsProbability | byteSource/byteSource.py:96 | with both bit weights in [0, 1], the weight of every pattern lies in [0, 1] |
| ExtendedSource.ExtendedSourceProb | byteSource/byteSource.py:96 | the extended-source vector has 256 entries |
| ExtendedSource.ProductAt | byteSource/byteSource.py:96 | the popcount formula equals the weight of the bit pattern built one independent bit at a time |
| ExtendedSource.ExtendedSourceIsProduct | byteSource/byteSource.py:96 | the extended source is the product distribution of 8 independent bits |
| ExtendedSource.ProductSum | byteSource/byteSource.py:96 | the weights of `n` independent bits sum to `(x + y)^n` |
| ExtendedSource.ExtendedSourceSumsToOne | byteSource/TestByteSource.py:110 | for every `p` the extended source sums to exactly 1 |
| ExtendedSource.ExtendedSourceEntriesAreProbabilities | byteSource/byteSource.py:96 | for `p` in [0, 1] every entry lies in [0, 1] |
| ExtendedSource.FairBitIsUniform | byteSource/TestByteSource.py:145-146 | `p = 0.5` gives every byte probability 1/256 |
| ExtendedSource.NeverOneIsPointMassAtZero | byteSource/TestByteSource.py:152-153 | `p = 0` puts mass 1 on byte 0 and 0 elsewhere, using `0^0 = 1` |
| ExtendedSource.AlwaysOneIsPointMassAt255 | byteSource/TestByteSource.py:159-160 | `p = 1` puts mass 1 on byte 255 and 0 elsewhere |
| DistributionLoader.Slot | byteSource/byteSource.py:90 | an index is accepted exactly in [-256, 256), and names the slot congruent to it modulo 256 |
| DistributionLoader.Parse | byteSource/byteSource.py:89-90 | a record that parses names a slot below 256; otherwise the `LoadError` names the exception Python raises first: the unpacking `ValueError` (`WrongFieldCount`), `int()`'s `ValueError` (`SymbolNotInteger`), numpy's `IndexError` (`SymbolOutOfRange`) or the float conversion's `ValueError` (`ProbabilityNotNumeric`) |
| DistributionLoader.Load | byteSource/byteSource.py:85-90 | a successful read always yields 256 entries |
| DistributionLoader.ReadAsProbabilityDistribution | byteSource/byteSource.py:77-92 | the in-place loop over records returns exactly the outcome `Load` specifies, error or vector |
| DistributionLoader.LoadStopsAtFirstError | byteSource/byteSource.py:88-90 | once a prefix of the records fails, the whole read fails with the same error |
| DistributionLoader.LoadSucceedsIff | byteSource/ByteSource.py:85-90 | reading succeeds if and only if every record has two fields, an integer index in range and a numeric probability |
| DistributionLoader.LoadFirstError | byteSource/byteSource.py:89-90 | the error reported is that of the first bad record |
| DistributionLoader.LoadUnmentioned | byteSource/byteSource.py:85 | a symbol no record names keeps probability 0 |
| DistributionLoader.LoadLastWins | byteSource/ByteSource.py:88-90 | a symbol's value is that of the last record naming it |
| DistributionLoader.NegativeIndexCountsFromTheEnd | byteSource/byteSource.py:90 | the index -1 assigns symbol 255 |
| DistributionLoader.IndexPastTheAlphabetFails | byteSource/byteSource.py:90 | the index 256 fails, whatever records follow |
| DistributionLoader.IndexOutOfBoundsFails | byteSource/byteSource.py:90 | any record with an integer index of 256 or more, or below -256, makes the read fail |
| DistributionLoader.WrongFieldCountFails | byteSource/byteSource.py:89 | any record that does not have exactly two fields makes the read fail |
| CalcInfo.Count | calcInfo.py:15 | a byte's count is at most the input length, and 0 exactly when the byte is absent |
| CalcInfo.CountIsMultiplicity | calcInfo.py:15 | the count is the byte's multiplicity in the multiset of the input |
| CalcInfo.Histogram | calcInfo.py:15 | the bin counts of `np.histogram(arr, bins=range(0, 257))`: 256 bins, none negative; `HistogramCounts` and `HistogramTotal` give their meaning |
| CalcInfo.HistogramCounts | calcInfo.py:15 | bin `b` holds the number of occurrences of `b` |
| CalcInfo.HistogramTotal | calcInfo.py:15 | the bins add up to the input length |
| CalcInfo.Probability | calcInfo.py:7-15 | there is no estimate (numpy's all-NaN result) exactly when the input is empty; otherwise there are 256 entries |
| CalcInfo.ProbabilityIsFrequency | calcInfo.py:15 | for non-empty input, entry `b` is `count(b) / n` |
| CalcInfo.ProbabilityBounds | calcInfo.py:15 | entries lie in [0, 1], and an entry is 0 exactly when its byte is absent |
| CalcInfo.ProbabilitySumsToOne | calcInfo.py:15 | the estimate sums to exactly 1 |
| CalcInfo.ProbabilityIgnoresOrder | calcInfo.py:15 | two inputs with the same bytes in any order have the same estimate |
| CalcInfo.ProbabilityOfAllBytes | TestCalcInfo.py:17-18 | the bytes 0..255, once each, give 1/256 for every symbol |
| CalcInfo.SelfInformation | calcInfo.py:26 | the self-information vector has one entry per probability |
| CalcInfo.SelfInfo | calcInfo.py:18-26 | `out` receives `log2(p[i])` where `p[i] != 0` and keeps its old entries elsewhere; the result is `-log2(p[i])` or the negated old entry |
| CalcInfo.SelfInfoZeroBuffer | TestCalcInfo.py:23-25 | with a zero-filled buffer, zero-probability entries give 0 and the others `-log2(p)` |
| CalcInfo.Entropy | calcInfo.py:29-36 | `entropy(p)`, the sum of `p[i]` times the self-information on an uninitialised buffer, equals Shannon's `-Σ p log2 p` over the nonzero entries, whatever the buffer held |
| CalcInfo.WeightedSelfInformationIsShannon | calcInfo.py:36 | the products `p[i] · self_info(p)[i]` sum to Shannon's entropy for any buffer contents; zero-probability slots contribute 0 |
| CalcInfo.EntropyIgnoresBuffer | calcInfo.py:36 | zero-probability symbols contribute 0 whatever placeholder self-information they got |
| CalcInfo.EntropyOfPointMass | byteSource/TestByteSource.py:80-83 | a one-hot distribution has entropy 0 |
| CalcInfo.EntropyOfUniform | byteSource/TestByteSource.py:61-63 | the uniform byte distribution has entropy 8 |
| CalcInfo.ShannonEntropyNonNegative | calcInfo.py:36 | the entropy of a distribution with entries in [0, 1] is non-negative |
| Pipeline.ProbabilityOfRepeated | calcInfo.py:15 | a stream of one repeated byte is estimated as the point mass on that byte |
| Pipeline.DegenerateRoundTrip | byteSource/TestByteSource.py:80-83 | sampling `[1, 0, …, 0]` gives only zeros, whose estimate is `[1, 0, …, 0]` again, with entropy 0 |
| Pipeline.NeverOneSourceRoundTrip | byteSource/TestByteSource.py:152-155 | sampling the extended source with `p = 0` gives a stream estimated as the point mass on 0, with entropy 0 |
| Pipeline.ExtendedSourceSamplingAgreesWithClamped | byteSource/byteSource.py:96 | for the exact (unrounded) extended-source vector the generator as written and the clamped generator emit the same symbol for every draw up to 1 |

## Left out

- `rand_arr` (`np.random.uniform`) is left out. The draws are an input sequence.
- All file and CSV I/O is left out. That covers writing the byte stream and the CSV dumps,
  the file half of `generate_bDMS_extended_source_prob_file` and its `%g` rounding,
  `open`/`csv.reader`, and reading or appending files in `calcInfo.py`. Records arrive as
  sequences of fields.
- The `parse_args` functions are left out: argument parsing, logging, timing and launching
  the tests.
- `log2` is a parameter, not the real logarithm. Floating-point rounding, NaN and infinities
  are not modelled; probabilities are exact reals.
- A CSV field is modelled by the values that `int()` and `float()`
  produce from it. The parsing of the text itself is not modelled, nor values such as `nan`
  or `inf`.
- CalcInfo.Entropy: the uninitialised buffer that numpy allocates holds arbitrary reals in
  the model. A float buffer could also hold NaN or infinity, where `0 · x` is not 0.
- CalcInfo.SelfInfo: requires `out` to have the length of `p`. numpy's error for a buffer of
  another shape is not modelled.
- CalcInfo.Probability: inputs are bytes. The histogram of values outside 0..255, and the
  bin-edge behaviour beyond one bin per byte, are not modelled.
- ByteSource.GenMsgArr and InverseCdf.SearchSorted require a non-decreasing CDF, as
  `np.searchsorted` does. For a CDF with negative steps numpy's answer is unspecified, and
  the model does not give one.
- The statistical assertions of the tests, about relative errors over many random samples,
  are not facts about any single run. They are not modelled.

## Findings

| source | as written | input that shows it | evidently intended | confidence | as-written member | corrected member |
|---|---|---|---|---|---|---|
| byteSource/byteSource.py:60 | the insertion point is cast to `uint8`, so a draw above `F[255]` (insertion point 256) wraps to symbol 0 | distribution with total 0.9999, all on symbol 255 (a total below 1, as after reading rounded decimal text); draws 0.5 and 0.99995 give 255 and then 0, a symbol of probability 0 | a draw past the last CDF entry goes to the last symbol, 255, keeping the generator monotone in the draw | medium, not executed | ByteSource.WrapBreaksMonotonicity | ByteSource.GenMsgArrClamped |
