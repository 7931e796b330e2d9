# fastmultithreshold in Dafny

fastmultithreshold is a multi-threshold int8 quantizer. Each channel e of a
layer owns 255 sorted thresholds. A value x of channel e is quantized to
`-128 + k`, where k is how many of those thresholds x passes. The repository
computes this code in several ways:

- the naive C++ kernels count thresholds strictly below x (`referenceInner`,
  `referenceOuter`) or scan for the first threshold not below x
  (`multithreshold`);
- the optimized C++ kernels use `std::upper_bound`, which counts thresholds
  at most x. They emit the codes in three forms: appended batch-major,
  appended channel-major, or written by index into a preallocated output
  (`multithreshold`, `multithresholdLE`, `multithresholdLEMT`);
- a Python prototype has its own binary-search `upper_bound`. Its
  `multithreshold` narrows each search using the previous value of the same
  channel. It also has a branch-free `clamp`;
- a lossy lookup table (`lossy.hpp`) turns thresholds into table indices,
  writes each threshold's rank at its index and forward-fills the gaps, so a
  single table read answers a query.

The model keeps thresholds as one flat sequence `th`; channel e is
`th[e * 255 .. (e + 1) * 255]`. Thresholds and inputs are only ever compared,
so they are integers. Codes are integers, and every narrowing to `int8_t`
is written out as a modulo-256 conversion. The global threshold array of the
C++ code is an explicit parameter.

Files:

- `thresholds.dfy` (module `Thresholds`): channels, the strictly-below,
  at-most and equal counts, the `std::upper_bound` contract, the two code
  definitions and the batch-major and channel-major output layouts.
- `indexed_writes.dfy` (module `IndexedWrites`): the state of a
  preallocated output filled channel by channel at position `b * c + e`.
- `naive.dfy` (module `Naive`): `src/naive.h`.
- `optimized.dfy` (module `Optimized`): `src/optimized.h`.
- `thresholding.dfy` (module `Thresholding`): `thresholding.py`.
- `lossy.dfy` (module `Lossy`): `src/lossy.hpp`.

The kernels are imperative: they are methods with loops, proved against the
specification functions `ReferenceCodes`, `UpperBoundCodes`,
`ChannelMajorCodes`, `NaiveCodes` and `LookupTable`, and lemmas relate those
functions to each other.

## Model

| member | source | states |
|---|---|---|
| Thresholds.ReferenceCode | src/naive.h:11-14 | the reference code, -128 plus the strictly-below count of a 255-threshold channel, lies in [-128, 127] |
| Thresholds.UpperBoundCode | src/optimized.h:29-30 | the upper_bound code, -128 plus the at-most count, lies in [-128, 127] |
| Thresholds.StdUpperBound | src/optimized.h:30 | on a sorted channel std::upper_bound returns the split point: everything before it is <= the value, everything from it on is > the value |
| Thresholds.UpperBoundIsCount | src/optimized.h:30 | that split point is exactly the number of thresholds at most the value |
| Thresholds.ToInt8 | src/naive.h:24 | the int to int8_t conversion lands in [-128, 127], agrees modulo 256 and is the identity on [-128, 127], so narrowing a code loses nothing |
| Thresholds.ReferenceCodeMonotone | src/naive.h:12-13 | referenceInner is monotone in the input for a fixed channel, sorted or not |
| Thresholds.UpperBoundCodeMonotone | src/optimized.h:30 | the upper_bound code is monotone in the input for a fixed channel |
| Thresholds.UpperBoundVsReference | src/optimized.h:30 | the upper_bound code is the reference code plus the number of thresholds equal to the input; the two are equal iff no threshold equals the input |
| Thresholds.CodesAgreeIffNoTies | src/naive.h:13 | over a whole batch, the upper_bound codes equal the reference codes iff no value of a complete sample equals a threshold of its channel |
| Thresholds.WholeSamplesFit | src/naive.h:22 | the batch loops cover (len / elemcount) * elemcount values, and fewer than elemcount trailing values are dropped |
| Thresholds.CodesAt | src/naive.h:22-27 | batch-major output has (len / elemcount) * elemcount codes, and position b * elemcount + e holds the code of inp[b * elemcount + e] in channel e |
| Thresholds.ChannelMajorIsTranspose | src/optimized.h:41-46 | the channel-major position e * samples + b holds what batch-major output holds at b * elemcount + e |
| Naive.ReferenceInner | src/naive.h:10-16 | referenceInner returns -128 plus the number of channel-nf thresholds strictly below accu |
| Naive.ReferenceOuter | src/naive.h:18-30 | referenceOuter returns the int8 reference code of every value of every complete sample, in batch-major order |
| Naive.FirstAtLeast | src/naive.h:39-43 | the scan position: every threshold before it is below the value, and the threshold at it (if any) is not |
| Naive.FirstAtLeastScan | src/naive.h:38-45 | the inner scan as written yields -128 plus the first position with threshold >= value, and -128 when there is none |
| Naive.Multithreshold | src/naive.h:32-49 | naive multithreshold returns the scan codes of every complete sample, in batch-major order |
| Naive.FirstAtLeastIsCountBelow | src/naive.h:39-44 | on a sorted channel the first position holding a threshold >= value is the strictly-below count |
| Naive.NaiveAgreesWhenCovered | src/naive.h:39-44 | for a sorted channel with some threshold >= value, the naive code equals referenceInner's |
| Naive.NaiveFallsThrough | src/naive.h:38-45 | when every threshold of the channel is below the value, the scan yields -128 while referenceInner yields 127 |
| Naive.NaiveMatchesReference | src/test.cpp:14-20 | the naive and reference batch outputs are equal for sorted channels when no value exceeds its channel's largest threshold |
| Naive.FirstAtLeastScanCorrected | src/naive.h:38-45 | the scan with the fall-through fixed yields -128 plus the first position with threshold >= value (or 255), which is referenceInner's code on a sorted channel |
| Naive.MultithresholdCorrected | src/naive.h:32-49 | multithreshold with the corrected scan returns exactly referenceOuter's codes on sorted channels |
| Optimized.BitWidth | src/optimized.h:17 | std::bit_width(v) is 0 for 0, and otherwise the w with 2^(w-1) <= v < 2^w |
| Optimized.FastLog2 | src/optimized.h:15-18 | fastLog2(v) is floor(log2 v) for v >= 1, so 2^r <= v < 2^(r+1); for v = 0 the size_t subtraction wraps to SIZE_MAX |
| Optimized.ThreadCount | src/optimized.h:54 | the thread count is one of elemcount, the processor count or fastLog2(len / elemcount), never exceeds elemcount or the processor count, and its power of two is at most len / elemcount when that is at least 1 |
| Optimized.Multithreshold | src/optimized.h:23-35 | optimized multithreshold returns the upper_bound code of every value of every complete sample, in batch-major order |
| Optimized.AppendChannel | src/optimized.h:42-46 | appending channel e's codes for all samples extends a channel-major prefix by one channel |
| Optimized.MultithresholdLE | src/optimized.h:37-49 | multithresholdLE returns the upper_bound codes in channel-major order; with no channels the division inside the channel loop never runs and the result is empty |
| Optimized.WriteChannel | src/optimized.h:58-62 | writing channel e's codes by index advances the output from "channels before e written" to "channels up to e written" |
| Optimized.MultithresholdLEMT | src/optimized.h:51-65 | multithresholdLEMT returns a vector of length len holding the batch-major upper_bound codes followed by zeros for the trailing partial sample, and requests ThreadCount threads |
| IndexedWrites.WrittenNone | src/optimized.h:53 | a freshly allocated output holds only the fill value |
| IndexedWrites.WrittenStep | src/optimized.h:61 | writing sample b of channel e changes exactly position b * elemcount + e, which still held the fill value |
| IndexedWrites.WrittenAll | src/optimized.h:57-63 | once all channels are written, the output is the codes followed by the untouched fill values |
| Thresholding.UpperBound | thresholding.py:16-32 | the binary search always returns a position in [0, len(li)] and terminates (count strictly decreases); on a sorted list everything before it is <= val and everything from it on is > val |
| Thresholding.NarrowUp | thresholding.py:53-55 | when the first indexLast thresholds are <= curr, searching the suffix from indexLast and adding indexLast gives the full count |
| Thresholding.NarrowDown | thresholding.py:57-58 | when every threshold from indexLast on is > curr, searching only the prefix of length indexLast gives the full count |
| Thresholding.CountAtLast | thresholding.py:45-46 | the value indexLast tracks is at most 255, and is 0 at the -inf start |
| Thresholding.NarrowedSearch | thresholding.py:49-58 | each of the three cases (repeat, larger, smaller value) returns the at-most count of the whole channel |
| Thresholding.NarrowedChannel | thresholding.py:44-62 | the batched loop over one channel adds each sample's full upper_bound count to its -128 entry and leaves every other entry alone |
| Thresholding.Multithreshold | thresholding.py:35-64 | multithreshold returns len(inp) entries: the upper_bound codes of all complete samples in batch-major order, then -128 for the trailing partial sample, in both the single-sample and the batched branch; with elemcount = 0 both loops over range(0) are empty and every entry stays -128 |
| Thresholding.UpperBoundCodesAppend | thresholding.py:113-115 | the codes of two batches laid end to end, the first made of whole samples, are the two code lists concatenated |
| Thresholding.RepeatedBlock | thresholding.py:111-115 | a one-sample block repeated m times yields its codes repeated m times |
| Thresholding.Trunc | thresholding.py:93 | Python's int() truncates toward zero |
| Thresholding.Clamp | thresholding.py:90-96 | the branch-free clamp equals max(ll, min(val, ul)) |
| Thresholding.ClampRange | thresholding.py:90-96 | for ll <= ul the clamp lands in [ll, ul] and returns val exactly when val is already in [ll, ul] |
| Lossy.LookupIndex | src/lossy.hpp:23-26 | _lookup_index adds the shift to the scaled value; that with the offset -min it puts min at 0 and max at the last entry of a range + 1 table is stated in TableCoversRange |
| Lossy.InputRange | src/lossy.hpp:36-38 | _input_range is max - min; that _get_max_scale of it gives a table holding every index of [min, max] is stated in TableCoversRange |
| Lossy.GetMaxScale | src/lossy.hpp:28-30 | _get_max_scale gives a size larger than the range, so indices 0 .. range fit, and at least 1 for a non-negative range |
| Lossy.GetShift | src/lossy.hpp:32-34 | _get_shift as written is the magnitude of min, whatever its sign (ShiftIsOffsetForNonPositiveMin and ShiftMisplacesPositiveMin say when that is and is not the right offset) |
| Lossy.CtorTableSize | src/lossy.hpp:110 | the constructor as written allocates one entry fewer than _get_max_scale of the range |
| Lossy.GetElement | src/lossy.hpp:80-83 | get_element returns one of the table's entries (GetElementCounts says which count it is) |
| Lossy.TableCoversRange | src/lossy.hpp:23-38 | with offset -min and _get_max_scale's size range + 1, every value of [min, max] has an index in the table, min at 0 and max last |
| Lossy.ShiftIsOffsetForNonPositiveMin | src/lossy.hpp:32-34 | for min <= 0, _get_shift is exactly the offset that sends min to index 0 |
| Lossy.CtorTableMissesMax | src/lossy.hpp:110 | the constructor's table of scale * (max - min) entries gives max an index at or past its end |
| Lossy.ShiftMisplacesPositiveMin | src/lossy.hpp:107 | for min > 0 the shift adds instead of subtracting: min lands at 2 * min and max past the end of a table of range + 1 entries |
| Lossy.Pow10 | src/lossy.hpp:106 | the scale 10^digits is at least 1, so every lookup object has a positive scale |
| Lossy.LastRankIsLast | src/lossy.hpp:59-63 | before the fill, entry j is 0 when no threshold has index j, and otherwise the rank of a threshold with index j after which no later threshold has it (later ranks overwrite earlier ones) |
| Lossy.RankTableStep | src/lossy.hpp:61 | writing rank i at the index of threshold i turns the table of the first i thresholds into that of the first i + 1 |
| Lossy.LastNonzeroZero | src/lossy.hpp:69-76 | the fill's running value is 0 exactly when every entry so far is 0 |
| Lossy.FilledStep | src/lossy.hpp:70-75 | the fill keeps every nonzero entry and replaces a zero entry by the previous filled entry (0 at the front) |
| Lossy.FillExample | src/lossy.hpp:66-67 | the fill turns 0 1 0 0 5 0 0 7 0 10 into 0 1 1 1 5 5 5 7 7 10 |
| Lossy.FilledMonotone | src/lossy.hpp:59-76 | if the nonzero entries before the fill rise from left to right, the filled table never decreases |
| Lossy.RankTableAscending | src/lossy.hpp:59-63 | for sorted thresholds the ranks written into the table rise with the index |
| Lossy.LastRankSorted | src/lossy.hpp:59-63 | for sorted thresholds the rank at an index is the at-most count of its value minus one when some threshold lands there, and 0 otherwise |
| Lossy.LookupCounts | src/lossy.hpp:40-78 | for sorted thresholds and offset -min, entry j of the finished table is the number of thresholds at most min + j, minus one |
| Lossy.CreateLookupTable | src/lossy.hpp:40-78 | _create_lookup_table zero-fills the table, writes the ranks, forward-fills the gaps, and returns exactly LookupTable |
| Lossy.GetElementCounts | src/lossy.hpp:80-83 | on the table of sorted thresholds, get_element of a value in [min, max] is the number of thresholds at most the value, minus one |
| Lossy.SeqMin | src/lossy.hpp:104 | std::min_element: an element of the thresholds no larger than any other |
| Lossy.SeqMax | src/lossy.hpp:105 | std::max_element: an element of the thresholds no smaller than any other |
| Lossy.LossyThresholdLookup.constructor | src/lossy.hpp:103-124 | the constructor stores min, max, the scale 10^digits and the offset -min (not _get_shift's value), and builds the table as _create_lookup_table does with range + 1 entries (not scale * (max - min)); see Findings |
| Lossy.LossyThresholdLookup.Index | src/lossy.hpp:97-99 | index maps every input of [min, max] into the table |
| Lossy.LossyThresholdLookup.Threshold | src/lossy.hpp:126-133 | on sorted thresholds, threshold(input) is the number of thresholds at most the input (at most min below the range, all of them above it), minus one |
| Lossy.ThresholdAbove | src/lossy.hpp:127-128 | above max, table.back() counts all thresholds |
| Lossy.ThresholdBelow | src/lossy.hpp:129-130 | below min, table.front() counts the thresholds equal to min |
| Lossy.ThresholdWithin | src/lossy.hpp:132 | on [min, max], table[index(input)] counts the thresholds at most the input |
| Lossy.LossyThresholdLookup.Thresholds | src/lossy.hpp:135-148 | thresholds(inputs) returns a vector of the same length whose k-th entry is threshold(inputs[k]) |
| Lossy.LossyThresholdLookup.ThresholdsInto | src/lossy.hpp:150-155 | thresholds(inputs, out) writes threshold(inputs[k]) into out[k] and leaves the rest of out unchanged |

## Left out

- Floating point: thresholds and inputs are integers. Only comparisons matter to the exact kernels, so NaN, signed zeros and rounding are not modelled.
- The lossy table works on fixed-point integers: a value v stands for v / scale. The casts in the index computations are not modelled, so the model leaves out the truncation of non-integral scaled values. `_lookup_index` casts `value * Scale + shift` to its type parameter, called with `unsigned int`, after adding. `index` casts `input * scale` to `unsigned int` before adding the shift, which is undefined for a negative product. `get_element` casts `i * Scale` to the table's element type `T` before adding `Shift`, so a signed `T` keeps a negative product and a narrow `T` truncates the index itself. The model takes `T` wide enough for every index, as it does for ranks below.
- `std::pow` is replaced by the integer `Pow10`. The scale is stored, but since inputs come already scaled it plays no further part. So the overflow of `static_cast<unsigned int>(std::pow(10, digits))` for digits >= 10 (src/lossy.hpp:106) is not modelled.
- Lossy.LossyThresholdLookup.Threshold: its count statement assumes sorted thresholds; on unsorted ones only the table contents are specified.
- The rank type `T` is taken wide enough for every rank; narrow output types are not modelled.
- OpenMP and `std::execution::par_unseq` run as the sequential loops they distribute. Only the thread count is computed, with `omp_get_num_procs()` as a parameter; `omp_set_num_threads` is not modelled.
- Short threshold arrays are excluded: every kernel requires 255 * elemcount thresholds (as part of `WellFormed`, which also asks for elemcount > 0, except in the two kernels that accept elemcount = 0). On a short array the naive kernels' `thresholds.at()` throws `std::out_of_range`. The optimized kernels form `thresholds.begin() + (elemindex + 1) * 255` unchecked (src/optimized.h:30, 44, 60), which is undefined behaviour. The Python multithreshold silently searches shorter slices (thresholding.py:40-58). None of these is modelled.
- elemcount = 0 is excluded from referenceOuter, both naive and optimized `multithreshold` and multithresholdLEMT, because they divide `inp.size()` by elemcount in a loop condition or in the thread count, before any loop body runs. multithresholdLE and the Python multithreshold divide only inside the channel loop, so their models accept elemcount = 0.
- Thresholding.Multithreshold: for elemcount > 0 it requires sorted channels, because on unsorted thresholds the narrowed search has no stated result.
- Thresholding.Clamp: computed over exact reals. Python's float rounding for magnitudes beyond 2^53 is not modelled.
- The per-tensor affine approximation `multithresholdLinearPerTensor` (Python and its commented C++ twin) is float numerics and is not modelled.
- I/O and harness code is not modelled: `.npy` loading, printing, timing loops, random inputs, `src/test.cpp` output and `src/benchmarks.cpp`.
- The concrete 24-value test data is not modelled, because the threshold file it runs against is not available.
- `thresholds.h`, `join.hpp` and `std::is_constant_evaluated`/`cout` in `_create_lookup_table` are not part of this model.
- Lossy.CreateLookupTable requires every threshold index to lie inside the table. The source writes out of bounds otherwise, which is undefined behaviour.
- Lossy.LossyThresholdLookup.ThresholdsInto requires `out` to hold at least `inputs.size()` entries. The source calls `reserve`, which does not grow the size, so a shorter `out` is written out of bounds.
- Lossy.LossyThresholdLookup.constructor: models the constructor with both lossy Findings corrected, not as written. It stores the offset -min, where src/lossy.hpp:107 stores the magnitude of min (they differ for every min > 0). Its table has range + 1 entries, where src/lossy.hpp:110 allocates `scale * (max - min)`. So `threshold`'s `table.back()` (ThresholdAbove) is the entry for max, where the source's shorter table ends one entry earlier. The as-written values are CtorTableSize and GetShift, with CtorTableMissesMax and ShiftMisplacesPositiveMin.
- Lossy.LossyThresholdLookup.constructor requires at least one threshold; `std::min_element` of an empty array cannot be dereferenced.
- Lossy.LossyThresholdLookup: when all thresholds are equal, `scale * (max - min)` is 0 and the source table is empty. The model's corrected size gives such a table one entry.

## Findings

| source | as written | input that shows it | evidently intended | confidence | as-written member | corrected member |
|---|---|---|---|---|---|---|
| src/naive.h:38-45 | the scan leaves result at -128 when no threshold of the channel is >= the input | a channel whose 255 thresholds are all 0, input 1: the naive code is -128, referenceInner gives 127 | -128 + 255 = 127, the code referenceInner gives (the test compares the two) | not executed; high | Naive.NaiveFallsThrough | Naive.MultithresholdCorrected |
| src/lossy.hpp:110 | the constructor allocates `scale * (max - min)` entries | thresholds {-1, 2} at 0 digits: table of 3 entries, index(2) = 2 + 1 = 3 | `scale * (max - min) + 1` entries, as `_get_max_scale` computes | not executed; high | Lossy.CtorTableMissesMax | Lossy.TableCoversRange, Lossy.LossyThresholdLookup.constructor, Lossy.LossyThresholdLookup.Threshold, Lossy.ThresholdAbove |
| src/lossy.hpp:107 | for min > 0 the shift is `min * scale`, which is added to every index (at min = 0 the shift is 0 and harmless) | thresholds {1, 2} at 0 digits: index(1) = 2 and index(2) = 3, past the 1-entry table the constructor allocates and past even a corrected table of 2 entries | subtract `min * scale`, so min lands at index 0 | not executed; medium | Lossy.ShiftMisplacesPositiveMin | Lossy.TableCoversRange, Lossy.LossyThresholdLookup.constructor, Lossy.LossyThresholdLookup.Index, Lossy.LossyThresholdLookup.Threshold |
