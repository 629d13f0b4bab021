# time-series-data-packer — a Dafny model

This project models the core of a small time-series compressor and proves properties of the model. The compressor turns a vector of `(timestamp, value)` samples into a vector of `((start, end), value)` ranges, and it has these parts:

- **Windowing** (`split_into_windows`) cuts the samples into groups. Each group holds only samples within `micro_window / 1e6` seconds of the group's first timestamp.
- **Similar-values packing** (`approx_equal`, `similar_values_pack`). Consecutive samples whose value is tolerance-equal to the value of the run's first sample collapse into one range. NaN counts as equal to NaN.
- **Mean-band packing** (`mean_pack`). The band is `[avg - p% of avg, avg + p% of avg]` around the window mean `avg`. Maximal runs of in-band samples become ranges valued at the mean. Out-of-band samples pass through as degenerate ranges.
- **Mean refinement** (`mean_refine_packs`) walks a sequence of ranges. While the next range's value lies in the band around the current range's value, the current range absorbs it.
- **Delta encoding** (`TSPackDeltaStrategy::pack`/`unpack`) stores the first value and then successive differences. It decodes by running sum.
- **XOR encoding** (`xor_pack`/`xor_unpack`) works on the 64-bit patterns of the values. Each pattern is XORed with the previous value's pattern, in the manner of the Gorilla time-series store.
- **The packer object** (`TimeSeriesDataPacker`):
  - It rejects a zero window before changing anything.
  - It sorts the samples stably by timestamp.
  - It windows them and folds the strategy list over each window.
  - It concatenates the per-window results and merges them once.
  - It stores the configuration, the sorted samples and the result in its fields.

One module per source file:

- `types.dfy` holds the sample and range records, the `u8`/`u64` ranges, and `Option`/`Result`.
- `helpers.dfy` models `src/helpers.rs`.
- `similar_values.dfy` models `src/strategies/similar_values.rs`.
- `mean_based_compression.dfy` models `src/strategies/mean_based_compression.rs`.
- `delta.dfy` models `src/strategies/delta.rs`.
- `xor_gorilla.dfy` models `src/strategies/xor_gorilla.rs`.
- `packer.dfy` models the rest of `src/lib.rs`.

How the model is built:

- **Loops.** Each loop of the source is a `method` with the same loop, the same variables and the same branches. Each is proved equal to a specification function, recursive or in closed form; for example, `SimilarValuesPack` returns `Runs(samples, eps)`. The properties of the operations are lemmas about those functions.
- **The packer.** It is a class whose `Pack` method overwrites its three fields.
- **Numbers.**
  - Timestamps and values are exact reals.
  - Similar-values packing uses a `Num(real) | NaN` value.
  - XOR encoding uses the value's `bv64` bit pattern, so its `f64_to_bits`/`bits_to_f64` are the identity.
- **Helpers with no body.** lib.rs imports `apply_strategy` and `merge_adjacent_equal_value_ranges`, and the mean strategy imports the merge as well, but neither has a body in the source. They are function parameters (`apply`, `merge`), and the model assumes nothing about them.
- **Assumed shapes.** `Representation` has the shape lib.rs:81 uses (`Raw` samples or `Packed` ranges). Finalizing a `Raw` representation turns each sample into a degenerate `((ts, ts), v)` range.

A behaviour of the source that the model keeps and states as a lemma: when the mean of a window is negative and the percentage is positive, the tolerance `(p/100)*avg` is negative. The band `[avg - tol, avg + tol]` is then empty, so before the final merge every sample of the window is its own degenerate range (`MeanGroupsNegativeMean`); what the merge then does is not modelled. The same holds in refinement for a range whose value is negative (`NegativeReferenceBandEmpty`).

The records and enumerations of the source are datatypes:

- `Types.Sample` and `Types.PackedSample` are the `TSSamples` and `TSPackedSamples` aliases (src/lib.rs:17, src/lib.rs:20). A sample is `(ts, value)` and a packed range `((start, end), value)`.
- `Packer.StrategyType` is `TSPackStrategyType` (src/lib.rs:23-26). It is either similar-values packing or mean packing with its `values_compression_percent`.
- `Packer.PackAttributes` is `TSPackAttributes` (src/lib.rs:29-32): the strategy list and `microseconds_time_window`, a `u64`.
- `Packer.PackError` is `TSPackError` (src/lib.rs:35-38). Its only case is `InvalidWindow`.
- `Packer.TimeSeriesDataPacker` is the packer struct (src/lib.rs:41-45), with its three fields.
- `Helpers.Representation` is the `Raw`-or-`Packed` form a window has between strategies (src/lib.rs:81).
- `SimilarValues.Float` is an `f64` seen as a number or NaN. `XorGorilla.F64` is an `f64` seen as its bit pattern.

## Model

| member | source | states |
|---|---|---|
| Helpers.WindowEnd | src/helpers.rs:14-24 | the index where the open window closes: every sample before it is within the window length of the opening sample, and the sample at it (if any) is beyond it |
| Helpers.WindowsFrom | src/helpers.rs:14-29 | every window is non-empty, there are no more windows than samples, and there are none exactly when no samples remain |
| Helpers.WindowSeconds | src/helpers.rs:12 | defines the window length in seconds as `micro_window / 1_000_000` |
| Helpers.Windows | src/helpers.rs:4-6 | there are no windows exactly when there are no samples, and every window of the whole input is non-empty |
| Helpers.WindowsFromConcat | src/helpers.rs:14-28 | the windows of `s[st..]` concatenate back to exactly `s[st..]` |
| Helpers.WindowsConcat | src/helpers.rs:14-28 | concatenating the windows in order gives exactly the input: nothing dropped, duplicated or reordered |
| Helpers.WindowsFromWithinBound | src/helpers.rs:12-15 | in each window from `st` on, every sample's timestamp minus the window's first timestamp is at most the window length |
| Helpers.WindowsWithinBound | src/helpers.rs:12-22 | in each window, every sample's timestamp minus the window's first timestamp is at most `micro_window / 1e6` |
| Helpers.WindowsFromSeparated | src/helpers.rs:15-23 | each window's first sample lies more than the window length after the previous window's first sample (suffix form) |
| Helpers.WindowsSeparated | src/helpers.rs:15-23 | the first sample of every window after the first lies more than the window length after the previous window's start |
| Helpers.WindowClosesAt | src/helpers.rs:15-23 | a window opened at `st` whose samples up to `i` are in bound, and that sample `i` leaves, is exactly `s[st..i]`, followed by the windows from `i` |
| Helpers.ScanExtends | src/helpers.rs:15-16 | an in-bound sample is pushed onto the open window, and the scan invariant is kept |
| Helpers.ScanCloses | src/helpers.rs:17-23 | an out-of-bound sample closes the (non-empty) open window, moves the window start to its own timestamp and opens a new window with itself |
| Helpers.ScanEnds | src/helpers.rs:27-29 | after the scan the open window is non-empty and is the last window |
| Helpers.SplitIntoWindows | src/helpers.rs:3-32 | the loop returns the windows of the input: empty for empty input, every window non-empty, and their concatenation is the input |
| Helpers.WindowsExample | src/helpers.rs:39-51 | timestamps 0.00, 0.05, 0.10, 0.15, 0.21 with a 100 000 µs window give two windows of sizes 3 and 2 |
| Helpers.FinalizeToPacked | src/lib.rs:87 | packed ranges pass through unchanged; raw samples become one degenerate `(ts, ts)` range each, in order, with their values |
| SimilarValues.ApproxEqual | src/strategies/similar_values.rs:8-16 | defines `approx_equal`: true when both values are NaN, false when exactly one is, otherwise whether they are at most `eps` apart |
| SimilarValues.ApproxEqualReflexive | src/strategies/similar_values.rs:8-16 | every value, NaN included, is tolerance-equal to itself for a non-negative tolerance |
| SimilarValues.ApproxEqualSymmetric | src/strategies/similar_values.rs:8-16 | tolerance equality does not depend on argument order |
| SimilarValues.ApproxEqualNaN | src/strategies/similar_values.rs:12-14 | NaN is never tolerance-equal to a number, in either order, whatever the tolerance |
| SimilarValues.RunEnd | src/strategies/similar_values.rs:29-38 | the index where the open run closes: everything before it is tolerance-equal to the run's first value, the sample at it (if any) is not |
| SimilarValues.RunsFrom | src/strategies/similar_values.rs:25-41 | the runs from `st` on: none exactly when nothing is left, at most one per sample, the first starts at `s[st]` with its value, the last ends at the last timestamp |
| SimilarValues.Runs | src/strategies/similar_values.rs:19-41 | empty exactly for empty input, never longer than the input, first range starts at the first sample's timestamp with its value, last range ends at the last sample's timestamp |
| SimilarValues.RunClosesAt | src/strategies/similar_values.rs:30-37 | a run opened at `st` and rejected by sample `i` is the one range `(s[st].ts, s[i-1].ts)` valued `s[st]`'s value, followed by the runs from `i` |
| SimilarValues.RunsFromAdjacentRejected | src/strategies/similar_values.rs:30-37 | in the runs from `st` on, each range's value is not tolerance-equal to the previous range's value |
| SimilarValues.RunsAdjacentRejected | src/strategies/similar_values.rs:30-37 | consecutive output ranges are not tolerance-equal: range k+1 was opened by a value that range k's value rejected |
| SimilarValues.RepresentsCons | src/strategies/similar_values.rs:30-37 | one closed run in front of ordered ranges representing `s[k..]` gives ordered ranges representing `s[st..]` |
| SimilarValues.RunsFromRepresent | src/strategies/similar_values.rs:25-41 | for sorted input the runs from `st` on are ordered ranges, and each sample from `st` on lies in a range with a tolerance-equal value |
| SimilarValues.RunsRepresent | src/strategies/similar_values.rs:25-41 | for sorted input every range has start <= end and the ranges are in input order; every sample lies in the span of a range whose value is tolerance-equal to its own |
| SimilarValues.RunsOpenedByCons | src/strategies/similar_values.rs:32-37 | putting the run opened at `st` ahead of the runs opened from `k` on keeps the opener correspondence |
| SimilarValues.RunsFromOpenedBy | src/strategies/similar_values.rs:25-41 | each range from `st` on takes its start and value from its opener; openers increase from `st`; each range ends at the sample before the next opener |
| SimilarValues.TakeOpenerValueCons | src/strategies/similar_values.rs:29-37 | a run whose samples are all tolerance-equal to its opener, put before runs with that property, keeps it |
| SimilarValues.RunsFromTakeOpenerValue | src/strategies/similar_values.rs:29-37 | from `st` on, every sample strictly between an opener and the next opener (or the end) is tolerance-equal to the value of the opener's range |
| SimilarValues.RunsTakeOpenerValues | src/strategies/similar_values.rs:27-37 | for input in any order, every sample after a run's opener and before the next opener is tolerance-equal to the run's value: each is compared with `current_value` |
| SimilarValues.RunsOpened | src/strategies/similar_values.rs:25-41 | each range's value is the value of the sample that opened its run and it starts at that sample's timestamp; openers are in input order, the first is sample 0, and each range ends at the sample just before the next opener |
| SimilarValues.PackExtends | src/strategies/similar_values.rs:30-31 | a tolerance-equal sample only moves `prev_ts` to its timestamp, and the scan invariant is kept |
| SimilarValues.PackCloses | src/strategies/similar_values.rs:32-37 | a rejected sample pushes `((run_start_ts, prev_ts), current_value)` and opens a run holding only itself |
| SimilarValues.PackEnds | src/strategies/similar_values.rs:41-43 | after the scan, the final push of the open run completes the runs |
| SimilarValues.SimilarValuesPack | src/strategies/similar_values.rs:18-44 | the loop returns exactly the runs of the input |
| SimilarValues.RunsExample | src/lib.rs:107-128 | values 100, 100, 100, 101, 101, 100 at 0.0 .. 0.5 with tolerance 0 give `((0.0,0.2),100)`, `((0.3,0.4),101)`, `((0.5,0.5),100)` |
| MeanBasedCompression.Sum | src/strategies/mean_based_compression.rs:11 | defines the sum of a window's values, added first to last |
| MeanBasedCompression.Mean | src/strategies/mean_based_compression.rs:10-13 | defines the window mean `avg` as the sum divided by the number of samples |
| MeanBasedCompression.SumBounds | src/strategies/mean_based_compression.rs:11 | when every value lies in `[lo, hi]`, the sum lies between `lo` and `hi` times the number of samples |
| MeanBasedCompression.MeanBetween | src/strategies/mean_based_compression.rs:10-13 | the mean of a non-empty window lies between any lower and upper bound of its values |
| MeanBasedCompression.BandAround | src/strategies/mean_based_compression.rs:15-17 | defines the band `[reference - tol, reference + tol]` with `tol = (percent / 100) * reference` |
| MeanBasedCompression.InBand | src/strategies/mean_based_compression.rs:25 | defines the test `v >= lower && v <= upper` |
| MeanBasedCompression.BandHoldsReference | src/strategies/mean_based_compression.rs:15-17 | a non-negative reference value lies in its own band |
| MeanBasedCompression.BandIsRelativeTolerance | src/strategies/mean_based_compression.rs:15-17 | for a non-negative reference the band holds exactly the values within `p/100` of the reference, on both sides |
| MeanBasedCompression.NegativeReferenceBandEmpty | src/strategies/mean_based_compression.rs:15-17 | for a negative reference and a positive percentage the band's lower end exceeds its upper end, so no value lies in it |
| MeanBasedCompression.GroupEnd | src/strategies/mean_based_compression.rs:24-31 | the index where the open group closes: every sample before it is in band, the sample at it (if any) is not |
| MeanBasedCompression.GroupsFrom | src/strategies/mean_based_compression.rs:24-44 | the pre-merge ranges from `st` on: none exactly when nothing is left, at most one per sample |
| MeanBasedCompression.MeanGroups | src/strategies/mean_based_compression.rs:6-44 | the pre-merge result is empty exactly for empty input and never longer than the input |
| MeanBasedCompression.GroupClosesAt | src/strategies/mean_based_compression.rs:26-35 | a group of in-band samples from `st` to `i - 1`, closed by sample `i`, is one range valued `avg`, followed by the ranges from `i` |
| MeanBasedCompression.GroupEndPrefix | src/strategies/mean_based_compression.rs:24-31 | on a prefix ending just before an out-of-band sample, a group closes where it closes on the whole input |
| MeanBasedCompression.GroupsFromPrefixStep | src/strategies/mean_based_compression.rs:24-39 | one grouping step on such a prefix emits the same range as on the whole input and continues from the same index |
| MeanBasedCompression.GroupsFromSlice | src/strategies/mean_based_compression.rs:24-44 | the ranges from `st` on split, at an out-of-band sample `n`, into the ranges of `s[..n]` and the ranges from `n` |
| MeanBasedCompression.GroupsSplitAt | src/strategies/mean_based_compression.rs:32-39 | every out-of-band sample appears as its own degenerate range `((ts,ts),v)` with its exact value, between the ranges of what precedes and what follows it |
| MeanBasedCompression.GroupsSplitAfter | src/strategies/mean_based_compression.rs:32-39 | right after an out-of-band sample, the ranges split into those of the prefix up to it and those from there on |
| MeanBasedCompression.GroupsMaximalRun | src/strategies/mean_based_compression.rs:24-44 | every maximal run of in-band samples becomes one range from its first to its last timestamp, valued `avg`, between the ranges of what precedes and what follows it |
| MeanBasedCompression.GroupsAllInBand | src/strategies/mean_based_compression.rs:24-44 | if every sample is in band, the pre-merge result is the single range `((first_ts, last_ts), avg)` |
| MeanBasedCompression.GroupsNoneInBand | src/strategies/mean_based_compression.rs:32-39 | if no sample is in band, every sample passes through as its own degenerate range |
| MeanBasedCompression.MeanGroupsNegativeMean | src/strategies/mean_based_compression.rs:10-39 | a window with negative mean and a positive percentage comes out as one degenerate range per sample |
| MeanBasedCompression.MeanGroupsExample | src/strategies/mean_based_compression.rs:10-44 | values 100, 100, 102, 98, 100, 99 with a 5 % band become the single range `((0.0, 0.25), 599/6)` |
| MeanBasedCompression.MeanOutOfBand | src/strategies/mean_based_compression.rs:32-39 | an out-of-band sample pushes the open group (if any) valued `avg`, clears it, then pushes its own degenerate range |
| MeanBasedCompression.MeanInBand | src/strategies/mean_based_compression.rs:25-31 | an in-band sample opens a group at its timestamp when none is open, else moves the group's end to its timestamp |
| MeanBasedCompression.MeanEnds | src/strategies/mean_based_compression.rs:42-44 | the final push of the open group, if any, completes the pre-merge result |
| MeanBasedCompression.MeanPack | src/strategies/mean_based_compression.rs:5-47 | empty input gives empty output; otherwise the output is the merge of `MeanGroups` with the mean and band of the window |
| MeanBasedCompression.RefineEnd | src/strategies/mean_based_compression.rs:58-69 | the index where the current output range stops absorbing: every range before it is in the opener's band, the range at it (if any) is not |
| MeanBasedCompression.RefinedFrom | src/strategies/mean_based_compression.rs:56-73 | the refinement from `st` on: empty exactly when nothing is left, never longer than what is left |
| MeanBasedCompression.PercentBandAt | src/strategies/mean_based_compression.rs:59-62 | the band refinement uses for a current value is `[avg - (p/100)*avg, avg + (p/100)*avg]` with `avg` that value |
| MeanBasedCompression.Refined | src/strategies/mean_based_compression.rs:50-73 | empty exactly for empty input; non-empty input gives non-empty output no longer than the input |
| MeanBasedCompression.RefinedFromBounds | src/strategies/mean_based_compression.rs:56-72 | the refinement from `st` starts at `p[st]`'s start with its value and ends at the last input range's end |
| MeanBasedCompression.RefinedBounds | src/strategies/mean_based_compression.rs:56-72 | the first output range starts where the first input range starts, with its value; the last ends where the last input range ends |
| MeanBasedCompression.RefineClosesAt | src/strategies/mean_based_compression.rs:64-69 | an output range opened at `st` that absorbed up to `i - 1` and rejects `p[i]` is `(p[st].start, p[i-1].end)` valued `p[st].value`, followed by the refinement from `i` |
| MeanBasedCompression.RefineEndShift | src/strategies/mean_based_compression.rs:58-69 | where absorption stops depends only on the ranges still to be scanned |
| MeanBasedCompression.RefinedFromShift | src/strategies/mean_based_compression.rs:58-73 | the refinement from an index depends only on the ranges from that index on |
| MeanBasedCompression.RefineEmits | src/strategies/mean_based_compression.rs:64-68 | a second range out of the first's band leaves the first range as its own output range, and refinement goes on from the second |
| MeanBasedCompression.RefineAbsorbs | src/strategies/mean_based_compression.rs:59-65 | a second range in the first's band is absorbed: the end becomes the second's end, the start and value stay, and refinement goes on from the combined range |
| MeanBasedCompression.RefinedFromAdjacentRejected | src/strategies/mean_based_compression.rs:58-69 | in the refinement from `st` on, each output value is out of the band around the previous output value |
| MeanBasedCompression.RefinedAdjacentRejected | src/strategies/mean_based_compression.rs:58-69 | no two neighbouring output ranges could have been combined: each value is out of the band around the previous one's value |
| MeanBasedCompression.OpenedByCons | src/strategies/mean_based_compression.rs:66-68 | putting opener `st` ahead of the ranges opened from `k` on keeps the opener correspondence |
| MeanBasedCompression.RefinedFromOpenedBy | src/strategies/mean_based_compression.rs:56-72 | each output range from `st` on takes its start and value from its opener; openers increase from `st`; each output range ends where the range before the next opener ends |
| MeanBasedCompression.RefinedOpenedBy | src/strategies/mean_based_compression.rs:56-72 | each output range's value and start equal those of the input range that opened it, the openers appear in input order, and each output range ends at the end of the input range just before the next opener |
| MeanBasedCompression.CoversCons | src/strategies/mean_based_compression.rs:59-68 | a closed output range ahead of ordered ranges covering `p[k..]` gives ordered ranges covering `p[st..]` |
| MeanBasedCompression.RefinedFromCovers | src/strategies/mean_based_compression.rs:56-73 | for ordered input, the refinement from `st` on is ordered and absorbs every input range from `st` on |
| MeanBasedCompression.RefinedCovers | src/strategies/mean_based_compression.rs:56-73 | for ordered input the output ranges are ordered, and every input range lies inside some output range and is its opener or lies in its band |
| MeanBasedCompression.RefineStepAbsorb | src/strategies/mean_based_compression.rs:64-65 | absorbing `next` sets the current range to `(current.start, next.end)` with the current value, keeping the walk invariant |
| MeanBasedCompression.RefineStepEmit | src/strategies/mean_based_compression.rs:66-69 | rejecting `next` pushes the current range and makes `next` the current range, keeping the walk invariant |
| MeanBasedCompression.RefineStepEnd | src/strategies/mean_based_compression.rs:72-73 | the final push of the current range completes the refinement |
| MeanBasedCompression.MeanRefinePacks | src/strategies/mean_based_compression.rs:49-74 | empty input is returned unchanged; the loop returns exactly the refinement of the input |
| Delta.Encoded | src/strategies/delta.rs:11-24 | the encoding has one entry per sample |
| Delta.Decoded | src/strategies/delta.rs:32-45 | the decoding has one sample per range |
| Delta.DecodedIsRunningSum | src/strategies/delta.rs:34-43 | decoding is a running sum: `r_0 = d_0` and `r_i = r_(i-1) + d_i` |
| Delta.RunningSumOfEncoded | src/strategies/delta.rs:13-21 | summing the stored differences of an encoding up to `i` gives back sample `i`'s value |
| Delta.DecodeEncode | src/strategies/delta.rs:6-46 | round trip: unpacking the packing gives back exactly the samples |
| Delta.EncodedOfDecodedAt | src/strategies/delta.rs:11-45 | encoding the decoding gives back each degenerate range |
| Delta.EncodeDecode | src/strategies/delta.rs:6-46 | round trip the other way: packing the unpacking gives back any sequence of degenerate ranges |
| Delta.Pack | src/strategies/delta.rs:6-25 | empty to empty; otherwise the loop returns the encoding: degenerate ranges at each timestamp, the first value raw, later ones `v_i - v_(i-1)` of the raw values |
| Delta.Unpack | src/strategies/delta.rs:27-46 | empty to empty; otherwise the loop returns the decoding: each range's start with the running sum |
| XorGorilla.F64ToBits | src/strategies/xor_gorilla.rs:8-10 | defines `f64_to_bits`: a value, held as its bit pattern, gives that pattern |
| XorGorilla.BitsToF64 | src/strategies/xor_gorilla.rs:12-14 | defines `bits_to_f64`: a pattern gives the value with that pattern |
| XorGorilla.BitsInverse | src/strategies/xor_gorilla.rs:8-14 | `bits_to_f64` and `f64_to_bits` are inverse to each other |
| XorGorilla.Encoded | src/strategies/xor_gorilla.rs:24-33 | the encoding has one entry per sample |
| XorGorilla.XorCancel | src/strategies/xor_gorilla.rs:28-52 | XORing with the same pattern twice cancels |
| XorGorilla.Decoded | src/strategies/xor_gorilla.rs:46-56 | the decoding has one sample per range |
| XorGorilla.DecodedChains | src/strategies/xor_gorilla.rs:48-55 | decoding rebuilds `b_i = b_(i-1) ^ x_i` from the previously rebuilt pattern |
| XorGorilla.XorPrefixOfEncoded | src/strategies/xor_gorilla.rs:23-32 | the accumulated XOR of an encoding up to `i` gives back sample `i`'s pattern |
| XorGorilla.DecodeEncode | src/strategies/xor_gorilla.rs:16-59 | round trip: unpacking the packing gives back exactly the samples, bit for bit, for every pattern |
| XorGorilla.EncodedOfDecodedAt | src/strategies/xor_gorilla.rs:24-54 | encoding the decoding gives back each degenerate range |
| XorGorilla.EncodeDecode | src/strategies/xor_gorilla.rs:16-59 | round trip the other way: packing the unpacking gives back any sequence of degenerate ranges |
| XorGorilla.RoundTripExample | src/strategies/xor_gorilla.rs:66-77 | the round trip holds for 100.0, 101.0, 105.5 and -50.25 |
| XorGorilla.EncodedPrefixStep | src/strategies/xor_gorilla.rs:26-32 | pushing the XOR of the previous and current patterns extends the encoded prefix by one |
| XorGorilla.DecodedPrefixStep | src/strategies/xor_gorilla.rs:50-55 | pushing the rebuilt pattern extends the decoded prefix by one |
| XorGorilla.XorPack | src/strategies/xor_gorilla.rs:16-36 | empty to empty; otherwise the loop returns the encoding: degenerate ranges, the first value raw, later ones `bits(v_(i-1)) ^ bits(v_i)` of the raw patterns |
| XorGorilla.XorUnpack | src/strategies/xor_gorilla.rs:38-59 | empty to empty; otherwise the loop returns the decoding: each range's start with the accumulated XOR |
| Packer.Insert | src/lib.rs:71-74 | inserting a sample lengthens the sequence by one |
| Packer.SortByTimestamp | src/lib.rs:71-74 | sorting keeps the number of samples |
| Packer.InsertPermutes | src/lib.rs:71-74 | inserting a sample adds exactly that sample to the multiset of samples |
| Packer.SortByTimestampPermutes | src/lib.rs:71-74 | sorting is a permutation of the input: every sample is kept, as often as it occurs |
| Packer.InsertLowerBound | src/lib.rs:71-74 | a bound below the inserted sample and below every sample already there is below every sample of the result |
| Packer.InsertSorted | src/lib.rs:71-74 | inserting into a timestamp-sorted sequence keeps it sorted |
| Packer.SortByTimestampSorted | src/lib.rs:71-74 | the sorted samples are in non-decreasing timestamp order |
| Packer.WithTsCons | src/lib.rs:71-74 | the samples with timestamp `t` of `[y] + q` are `y` if it has that timestamp, then those of `q` |
| Packer.InsertWithTsFront | src/lib.rs:71-74 | inserting ahead of the first sample puts the new sample ahead of every sample with its timestamp |
| Packer.InsertWithTsPast | src/lib.rs:71-74 | inserting past an earlier first sample keeps that sample first, and the new sample stays ahead of every later sample with its timestamp |
| Packer.InsertWithTs | src/lib.rs:71-74 | inserting a sample puts it ahead of every sample already there with the same timestamp |
| Packer.SortByTimestampStable | src/lib.rs:71-74 | the sort is stable: samples sharing a timestamp keep their input order |
| Packer.ApplyStrategies | src/lib.rs:83-85 | defines the strategy loop: the strategies applied to the representation one after another, first to last |
| Packer.PackWindow | src/lib.rs:81-87 | defines one window's result: its raw samples through every strategy, then finalized to ranges |
| Packer.PackedAll | src/lib.rs:78-89 | defines `packed_all`: the per-window results, extended in window order |
| Packer.Unmerged | src/lib.rs:71-91 | defines what the merge is given: the stably sorted samples, windowed by `microseconds_time_window`, packed window by window |
| Packer.ApplyStrategiesAppend | src/lib.rs:83-85 | strategies are applied left to right: applying `a + b` is applying `a`, then `b` |
| Packer.ApplyStrategiesStep | src/lib.rs:83-85 | applying the first `j + 1` strategies is applying strategy `j` to the result of the first `j` |
| Packer.PackedAllAppend | src/lib.rs:80-89 | per-window results are concatenated in window order: packing `a + b` is packing `a`, then `b` |
| Packer.PackedAllStep | src/lib.rs:80-89 | packing the first `k + 1` windows extends packing the first `k` with window `k`'s result |
| Packer.PackedAllWithoutStrategies | src/lib.rs:80-89 | with no strategies, every sample of every window becomes its own degenerate range, in order |
| Packer.UnmergedEmpty | src/lib.rs:76-91 | empty samples give no windows, so the merge is given nothing |
| Packer.UnmergedWithoutStrategies | src/lib.rs:76-91 | with no strategies the merge is given every sorted sample as a degenerate range |
| Packer.TimeSeriesDataPacker.constructor | src/lib.rs:47-60 | a new packer has no attributes and no original or packed samples |
| Packer.TimeSeriesDataPacker.Pack | src/lib.rs:62-98 | a zero window gives `Err(InvalidWindow)` and changes nothing; otherwise the result is `Ok` of the merge of the per-window results, and the fields hold the attributes, the stably sorted samples and the result |

## Left out

- IEEE 754 arithmetic: timestamps and values are exact reals (bit patterns for XOR encoding). Rounding, overflow and infinities are not modelled. As a result:
  - the similar-values source test with tolerance 0.02 (which needs binary rounding: over reals `0.05 - 0.03 <= 0.02` would merge) is not a lemma;
  - neither are the literal deltas such as `0.19999999999999996` in the delta integration test.
- NaN timestamps: the sort compares with `partial_cmp(..).unwrap_or(Equal)`; the model takes timestamps to be totally ordered reals.
- The conversion of `micro_window as f64` is exact in the model (`WindowSeconds`).
- The library's `sort_by` is modelled as a stable insertion sort (`SortByTimestamp`); the model keeps what the library promises: a sorted, stable permutation. Sorting happens on a value, not in place.
- `apply_strategy` and `merge_adjacent_equal_value_ranges` have no body in the source; they are parameters, and no property depending on their internals is stated. `Representation` and `finalize_to_packed` have no body either; they are given the shapes lib.rs implies.
- Mean-band packing after its final merge: the merge has no body, so the properties of `mean_pack` (`MeanGroupsNegativeMean`, `GroupsMaximalRun` and the rest) are stated of `MeanGroups`, the ranges handed to the merge.
- The packer's `unpack`, called by the delta integration test, is not defined in the source and is not modelled.
- Several integration tests (the similar-values packer tests, the XOR integration test, the delta integration test) use a `precision_epsilon` field and `TSPackXorStrategy`/`TSPackDeltaStrategy` variants that `TSPackAttributes` and `TSPackStrategyType` do not have; the functions are modelled, not those configurations.
- The `thiserror` derive, the error message text and the `Debug`/`Clone`/`Default` derives are library plumbing.
- `Vec::with_capacity` preallocation in the delta strategy has no observable effect and is not modelled.
- Similar-values packing does no arithmetic on NaN; a NaN value is only compared, as `approx_equal` does.
