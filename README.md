# Calcium-transient analysis: a Dafny model of its processing core

The tool loads a CSV of fluorescence traces, one column per cell. It
normalises and smooths each trace and, for each user-defined time section,
measures the area above the cell's baseline. It shows those areas in a
table and offers a CSV export of them. The source also has a threshold
peak finder (`calculatePeaks`, `filterPeaksToSection`), which only the
repository's unit test calls, and a `convolve` routine that nothing calls.
The model covers these too. The export expects peak figures for every
section, but the area table carries none (see "## Findings"). This project
models the logic, one Dafny module per component:

- `Common`: the records shared by every component (`Datum`, `Peak`,
  `Section`, a partial section being edited, `Cell`), `Option`/`Result`
  and a sequence `Sum`.
- `Text`: `split` and `join` on strings, with their round trips.
- `Pipeline`: `processCell`. It optionally divides by the mean of the
  leading samples, applies a trailing boxcar mean through an O(N) running
  window sum, and stamps sample `i` with time `i * samplingRate`.
- `Area`: `integrateSamples`, the trapezoidal rule over the excess above
  the baseline.
- `Peaks`: `getIntersectionX`, `calculatePeaks` and `filterPeaksToSection`.
  `calculatePeaks` keeps the source's in-place `end === -1` sentinel.
- `Export`: `findErrorsInSection`, `updateFilename` and the CSV text that
  `exportCells` builds.
- `Convolve`: the same-length, edge-truncated convolution with its
  odd-length check.
- `DataManager`: `parseCsv`, the wrap-around `mod` and next/previous
  navigation, `orderedCells`/`updateCell`, the per-section area table and
  what the export button does with it, and the sample-rate field as a
  small class.
- `SectionManager`: the section editor as a class. Its fields are the
  saved sections, the error line and the section in progress. Its methods
  are the save, delete, edit, new, cancel and field handlers.
- `LineChart`: `generateTickValues`, the time-axis ticks.

Loops that update variables or arrays in the source are methods with loop
invariants. These are `processCell`, `calculatePeaks`, `convolve` (over an
`array`) and the `parseCsv` line loop. Each is proved equal to a
specification function, and the lemmas state what the source promises
about that function. Expressions built from `map`/`filter`/`reduce` are
functions.

All numbers are `real`. JavaScript's truncating `%` is written out
(`JsRem`, `JsFmod`), and so are `Math.ceil` and truncation. `isNaN` and
`parseFloat` on strings are parameters (`JsNumbers`). The number-to-text
conversion of the CSV export is a parameter too (`show`).

The model follows the code where the repository's comments or its unit
test suggest otherwise:

- The smoothing window is trailing. The comment at src/utils.ts:33-35
  mentions a centred variant, but the code applies no shift, and
  `processCell` does not call `convolve`.
- The repository's unit test at src/utils.test.ts:6 expects two peaks for
  its test series. The code clamps the still-open third peak to the last
  sample and returns three (`Peaks.RepositoryTestSeriesHasThreePeaks`).

## Model

| member | source | states |
|---|---|---|
| Text.JoinSplit | src/DataManager.tsx:12-13 | joining the pieces of `split` with the separator gives back the string |
| Text.SplitJoin | src/utils.ts:116-117 | splitting a `join` of separator-free pieces gives back the pieces |
| Text.Split | src/DataManager.tsx:12-13 | `split`: at least one piece, and no piece contains the separator; the round trips are `Text.JoinSplit` and `Text.SplitJoin` |
| Text.Join | src/utils.ts:111-117 | `join`: the pieces with the separator between consecutive ones; its round trip with `split` is `Text.JoinSplit` |
| Pipeline.ComputeBaselineDenominator | src/utils.ts:13-25 | the loop's result is the mean of the first `min(len, baselineSamples)` raw values when adjustment is on, the data is non-empty and that count is positive, and 1 otherwise |
| Pipeline.BaselineDenominator | src/utils.ts:13-25 | the specification of the divisor that `Pipeline.ComputeBaselineDenominator` is proved to compute and `Pipeline.LeadSamplesAverageOne` is about |
| Pipeline.Processed | src/utils.ts:1-62 | the specification of processCell's output, sample by sample, that `Pipeline.ProcessCell` is proved to compute; its properties are the lemmas below |
| Pipeline.ProcessCell | src/utils.ts:1-62 | exactly one output per input sample; sample `i` has time `i * samplingRate`; its value is the sum of the normalised values over the trailing window, divided by `min(i+1, convolution)` (the running window sum is the loop invariant) |
| Pipeline.WindowStep | src/utils.ts:41-48 | each window sum is the previous one plus the new value, minus the value that has just left the window |
| Pipeline.NoSmoothingIsIdentity | src/utils.ts:37-58 | with window 1 and no baseline adjustment the values are the raw data |
| Pipeline.SmoothedWithinBounds | src/utils.ts:50-54 | every smoothed value lies within any bounds of the normalised inputs |
| Pipeline.ConstantSignalIsFixed | src/utils.ts:37-58 | a constant trace is unchanged by the ramped-up trailing mean |
| Pipeline.LeadSamplesAverageOne | src/utils.ts:13-39 | after baseline adjustment the leading samples used for the baseline sum to their count, i.e. average 1 |
| Area.Excess | src/utils.ts:73 | keeps the time; the value is at least 0 and is 0 exactly when the sample is at or below the baseline |
| Area.ReduceFromIsSum | src/utils.ts:74-78 | the `reduce` from any index adds the trapezoids of the remaining consecutive pairs to the accumulator |
| Area.IntegrateSamples | src/utils.ts:71-79 | `integrateSamples` as the `map` then `reduce`; `Area.IntegrateIsTrapezoidRule` ties it to the trapezoid sum |
| Area.IntegrateIsTrapezoidRule | src/utils.ts:71-79 | the area is the sum over consecutive pairs of `(t[i+1]-t[i]) * (e[i]+e[i+1])/2` with `e = max(0, v - baseline)` |
| Area.FewerThanTwoSamplesIsZero | src/utils.ts:74-78 | fewer than two samples give area 0 |
| Area.AreaNonNegative | src/utils.ts:71-79 | with non-decreasing times the area is at least 0 |
| Area.AreaZeroBelowBaseline | src/utils.ts:73 | a trace never above the baseline has area 0 |
| Area.AreaAdditive | src/utils.ts:71-79 | splitting the samples at a shared point splits the area |
| Peaks.IntersectionOnLine | src/utils.ts:130-138 | the returned x is where the line through the two points meets the threshold |
| Peaks.IntersectionBetween | src/utils.ts:130-138 | for a strict crossing with `x1 < x2` the returned x lies strictly between them |
| Peaks.IntersectionX | src/utils.ts:130-138 | `getIntersectionX` for distinct y values; `Peaks.IntersectionOnLine` and `Peaks.IntersectionBetween` state what it returns |
| Peaks.Step | src/utils.ts:153-178 | one loop iteration of calculatePeaks: push on a strict rising edge, close only an open last peak on a strict falling edge; `Peaks.CalculatePeaks` is proved to run it |
| Peaks.ScanTo | src/utils.ts:144-179 | the peak list after the first `n` samples: the start case and then `Peaks.Step` per sample |
| Peaks.ClampLast | src/utils.ts:181-188 | the final clamp of an open last peak to the last x; `Peaks.ClampClosesOpenLast` states it |
| Peaks.PeaksOf | src/utils.ts:140-191 | the specification of calculatePeaks that `Peaks.CalculatePeaks` is proved to compute |
| Peaks.CalculatePeaks | src/utils.ts:140-191 | empty input gives no peaks; the loop's result is the scan specification `PeaksOf` (push on a strict rising edge, close only an open last peak on a strict falling edge, clamp an open last peak to the last x); the starts, ends, freezing and lengths of that result are the lemmas below |
| Peaks.PeakStartsAreCrossings | src/utils.ts:148-166 | the peak starts are exactly the first sample's time if it is above the threshold, then the interpolated strict rising crossings in order |
| Peaks.StartAboveOpensAtFirstSample | src/utils.ts:148-150 | a first sample above the threshold opens a peak at its time |
| Peaks.NoPeaksAtOrBelowThreshold | src/utils.ts:148-178 | a trace never above the threshold has no peaks, so samples equal to it never trigger |
| Peaks.EarlierPeaksFrozen | src/utils.ts:169-188 | once a peak is no longer the last, no later step or the final clamp changes it |
| Peaks.ClosedPeakFrozen | src/utils.ts:169-188 | once the last peak is closed, no later step and not the final clamp changes it |
| Peaks.ClampClosesOpenLast | src/utils.ts:181-188 | an open last peak `{start, -1, 0}` becomes `{start, lastX, lastX - start}` and every other peak is kept; with no open last peak the scan is returned as it is |
| Peaks.LastPeakClosed | src/utils.ts:181-188 | the last returned peak is closed, unless the last sample's time is itself -1 |
| Peaks.ScanEnds | src/utils.ts:168-178 | every closed end in the scan was set by a strict falling edge, at the interpolated crossing, while that peak was last and open |
| Peaks.PeakEndsAreFallingCrossingsOrClamp | src/utils.ts:162-188 | every closed peak end is the interpolated crossing of a strict falling edge met while that peak was last and open, or, for the last peak, the last sample's time |
| Peaks.EarlierPeakStaysOpen | src/utils.ts:169-188 | a peak still open when a later peak opens is never closed: the result keeps it, with `end = -1`, and it is not the last peak |
| Peaks.ThresholdTouchLeavesPeakOpen | src/utils.ts:162-188 | on the series 0, 2, 1, 0, 2, 0 at threshold 1, the first peak is left through a sample exactly at the threshold and keeps `end = -1` and length 0 |
| Peaks.RepositoryTestSeriesHasThreePeaks | src/utils.ts:140-191 | on the repository's test series with threshold 0.5 the result has three peaks, the last `{4.5, 5, 0.5}` |
| Peaks.OpenAtBothEnds | src/utils.ts:146-188 | on the series 2, 1, 1, 1, 2, 2 at threshold 1.5, a peak from the first sample closed at 0.5, and one opened at 3.5 and clamped to the last sample |
| Peaks.AboveThroughoutIsOnePeak | src/utils.ts:146-188 | a trace above the threshold at every sample gives one peak, from the first sample's time to the last one's |
| Peaks.PeakLengthsMatch | src/utils.ts:171-187 | every peak has `length = end - start`, except a peak never closed, which keeps `end = -1` and length 0 |
| Peaks.ClosedPeaksAreIntervals | src/utils.ts:162-188 | with increasing times every closed peak has `start <= end` and a non-negative length |
| Peaks.FilterAppend | src/utils.ts:193 | clipping distributes over concatenation, so output order follows input order |
| Peaks.ClipPeak | src/utils.ts:194-200 | at most one peak per input peak, and none exactly when neither end lies in the section; `Peaks.ClipIsIntersection` gives the clipped value |
| Peaks.FilterPeaksToSection | src/utils.ts:193-201 | `filterPeaksToSection` as a `flatMap` of `Peaks.ClipPeak`; `Peaks.FilterIsIntersection` ties it to the reference `Overlaps` |
| Peaks.ClipIsIntersection | src/utils.ts:194-200 | for a peak with `start <= end` and a matching length, the four cases are one rule: a peak with an end in the section becomes `[max(start, s.start), min(end, s.end)]` with length `min(end, s.end) - max(start, s.start)`; any other peak is dropped |
| Peaks.FilterIsIntersection | src/utils.ts:193-201 | on such peaks the filter equals the reference: each peak reaching into the section is cut to its overlap with it, in input order, and the rest are dropped |
| Peaks.FilterNoLonger | src/utils.ts:193-201 | at most one output per input peak |
| Peaks.FilterKeepsPeaksInside | src/utils.ts:197 | peaks with both ends in the section are returned unchanged |
| Peaks.EnclosingPeakDropped | src/utils.ts:194-200 | a peak enclosing the whole section is dropped |
| Peaks.ClipOutputInside | src/utils.ts:194-200 | a clipped peak lies inside the section and its length is recomputed as `end - start` |
| Peaks.FilterOutputInside | src/utils.ts:193-201 | every output peak lies inside the section with a consistent length |
| Peaks.StaleOpenPeakStretchedToSectionEnd | src/utils.ts:198 | an open peak (`end = -1`) starting inside a non-negative section is stretched to the section's end |
| Peaks.RepositoryClipExample | src/utils.test.ts:9-22 | the repository's clipping example gives the expected three peaks |
| Export.FindErrorsInSection | src/utils.ts:81-93 | 'end must be specified' iff the end is missing, 'start must be specified' iff the start is missing, 'start must be before end' iff both are non-zero and `start >= end`; no other messages, in that order |
| Export.FindErrorsInSectionIntended | src/utils.ts:81-93 | as above, but the order check applies whenever both bounds are present |
| Export.ZeroBoundSkipsOrderCheck | src/utils.ts:89 | start 5 and end 0 pass the check as written but fail the intended one |
| Export.ChecksAgreeOffZero | src/utils.ts:81-93 | with no bound equal to 0 the two checks agree |
| Export.IndexFrom | src/utils.ts:101 | the first occurrence of the pattern at or after the index, or -1 when there is none |
| Export.UpdateFilenameWithoutCsv | src/utils.ts:100-102 | a name without '.csv' gets '_processed.csv' appended |
| Export.UpdateFilenameReplacesExtension | src/utils.ts:100-102 | `base.csv` becomes `base_processed.csv` |
| Export.UpdateFilenameDropsFirstOccurrence | src/utils.ts:100-102 | for any name, the first '.csv' in it, wherever it is, is removed and '_processed.csv' is appended |
| Export.UpdateFilenameInnerCsv | src/utils.ts:100-102 | on the name `a.csv.bak` the result is `a.bak_processed.csv` |
| Export.ReplaceFirst | src/utils.ts:101 | `String.replace` with a string pattern: only the first occurrence found by `Export.IndexFrom` is replaced |
| Export.UpdateFilename | src/utils.ts:100-102 | `updateFilename`; the three lemmas above state its results |
| Export.Included | src/utils.ts:105 | a cell is kept exactly when it is in the input and not excluded, and nothing is added |
| Export.IncludedEmptyIffAllExcluded | src/utils.ts:105-106 | nothing is kept exactly when every cell is excluded |
| Export.IncludedAppend | src/utils.ts:105 | the filter keeps input order |
| Export.ExportNothingIffAllExcluded | src/utils.ts:104-108 | no CSV is produced exactly when every cell is excluded |
| Export.HeaderFieldsShape | src/utils.ts:111 | four header titles per section name: area, peaks, peak time, peak proportion |
| Export.ExportLines | src/utils.ts:109-117 | the text's lines are the data-URI prefix plus the header, then one row per non-excluded cell in input order |
| Export.ExportCsv | src/utils.ts:104-117 | the CSV text `exportCells` builds, or nothing when every cell is excluded; `Export.ExportNothingIffAllExcluded` and `Export.ExportLines` state it |
| Convolve.Convolved | src/utils/convolve.ts:26-45 | an error with the source's message exactly for an even-length kernel; otherwise one output per sample |
| Convolve.Convolve | src/utils/convolve.ts:26-45 | the nested loops compute `Convolved`: the error for an even-length kernel, else output `i` is the sum of `array[i-offset+k] * weights[k]` over the kernel range |
| Convolve.AccumulateAt | src/utils/convolve.ts:36-41 | the inner loop sets output `i` to its kernel-range sum and leaves every other output alone |
| Convolve.KernelRange | src/utils/convolve.ts:32-37 | every array and weight index read stays in bounds, and the kernel is cut only at an end of the array |
| Convolve.EdgesActAsZeroPadding | src/utils/convolve.ts:36-41 | dropping the edge terms equals reading zeros beyond the array with the full kernel |
| Convolve.InteriorUsesFullKernel | src/utils/convolve.ts:36-37 | indices at least half a kernel from both ends use the whole kernel |
| Convolve.SingleWeight | src/utils/convolve.ts:32-41 | a one-weight kernel scales every sample |
| Convolve.PalindromicOutputAtMatchesNumpy | src/utils/convolve.ts:24-41 | for an odd kernel that reads the same backwards, each output equals `NumpySameAt`, the full convolution sampled at the centre offset; that is numpy's 'same' value only when the kernel is no longer than the array |
| Convolve.PalindromicMatchesNumpy | src/utils/convolve.ts:24-45 | the claimed numpy 'same' equality holds for palindromic kernels no longer than the array |
| DataManager.AppendValues | src/DataManager.tsx:35-37 | appending succeeds exactly when there are no more values than records |
| DataManager.AddValues | src/DataManager.tsx:35-37 | the `forEach` appends the `i`-th numeric value to record `i`, failing where `records[i]` is undefined |
| DataManager.ParseCsv | src/DataManager.tsx:10-40 | the line loop computes the line-by-line specification `ParsedCsv` |
| DataManager.HeaderLineNamesColumns | src/DataManager.tsx:16-24 | a first line with a non-number makes one record per column, with id the column, the column text or `Cell n` as name, baseline 1 and not excluded; the header line alone stores no data |
| DataManager.NumericFirstLineIsData | src/DataManager.tsx:25-37 | an all-numeric first line makes default-named records and also stores its values |
| DataManager.LaterLinesOnlyExtend | src/DataManager.tsx:12-38 | once records exist no line renames, reorders or adds records; it only appends data |
| DataManager.BlankCellShiftsValuesLeft | src/DataManager.tsx:35-37 | values go by position among the numeric cells: `a,b` then `,2` stores 2 under `a` |
| DataManager.TooManyValuesFails | src/DataManager.tsx:37 | a row with more numeric cells than records fails |
| DataManager.JsRem | src/DataManager.tsx:8 | JavaScript's `%`: smaller than the divisor in size, with the sign of the dividend, and differing from the dividend by a multiple of the divisor |
| DataManager.Mod | src/DataManager.tsx:8 | `mod` as `(n % m + m) % m`; `DataManager.ModIsEuclidean` states its result |
| DataManager.ModIsEuclidean | src/DataManager.tsx:8 | `mod(n, m)` is in `[0, m)` and congruent to `n` for `m > 0` |
| DataManager.FindIndex | src/DataManager.tsx:130 | the first index with the selected id, or -1 when nothing matches or nothing is selected |
| DataManager.GoNext | src/DataManager.tsx:133-136 | a cell of the list exactly when the list is non-empty |
| DataManager.GoPrevious | src/DataManager.tsx:129-132 | a cell of the list exactly when the list is non-empty |
| DataManager.FindIndexOfMember | src/DataManager.tsx:130 | with distinct ids the index of a listed cell is its position |
| DataManager.NextIsFollowing | src/DataManager.tsx:133-136 | next selects the following cell, wrapping from the last to the first |
| DataManager.PreviousIsPreceding | src/DataManager.tsx:129-132 | previous selects the preceding cell, wrapping from the first to the last |
| DataManager.NextPreviousInverse | src/DataManager.tsx:128-136 | next then previous, and previous then next, return to the same cell |
| DataManager.NothingSelected | src/DataManager.tsx:128-136 | with no selection next gives the first cell and previous the second-to-last |
| DataManager.InsertById | src/DataManager.tsx:72 | inserting into a list sorted by id keeps it sorted and adds exactly that cell |
| DataManager.OrderedCells | src/DataManager.tsx:72 | sorted by ascending id and a permutation of the cells |
| DataManager.WithoutId | src/DataManager.tsx:82 | keeps exactly the cells with another id |
| DataManager.WithoutMemberId | src/DataManager.tsx:82 | with distinct ids, filtering out a listed cell's id removes exactly that cell |
| DataManager.UpdateCell | src/DataManager.tsx:77-84 | with nothing selected nothing changes; otherwise the update is selected and is the last cell |
| DataManager.UpdateReplacesOnlySelected | src/DataManager.tsx:77-84 | the update replaces the selected cell by its update, appended last, keeps every other cell and selects the update |
| DataManager.SamplesIn | src/DataManager.tsx:148 | keeps exactly the samples whose time is in `[start, end]` |
| DataManager.SamplesInKeepsOrder | src/DataManager.tsx:148 | the filter keeps times non-decreasing |
| DataManager.ProcessedTimesNonDecreasing | src/DataManager.tsx:144 | processed samples have non-decreasing times for a non-negative sample rate |
| DataManager.SectionAreas | src/DataManager.tsx:147-150 | one area per section |
| DataManager.CellsWithAreas | src/DataManager.tsx:139-153 | one entry per cell, for that cell, with one area per section |
| DataManager.CellsWithAreasShape | src/DataManager.tsx:139-153 | entries follow the given order, each with one non-negative area per section in section order |
| DataManager.AreaTableInIdOrder | src/DataManager.tsx:72 | over `orderedCells` the table has one entry per loaded cell, each cell once, in non-decreasing id order |
| DataManager.AreaTableExportFails | src/DataManager.tsx:232 | exporting the area table fails exactly when some section is defined and some cell is not excluded |
| DataManager.NothingInReversedSection | src/DataManager.tsx:148 | a section ending before it starts holds no sample |
| DataManager.ReversedSectionHasZeroArea | src/DataManager.tsx:148-149 | such a section has area 0 |
| DataManager.CheckSampleRate | src/DataManager.tsx:156-168 | accepted exactly when the text parses, has only digits and dots, and is above 0; otherwise 'enter a valid number' for bad text and 'enter a number above 0' for the rest |
| DataManager.MinusSignIsInvalidNumber | src/DataManager.tsx:7 | a leading minus sign is reported as an invalid number, never as not above 0 |
| DataManager.SampleRateInput.constructor | src/DataManager.tsx:69-70 | starts from a positive rate with no error |
| DataManager.SampleRateInput.SetSampleRateString | src/DataManager.tsx:156-168 | an accepted string sets the rate and clears the error; a rejected one sets the error and leaves the rate unchanged, so the rate stays positive |
| SectionManager.AddOutcomeOf | src/SectionManager.tsx:18-43 | nothing in progress changes nothing; the first missing field among start, end and name is reported; with all three present, the end-before-start error exactly when `end < start`, the name error exactly when the order is fine and the name is in use, and the section is added exactly otherwise |
| SectionManager.SectionManager.constructor | src/SectionManager.tsx:13-16 | no error and nothing in progress |
| SectionManager.SectionManager.TryToAddSection | src/SectionManager.tsx:18-43 | a rejection sets only the error; a success appends the section, clears the error and the section in progress; names stay unique |
| SectionManager.WithoutName | src/SectionManager.tsx:69 | keeps exactly the sections with another name |
| SectionManager.SectionManager.DeleteSection | src/SectionManager.tsx:69 | removes the named section and nothing else; names stay unique |
| SectionManager.SectionManager.EditSection | src/SectionManager.tsx:76 | the section goes into the editor and leaves the list |
| SectionManager.SectionManager.SetName | src/SectionManager.tsx:91 | sets the name of the section in progress, starting one if none |
| SectionManager.SectionManager.SetStart | src/SectionManager.tsx:99 | sets the start of the section in progress, starting one if none |
| SectionManager.SectionManager.SetEnd | src/SectionManager.tsx:102 | sets the end of the section in progress, starting one if none |
| SectionManager.SectionManager.Cancel | src/SectionManager.tsx:116 | drops the section in progress |
| SectionManager.SectionManager.NewSection | src/SectionManager.tsx:127 | an empty section in progress |
| SectionManager.AddFreshNameKeepsUnique | src/SectionManager.tsx:36-40 | appending a section with an unused name keeps the names unique |
| SectionManager.AddedKeepsNamesUnique | src/SectionManager.tsx:34-41 | every successful save keeps the names unique |
| SectionManager.WithoutNameKeepsUnique | src/SectionManager.tsx:69 | deleting keeps the names unique and removes the name |
| SectionManager.EditThenSaveMovesToEnd | src/SectionManager.tsx:76 | editing a saved section and saving it unchanged succeeds and moves it to the end |
| SectionManager.EmptySectionSavedButFlagged | src/SectionManager.tsx:34-35 | a section with `start == end` is saved, although the shared validator flags it whenever that bound is non-zero |
| SectionManager.SavedSectionsPassIntendedCheckUnlessEmpty | src/SectionManager.tsx:34-41 | a saved section fails the intended validator exactly when it is empty |
| LineChart.TickStep | src/charts/LineChart.tsx:20-30 | the step is 15, 30, 60 or 120 seconds |
| LineChart.TickCountIsRangeOverStep | src/charts/LineChart.tsx:20-30 | every branch asks for `ceil(range / step) + 1` raw ticks |
| LineChart.Ceil | src/charts/LineChart.tsx:22-30 | `Math.ceil`: the least integer not below its argument |
| LineChart.JsFmod | src/charts/LineChart.tsx:22-30 | JavaScript's `%` on numbers, truncating; `LineChart.FirstTickBracket` states what it yields here |
| LineChart.FirstTick | src/charts/LineChart.tsx:22-30 | `extent[0] - extent[0] % step`; `LineChart.FirstTickBracket` and `LineChart.FirstTickIsLargestMultipleBelow` state it |
| LineChart.RawTicks | src/charts/LineChart.tsx:19-31 | `rawTicks`: fails exactly when the count is negative, and otherwise has exactly the count asked for |
| LineChart.FailsIffReversedByHalfMinute | src/charts/LineChart.tsx:22-30 | `Array(n)` fails exactly when the extent is reversed by at least 30 seconds |
| LineChart.GenerateTickValues | src/charts/LineChart.tsx:18-33 | every returned tick lies in `[e0, e1]` |
| LineChart.WithinExtent | src/charts/LineChart.tsx:32 | keeps exactly the ticks inside the extent, ends included |
| LineChart.FirstTickBracket | src/charts/LineChart.tsx:22-30 | the first raw tick is a multiple of the step less than one step from `e0` |
| LineChart.FirstTickIsLargestMultipleBelow | src/charts/LineChart.tsx:22-30 | for `e0 >= 0` the first raw tick is the largest multiple of the step not above `e0` |
| LineChart.WithinExtentKeepsOrder | src/charts/LineChart.tsx:32 | the filter keeps a strictly increasing series strictly increasing |
| LineChart.TicksStrictlyIncreasing | src/charts/LineChart.tsx:22-32 | the returned ticks are strictly increasing |
| LineChart.ReturnedTicksAreMultiples | src/charts/LineChart.tsx:22-32 | every returned tick is a multiple of the step |
| LineChart.EveryMultipleReturned | src/charts/LineChart.tsx:22-32 | every multiple of the step in a forward extent is returned |
| LineChart.TicksAreExactlyMultiplesInExtent | src/charts/LineChart.tsx:18-33 | for a forward extent the ticks are exactly the multiples of the step in `[e0, e1]` |

## Left out

- React wiring, rendering and memoisation are not modelled: hooks, JSX, `useMemo`/`useQuery` caching, and the components in src/App.tsx, src/main.tsx, src/CellDisplay.tsx and src/CellProperties.tsx. They are UI plumbing around the modelled functions.
- The stale `sections` closure of `tryToAddSection` is not modelled; the class reads its current field. The dependency list is a React concern.
- File reading (`FileReader`, `useQuery`) is not modelled; `parseCsv` takes the text.
- The DOM download in `exportCells` is not modelled: `encodeURI`, the link element and the click. The model stops at the CSV text and the file name.
- d3 drawing, dragging and brushing in src/charts/LineChart.tsx and src/charts/Brush.tsx are not modelled; they are library calls.
- `formatSeconds` is not modelled; it depends on `toFixed` float rounding.
- src/constants.ts is not modelled; it is a colour lookup. vite.config.ts is not modelled either; it is build configuration.
- IEEE-754 rounding, NaN and Infinity are not modelled; numbers are exact reals.
- `isNaN` and `parseFloat` on strings are parameters, not definitions. The JavaScript coercion rules are not reproduced.
- The number-to-text conversion used in the CSV rows is a parameter, for the same reason.
- Pipeline.ProcessCell: requires a non-zero baseline mean. The source divides by it unguarded and yields Infinity or NaN, which reals cannot represent.
- Pipeline.ProcessCell: takes the window width as an integer of at least 1, which is the range of the width slider.
- Convolve.PalindromicOutputAtMatchesNumpy: `NumpySameAt` follows numpy's 'same' mode only for kernels no longer than the array. For a longer kernel numpy swaps the operands and returns as many values as the kernel has, so the lemma is no numpy equality there.
- Convolve.PalindromicMatchesNumpy: the numpy equality is stated only for palindromic kernels no longer than the array. The code never reverses the kernel, so other kernels differ from numpy.
- DataManager.ParseCsv: the `TypeError` from writing to a missing `records[i]` is the `Err` result.
- DataManager.ExportAreaTable: the TypeError thrown while building a row is an `Err` with a fixed message; the exception's JavaScript text is not reproduced.
- DataManager.OrderedCells: states sortedness and permutation but not the stability of JavaScript's sort, which only matters for equal ids.
- SectionManager.SectionManager.SetStart: takes a real. The NaN that `parseFloat` yields for a cleared field is not modelled.
- SectionManager.SectionManager.SetEnd: the same as SetStart.
- SectionManager.WithoutName: states membership; the filter's preservation of order holds by its definition and is not stated as a separate lemma.
- LineChart.GenerateTickValues: non-integer `Array` lengths cannot occur, because the count comes from `Math.ceil`. The `RangeError` for a negative length is the `None` result.

## Findings

| source | as written | input that shows it | evidently intended | confidence | as-written member | corrected member |
|---|---|---|---|---|---|---|
| src/utils.ts:89 | the order check tests `section.start && section.end`, so a bound equal to 0 counts as missing and the check is skipped | start 5, end 0: no error, although the start is after the end | the order check applies whenever both bounds are present | medium, not executed | Export.ZeroBoundSkipsOrderCheck | Export.FindErrorsInSectionIntended |
| src/DataManager.tsx:232 | the export button hands the area table to `exportCells`; its sections (src/DataManager.tsx:149) carry a name, bounds and an area only, and each row calls `toString` on the section's `peaks`, `totalPeakTime` and `proportionPeakTime` (src/utils.ts:115) | one cell not excluded and one section defined: `peaks` is undefined, the row throws a TypeError and no file is produced | every exported section carries its area, peak count, peak time and peak proportion, and the text is a header plus one row per included cell | medium, not executed | DataManager.AreaTableExportFails | Export.ExportLines |
