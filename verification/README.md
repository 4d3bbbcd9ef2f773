# TimeSeriesScale in Dafny

A model of Chart.js's `timeseries` scale, `TimeSeriesScale`. Unlike the linear time scale, this scale gives every distinct timestamp an equal-width slot on the axis. Three pieces are modelled:

- **Timeline normalisation** (`determineDataLimits`, `arrayUnique`, `getLabels`). Labels and dataset points are parsed into millisecond timestamps, held by position; a value that does not parse leaves a hole. Each timestamp is optionally truncated to the start of the `round` unit. The label and dataset arrays are then concatenated, deduplicated by strict equality and sorted into the master timeline `allTimestamps`.
- **Tick decimation** (`buildTicks`). A greedy pass over the master timeline keeps roughly `maxTicks` ticks. It prefers to put ticks on major-unit boundaries (start of day, month, …): when a boundary arrives too soon after the last tick, it moves that tick onto the boundary and re-centres the tick before it.
- **Coordinate mapping** (`getPixelForValue`, `getPixelForTick`, `getValueForPixel`, `getBasePixel`). Slot index and pixel are related linearly, with rounding to whole pixels.

Files:

| file | contents |
|---|---|
| `wrappers.dfy` | `Option`, where `None` is JavaScript's `undefined` (or a hole in a sparse array) |
| `js_builtins.dfy` | `Array.prototype.indexOf`, storing `a[k] = v` past the end of an array, `Math.round`, and `Array.prototype.sort` with `(a, b) => a - b` (numbers ascending, `undefined` last) |
| `time_lib.dfy` | calendar units, and `moment(t).startOf(unit).valueOf()` as a function parameter with the three properties the tick pass relies on |
| `normalizer.dfy` | `getLabels`, `arrayUnique`, the parsing loops of `determineDataLimits` and the merge into the master timeline |
| `tick_selection.dfy` | the `buildTicks` loop: `Step` specifies one callback invocation and `Decimate` folds it; the loop (`SelectTicks`) and its body (`VisitTimestamp`) are proved against them |
| `scale.dfy` | the `TimeSeriesScale` class: its fields, the two state-changing passes and the pixel mapping, with their lemmas |

The sparse arrays of the source are `seq<Option<int>>`. Writing `labels[i] = t` only for valid labels leaves holes, and the array's length ends at its last stored index. `Normalizer.Trim` captures that length rule. `concat` and `slice` keep holes. `arrayUnique` reads a hole as `undefined`, so it keeps one `undefined`, and `sort` puts it last.

The `!previousTick` test at `src/scales/scale.timeseries.js:147` treats a previous timestamp of `0` like a missing one. The model keeps this literally (`TickSelection.Falsy`). `TickSelection.ZeroPreviousRestartsTicks` shows the consequence: with a major unit, the tick after a `0` can repeat the same tick time. The ordering lemma (`TickSelection.TickTimesAscend`) and the spacing lemma (`TickSelection.SpacedWithoutMajorUnit`) therefore assume that no timestamp before the last one is `0`. `TickSelection.ZeroPreviousBreaksSpacing` shows the spacing failing without that assumption. The ordering lemma also assumes that every timestamp is defined. A label or point that fails to parse but is followed by a valid one in the same array leaves a hole inside that array. `arrayUnique` then keeps an `undefined`, and `sort` moves it to the end of the master timeline. `TickSelection.TrailingUndefinedTick` shows the last tick that follows from it. An unparseable value after the last valid one leaves no hole, since the array ends at its last stored index (`Normalizer.Trim`).

`getPixelForValue` divides the width by the master-timeline length (`_tickTimestamps.length`, line 196), while `getValueForPixel` divides it by `ticks.length` (line 222). The round trip therefore holds only when the two give the same slot count. `Scales.TimeSeriesScale.PixelRoundTrip` states it under that condition, and `Scales.MismatchedCountsBreakRoundTrip` gives an input where it fails.

The capacity test at line 173 is strict (`>`), so a timeline that exactly fills the capacity is still thinned. `Scales.FullCapacityShowsAlternatePoints` shows three labels with a capacity of three giving two ticks.

## Model

| member | source | states |
|---|---|---|
| Normalizer.GetLabels | src/scales/scale.timeseries.js:57-60 | explicit x labels are used whenever present, even when empty; otherwise the labels |
| Normalizer.ArrayUnique | src/scales/scale.timeseries.js:41-49 | no duplicates; an element is in the result iff it is in the input; elements keep the order of their first occurrence |
| JsBuiltins.IndexOf | src/scales/scale.timeseries.js:44 | -1 iff the element is absent; otherwise the position of its first occurrence |
| JsBuiltins.SparseStore | src/scales/scale.timeseries.js:81 | `a[k] = v` sets slot `k`, keeps every other slot, and pads with holes up to `k` when `k` is past the end |
| Normalizer.Trim | src/scales/scale.timeseries.js:81 | the array a sequence of positional stores leaves is the positional sequence cut after its last defined entry; everything cut is a hole |
| Normalizer.StoreAfterTrim | src/scales/scale.timeseries.js:81 | storing at index `|s|` into the trimmed array gives `s` followed by the value, so stores in index order build the trimmed array |
| Normalizer.ParseSeries | src/scales/scale.timeseries.js:72-83 | the label loop (and the point loop at 90-100) yields the trimmed positional array of parsed times |
| Normalizer.TimestampsOfPositions | src/scales/scale.timeseries.js:72-83 | each defined entry is the parsed time of the value at that index; indexes past the end parse to nothing |
| Normalizer.RoundedTimesAreUnitStarts | src/scales/scale.timeseries.js:77-81 | with `round` set, every stored time is the start of its `round` unit |
| Normalizer.ParseDatasets | src/scales/scale.timeseries.js:85-107 | one array per dataset, in order: its own parsed points when its first element is a non-null object and it is visible, otherwise the label times |
| Normalizer.Concat | src/scales/scale.timeseries.js:110-112 | a value is in the concatenation iff it is in one of the arrays |
| JsBuiltins.SortNumeric | src/scales/scale.timeseries.js:114-116 | the result is sorted numerically with `undefined` last, and is a permutation of the input |
| JsBuiltins.SortDistinct | src/scales/scale.timeseries.js:114-116 | sorting distinct values gives strictly increasing defined values, the same members, and `undefined` only in the last place |
| Normalizer.MasterTimeline | src/scales/scale.timeseries.js:114-118 | the master timeline is fixed by its values: any strictly sorted array with exactly the deduplicated values equals the sorted array |
| JsBuiltins.StrictlySortedUnique | src/scales/scale.timeseries.js:114-116 | two arrays with strictly ascending numbers, `undefined` only last, and the same members are equal |
| Normalizer.MergeTimestamps | src/scales/scale.timeseries.js:109-118 | `allTimestamps` has strictly ascending numbers with at most one `undefined`, last, and holds exactly the values found in the label times or any dataset's times |
| Scales.TimeSeriesScale.DetermineDataLimits | src/scales/scale.timeseries.js:62-121 | stores label times, per-dataset times and a strictly sorted master timeline holding exactly their values; leaves geometry and tick state alone |
| TimeLib.CrossingStartFollows | src/scales/scale.timeseries.js:155-156 | when `t` starts a new major unit relative to an earlier `p`, the unit start of `t` lies after `p` |
| JsBuiltins.MathRound | src/scales/scale.timeseries.js:211 | `Math.round(x)` is the integer in `(x - 0.5, x + 0.5]` |
| JsBuiltins.HalfRound | src/scales/scale.timeseries.js:164 | `Math.round(d / 2)` equals `(d + 1) / 2` in integer division |
| TickSelection.Midpoint | src/scales/scale.timeseries.js:164 | the re-centred index lies strictly between the tick two back and the current index |
| TickSelection.Step | src/scales/scale.timeseries.js:142-185 | one callback keeps ticks and indexes paired, indexes below the points seen, and on the last point makes it the last tick index |
| TickSelection.Decimate | src/scales/scale.timeseries.js:140-185 | after `k` points the arrays are paired and non-empty when `k > 0`; after all points the last index is `n - 1` |
| TickSelection.VisitTimestamp | src/scales/scale.timeseries.js:142-185 | the imperative callback (push, overwrite last, re-centre second-to-last) produces exactly `Step` |
| TickSelection.SelectTicks | src/scales/scale.timeseries.js:140-185 | the loop produces `Decimate` of the whole timeline: paired, strictly increasing indexes in `[0, n)`, empty iff the timeline is, last index `n - 1`, a single point gives index 0 |
| TickSelection.DecimateShape | src/scales/scale.timeseries.js:140-189 | after the whole timeline: paired arrays, strictly increasing indexes inside the timeline, ticks exactly when there are points, the final point is the last tick, a lone point is the only tick |
| TickSelection.IndexesAscend | src/scales/scale.timeseries.js:158-175 | tick indexes stay strictly ascending and below the points seen, through every push and the midpoint rewrite |
| TickSelection.TicksFromTimeline | src/scales/scale.timeseries.js:147-183 | every tick is the timeline value at its index or, with a major unit, that value's unit start; with no major unit it is the raw value |
| TickSelection.EveryPointUnderCapacity | src/scales/scale.timeseries.js:138 | when `skipCount < 1` every timeline index becomes a tick |
| TickSelection.SpacedWithoutMajorUnit | src/scales/scale.timeseries.js:173-183 | without a major unit, and when no point before the last is falsy (`undefined` or 0), consecutive ticks (all but the final pair) are more than `skipCount` points apart |
| TickSelection.OrdinaryTicksSkipAPoint | src/scales/scale.timeseries.js:147-183 | with `skipCount = 1` and any major unit, a tick at a point that is not the first, does not follow a falsy point, starts no new major unit and is not the final point lies more than one point after the previous tick |
| TickSelection.TickCountWithinCapacity | src/scales/scale.timeseries.js:138-185 | with `skipCount = n / maxTicks` and any major unit, a timeline with no falsy point before the last yields at most `maxTicks + 1` ticks |
| TickSelection.ReachDecimate | src/scales/scale.timeseries.js:147-183 | with no falsy point before the last, once there are `m >= 2` ticks the last index is at least `1 + (m - 2) * skipCount`, through every push, collapse and final overwrite |
| TickSelection.TickTimesAscend | src/scales/scale.timeseries.js:147-183 | on a timeline of defined, strictly ascending times with no 0 before the last point, tick times strictly ascend and each is at or before its point |
| TickSelection.TrailingUndefinedTick | src/scales/scale.timeseries.js:147-183 | a timeline `5, 9, undefined` ends its ticks with `undefined`, or with a major unit with the unit start of the current time, which here precedes 9 |
| TickSelection.ZeroPreviousRestartsTicks | src/scales/scale.timeseries.js:147 | a previous time of 0 sends the next point through the first-point branch, repeating the tick time 0 |
| TickSelection.ZeroPreviousBreaksSpacing | src/scales/scale.timeseries.js:147-183 | on times 0 to 3 with `skipCount` 2 and no major unit the tick indexes are `[0, 1, 3]`: the point after 0 is shown one point after the first tick |
| Scales.DecimationFacts | src/scales/scale.timeseries.js:138-189 | with `skipCount = n / maxTicks`: paired strictly increasing in-range indexes ending at `n - 1`; all points below capacity; at most `maxTicks + 1` ticks, whatever the major unit, when no point before the last is falsy |
| Scales.ChosenUnit | src/scales/scale.timeseries.js:132 | a configured unit wins over the determined one |
| Scales.MajorUnitOf | src/scales/scale.timeseries.js:133 | the major unit is the table entry for the unit, none without one |
| Scales.TimeSeriesScale.BuildTicks | src/scales/scale.timeseries.js:123-190 | sets the unit, the major unit and tick arrays equal to the decimation of the master timeline; stores the timeline as tick timestamps; keeps the class invariant |
| Scales.OffsetAmount | src/scales/scale.timeseries.js:196 | the slot count is at least 1 and is the maximum of 1 and the count less one (less nothing with offset grid lines) |
| Scales.TimeSeriesScale.ResolvedIndex | src/scales/scale.timeseries.js:198-202 | with a dataset index, the first position of that value's timestamp among the tick timestamps when present, the given index otherwise |
| Scales.PixelAt | src/scales/scale.timeseries.js:204-211 | the pixel is a whole number of pixels from `left`, within half a pixel of `left + slot * index` (plus half a slot when centred) |
| Scales.TimeSeriesScale.GetPixelForValue | src/scales/scale.timeseries.js:193-212 | the pixel is within half a pixel of the resolved slot position, centred when offset is requested and grid lines are offset or there is one tick |
| Scales.TimeSeriesScale.GetPixelForTick | src/scales/scale.timeseries.js:213-218 | defined exactly for existing ticks; a whole number of pixels from `left`, within half a pixel of the slot of the tick's timeline index, always centred for a lone tick |
| Scales.SlotOfPixel | src/scales/scale.timeseries.js:219-238 | 0 at or left of the adjusted origin, otherwise the nearest slot; never negative for a non-negative slot width |
| Scales.TimeSeriesScale.GetValueForPixel | src/scales/scale.timeseries.js:219-238 | 0 at or left of the adjusted origin, otherwise the slot nearest the pixel using the tick count; never negative for a non-negative width |
| Scales.TimeSeriesScale.GetBasePixel | src/scales/scale.timeseries.js:239-241 | the base line is the bottom edge |
| Scales.PixelAtMonotone | src/scales/scale.timeseries.js:204-211 | with a non-negative slot width, a later slot is never left of an earlier one |
| Scales.PixelAtSeparates | src/scales/scale.timeseries.js:204-211 | with slots at least a pixel wide, a later slot is strictly right of an earlier one |
| Scales.PixelAtRoundTrip | src/scales/scale.timeseries.js:204-237 | with slots at least a pixel wide and no offset, the slot of the pixel of slot `i` is `i` |
| Scales.TimeSeriesScale.PixelForValueMonotone | src/scales/scale.timeseries.js:204-211 | on a scale of non-negative width, later indexes never map further left |
| Scales.TimeSeriesScale.TickPixelsIncrease | src/scales/scale.timeseries.js:213-217 | when slots are at least a pixel wide, later ticks map strictly further right |
| Scales.TimeSeriesScale.LoneTickCentred | src/scales/scale.timeseries.js:214-216 | a lone tick's pixel does not depend on `includeOffset` |
| Scales.TimeSeriesScale.PixelRoundTrip | src/scales/scale.timeseries.js:196-237 | without offset grid lines, when both directions use the same slot count and slots are at least a pixel, value-for-pixel inverts pixel-for-value |
| Scales.MismatchedCountsBreakRoundTrip | src/scales/scale.timeseries.js:196-237 | with 11 timeline points, 6 ticks and 100 pixels, slot 4 is drawn at pixel 40 and read back as slot 2 |
| Scales.FullCapacityShowsAlternatePoints | src/scales/scale.timeseries.js:138-183 | three labels with a capacity of three (`skipCount` 1) keep only indexes 0 and 2 |

## Left out

- Parsing and calendar arithmetic are parameters. `timeHelpers.parseTime` with `isValid()`/`valueOf()` is the host's `parseTime`, and `moment(t).startOf(unit).valueOf()` is `Moment.startOf`. The properties proved about tick times assume only that `startOf` is at or before its input, monotone and idempotent. `moment(undefined)` is the current time, carried as `Moment.now`.
- `getLabelCapacity`, `timeHelpers.determineUnit` and `determineMajorUnit` are not part of this model. `maxTicks` and the determined unit are inputs, and `determineMajorUnit` is an input table from unit to major unit.
- TickSelection.TickTimesAscend: requires every timestamp to be defined. A timeline ending in `undefined` is not covered. One arises when a label or point that fails to parse is followed by a valid one in the same array, so the array has a hole that `arrayUnique` and `sort` turn into a trailing `undefined`. On such a timeline the final point is always shown, so the last tick is `undefined`, or with a major unit the start of that unit around the current time, which need not follow the tick before it (`TickSelection.TrailingUndefinedTick`).
- Scales.TimeSeriesScale.BuildTicks: requires `maxTicks > 0`. A capacity of 0 makes `skipCount` infinite (or `NaN` for an empty timeline), which a `real` cannot represent.
- Display formats are left out. `displayFormats[unit]` and `displayFormats[majorUnit]` only choose label patterns, and so does `defaultConfig`. Registration with `Chart.scaleService` is also left out.
- Geometry (`left`, `width`, `bottom`) is set by the chart's layout engine. The constructor takes it as arguments.
- Pixel arithmetic uses exact `real` numbers rather than IEEE doubles, so it ignores floating-point rounding in `width / offsetAmt` and its products.
- `NaN` and `Infinity` results are `None`. `getPixelForTick` of a missing tick gives `NaN`, and `getValueForPixel` on a zero width gives `Infinity` past the origin.
- Scales.TimeSeriesScale.GetPixelForValue: requires a dataset index, when one is given, to name an existing dataset, since the source throws a `TypeError` otherwise. Indexes are integers: non-integer or non-numeric indexes are not modelled.
- Chart visibility (`chart.isDatasetVisible`) and the "non-null object" test on a dataset's first element are predicates supplied by the host. `getRightValue` is one too.
- `helpers.each` over chart data is a plain in-order loop. Iteration over non-array objects is not modelled.
