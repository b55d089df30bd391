# Activity dataset builder and enricher, in Dafny

This project models the two data-preparation stages of an activity
dashboard.

1. **Building the raw dataset** (`scripts/create_dataset.py`). Each parsed
   GPX track becomes one CSV row per point. Per track, a cumulative
   distance and a cumulative D+ (elevation gain) start at 0. Per segment,
   the previous point starts empty. A point adds its 3-D distance to the
   previous point when that distance lies in [0, 200) m. It adds its rise
   in elevation when both elevations are known and the rise is positive.
   Its speed comes from a `velocity_smooth` extension (values below 50 are
   m/s, converted to km/h). Whenever that speed is 0, whether no extension
   gave one or one gave 0, it is recomputed as the accepted distance over
   the elapsed seconds, in km/h. It stays 0 when there is no previous point,
   when either time is missing, or when time did not advance.
2. **Enriching it** (`scripts/enrich_dataset.py`). The rows are sorted
   stably by file name and time, with missing times last. Each file becomes
   a trace with a dense `track_id`, and each row gets its `point_idx` within
   the trace. Per trace, the enrichment computes:
   - a rolling median of the altitude (window 7, centred, clipped at the
     ends);
   - a distance step that is clipped at 0 and zeroed above 200 m;
   - a D+ step that keeps only rises above 0.8 m, and its running sum;
   - a relative clock in seconds.

   Finally, activity types are mapped to short labels.

Modules, one concept each:

- `Common`: `Option`, sums of reals, presence counts, and the time order
  with missing times last.
- `Lexicographic`: Python's string order (`<` on `str`).
- `TraceGrouping`: the stable sort, `ngroup()` (`TrackId`) and
  `cumcount()` (`PointIndex`).
- `MedianFilter`: `median_filter_series` and the rolling median.
- `StepMetrics`: the distance steps, the D+ steps and the cumulative sum.
- `RelativeTime`: the `time_s` column.
- `ActivityLabels`: the type map and the "Other" fallback.
- `Enrichment`: `enrich_group` and the per-trace apply over the sorted rows.
- `PointAccumulator`: the point loop of the dataset builder.

Values that pandas holds as NaN or NaT are `Option` values. Timestamps are
integer nanoseconds, and seconds are computed as exact reals. The GPX
parser and `distance_3d` are inputs: the model receives parsed files, and a
function that gives the outcome of `point.distance_3d(previous_point)` (a
distance, `None`, or an exception).

Two details of the code shape the model:

- The altitude window is clipped at the series ends (`min_periods=1`): near
  an end it holds fewer values on one side, and it is not shrunk
  symmetrically.
- The relative clock subtracts the first row's time, even when that time is
  missing, and then every `time_s` of the trace is missing. In a trace
  sorted with missing times last, with at least two timestamps, the first
  row always has a time (`RelativeTime.SortedTraceClock`).

## Model

| member | source | states |
|---|---|---|
| TraceGrouping.StableOrder | scripts/enrich_dataset.py:40-41 | the merge-sorted order: tagged rows ordered by (file name, time with missing times last), ties kept in input order, a permutation of the input |
| TraceGrouping.StableOrderIsPermutation | scripts/enrich_dataset.py:40-41 | every sorted entry is the input row at its recorded position, each input position appears exactly once |
| TraceGrouping.OrderedUnique | scripts/enrich_dataset.py:40 | any two orderings of the same tagged rows that respect (key, input position) are equal, so every stable sort gives this result |
| TraceGrouping.SortRows | scripts/enrich_dataset.py:40-41 | the sorted rows are a permutation of the input with no row's key before an earlier row's key, so file names are grouped in ascending order |
| TraceGrouping.NumberingSteps | scripts/enrich_dataset.py:44-45 | on sorted rows, the first row has track 0 and point 0; the next row of the same file keeps the track and adds 1 to the point index; a new file adds 1 to the track and restarts the point index at 0 |
| TraceGrouping.TrackIdsDense | scripts/enrich_dataset.py:44 | every track id from 0 up to the number of distinct files minus one is used |
| TraceGrouping.LastTrackId | scripts/enrich_dataset.py:44 | the last row's track id is the number of distinct files minus one |
| TraceGrouping.TrackId | scripts/enrich_dataset.py:44 | `ngroup()`: the rank of a row's file name among the distinct names, below their number |
| TraceGrouping.PointIndex | scripts/enrich_dataset.py:45 | `cumcount()`: the number of earlier rows of the same trace, at most the row's position |
| Lexicographic.Less | scripts/enrich_dataset.py:40 | Python's `<` on `str`: a proper prefix sorts before any extension of it, and no string sorts before itself |
| Lexicographic.LessFirstDifference | scripts/enrich_dataset.py:40 | `a` sorts before `b` exactly when, at the first position where they differ, `a` has ended or has the smaller code point |
| Lexicographic.Transitive | scripts/enrich_dataset.py:40 | the string order used for file names is transitive (with `Irreflexive` and `Total` it is a strict total order) |
| Lexicographic.Total | scripts/enrich_dataset.py:40 | two different file names are ordered one way or the other |
| MedianFilter.EffectiveWidth | scripts/enrich_dataset.py:52 | the rolling width is odd and is the window or the window plus one |
| MedianFilter.MedianFilterSeries | scripts/enrich_dataset.py:49-51 | same length as the series; a missing window or one below 3 returns the series unchanged |
| MedianFilter.SmoothedValue | scripts/enrich_dataset.py:53 | each smoothed value is absent exactly when every entry of the clipped window is absent; otherwise at least half the present window values lie at or below it and at least half at or above, and it lies between the window's minimum and maximum |
| MedianFilter.Median | scripts/enrich_dataset.py:53 | pandas' `.median()` of the present values of a window: missing exactly when there are none, and one of the values when their number is odd |
| MedianFilter.MedianSplits | scripts/enrich_dataset.py:53 | the median of a non-empty set of values splits it in halves and is one of the values when their number is odd |
| StepMetrics.DistanceSteps | scripts/enrich_dataset.py:62-63 | the first step is absent; a step is present exactly when both distances are; a present step lies in [0, 200]; it is the difference for differences in [0, 200] and 0 for negative or larger ones |
| StepMetrics.DistanceStepsTelescope | scripts/enrich_dataset.py:62-63 | on cumulative distances that never fall and never jump above 200 m, the steps add up to the last distance minus the first |
| StepMetrics.DplusSteps | scripts/enrich_dataset.py:66-67 | the first step is 0; every step is 0 or above 0.8 m and then equals the altitude difference; every difference above 0.8 m is kept |
| StepMetrics.CumSum | scripts/enrich_dataset.py:68 | entry k is the sum of the first k+1 steps |
| StepMetrics.CumSumSteps | scripts/enrich_dataset.py:68 | the first entry is the first step, each later entry adds its step to the previous, and the last is the sum of all steps |
| StepMetrics.CumSumMonotone | scripts/enrich_dataset.py:68 | with non-negative steps the running sum never decreases and never goes below 0 |
| RelativeTime.RelativeTimes | scripts/enrich_dataset.py:71-75 | with fewer than two timestamps the clock is the row position; otherwise it is present exactly where the first and the row's time are, and equals their difference in seconds |
| RelativeTime.SortedTraceClock | scripts/enrich_dataset.py:71-75 | on a time-sorted trace with at least two timestamps, the clock starts at 0, is present exactly where the time is, and never runs backwards |
| ActivityLabels.ShortName | scripts/enrich_dataset.py:86-97 | mapped types get their short form, other types are kept, a missing type becomes "Other" |
| ActivityLabels.ShortNameIdempotent | scripts/enrich_dataset.py:86-97 | normalising a normalised label changes nothing |
| ActivityLabels.ReadLabel | scripts/enrich_dataset.py:31 | a cell is read back as missing exactly when it is one of pandas' default "not available" spellings (the empty cell, "NA", "null", "nan", "None", "N/A" and the others); any other cell is read as its text |
| ActivityLabels.WrittenKindReadBack | scripts/enrich_dataset.py:97 | a track with no type, or a type spelled as "not available", is labelled "Other" after the round trip through the raw CSV; any other type gets its own short name |
| Enrichment.EnrichTrace | scripts/enrich_dataset.py:55-76 | `enrich_group` keeps the trace's rows in order, each with the trace's id and its position as point index |
| Enrichment.EnrichTraceFacts | scripts/enrich_dataset.py:59-68 | per trace: distance steps lie in [0, 200], D+ steps are 0 or above 0.8, the first row has no distance step and zero D+, the running D+ adds each step, and a nonzero step is the smoothed rise |
| Enrichment.EnrichTraceTotal | scripts/enrich_dataset.py:66-68 | the last running D+ of a trace is the sum of its D+ steps |
| Enrichment.GroupApply | scripts/enrich_dataset.py:81 | `groupby(...).apply(f)` over rows whose traces are contiguous: when `f` returns one row per row, the result has one row per input row |
| Enrichment.Enrich | scripts/enrich_dataset.py:81 | the applied enrichment has one row per input row, carrying the sorted rows in order |
| Enrichment.EnrichNumbering | scripts/enrich_dataset.py:40-45 | the enriched rows are the input rows in the sorted order, with `track_id` and `point_idx` equal to `ngroup()` and `cumcount()` of the sorted rows |
| Enrichment.EnrichFacts | scripts/enrich_dataset.py:55-81 | every enriched row satisfies the per-row facts and carries its normalised label; a row with point index 0 is a trace origin; any other row is related to the previous row by the step facts |
| Enrichment.EnrichDplusMonotone | scripts/enrich_dataset.py:66-68 | within one track the running D+ never decreases and never goes below 0 |
| Enrichment.TrackIdMonotone | scripts/enrich_dataset.py:44 | track ids never decrease along the enriched rows |
| Enrichment.TraceTimesSorted | scripts/enrich_dataset.py:40 | a run of sorted rows from one file has its times in order, missing times last |
| Enrichment.EnrichTraceClock | scripts/enrich_dataset.py:71-75 | on a time-ordered trace with at least two timestamps, `time_s` starts at 0, is present exactly where the time is, and never decreases |
| Enrichment.EnrichRun | scripts/enrich_dataset.py:81 | each maximal run of one file in the sorted rows comes out of the apply as `enrich_group` of exactly that run, under the run's `track_id` |
| Enrichment.EnrichRunClock | scripts/enrich_dataset.py:71-81 | in the whole enrichment, every trace's `time_s` starts at 0, is present exactly where the time is and never decreases when it has at least two timestamps, and is the row position otherwise |
| PointAccumulator.KindName | scripts/create_dataset.py:36 | `track.type or ""`: a missing type is written as the empty string |
| PointAccumulator.AcceptedDistance | scripts/create_dataset.py:52-59 | the distance a step adds lies in [0, 200); it is the measurement exactly when the measurement lies in that range; otherwise, or when it is `None` or raised, it is 0 |
| PointAccumulator.Climb | scripts/create_dataset.py:61-65 | the gain is never negative; it is positive exactly when both elevations are known and the point is higher, and it is then the rise |
| PointAccumulator.Contains | scripts/create_dataset.py:72 | Python's `in` on strings: a prefix match is a match, and a match needs the pattern to fit |
| PointAccumulator.ContainsOccurrence | scripts/create_dataset.py:72 | `Contains` holds exactly when the pattern occurs at some position of the string |
| PointAccumulator.FromVelocity | scripts/create_dataset.py:75 | values below 50 are multiplied by 3.6, others are kept |
| PointAccumulator.ExtensionSpeed | scripts/create_dataset.py:68-77 | without a numeric `velocity_smooth` child the speed stays 0; a nonzero speed comes from one such child |
| PointAccumulator.LastVelocityDecides | scripts/create_dataset.py:69-77 | the last numeric `velocity_smooth` child decides the speed, whatever comes before it |
| PointAccumulator.Elapsed | scripts/create_dataset.py:78-80 | with a previous point and both times present, the elapsed seconds times 10^9 are the difference of the timestamps in nanoseconds; otherwise 0 |
| PointAccumulator.PointSpeed | scripts/create_dataset.py:67-84 | a nonzero extension speed is kept; without a previous point or a time, the extension speed stays; otherwise speed times elapsed seconds equals 3.6 times the accepted distance when time advanced, and the speed is 0 when it did not |
| PointAccumulator.Visit | scripts/create_dataset.py:51-97 | the first point of a segment leaves the running sums as they are; any other point adds its accepted distance and its climb; the row carries the new sums; the row's speed is the extension speed when that is nonzero or there is no previous point, is never negative when the extension speed is 0, and then, when time advanced, times the elapsed seconds equals 3.6 times the accepted distance |
| PointAccumulator.SegmentRowSpeed | scripts/create_dataset.py:67-84 | every row of a segment after its first carries the speed computed from its own point, the point before it and their accepted distance |
| PointAccumulator.SegmentPass | scripts/create_dataset.py:45-99 | one row per point of the segment |
| PointAccumulator.SegmentsPass | scripts/create_dataset.py:42-45 | the segments of a track in order, one row per point of each segment, segment after segment |
| PointAccumulator.SegmentTotals | scripts/create_dataset.py:42-65 | after a segment the running sums have grown by the sum of its accepted step distances and the sum of its climbs |
| PointAccumulator.SegmentsTotals | scripts/create_dataset.py:38-65 | after a track the running sums have grown by the per-segment sums, with nothing added across segment boundaries |
| PointAccumulator.GrowthMonotone | scripts/create_dataset.py:57-65 | within the rows of a pass the cumulative distance and D+ never decrease and stay between the sums before and after |
| PointAccumulator.SegmentStart | scripts/create_dataset.py:43-53 | the first point of a segment adds no distance and no D+, and its speed is its extension speed alone |
| PointAccumulator.TrackRows | scripts/create_dataset.py:35-45 | a track's rows start from running sums reset to 0: one row per point, the first with distance 0 and D+ 0 |
| PointAccumulator.TracksRows | scripts/create_dataset.py:35 | the tracks of one file, one row per point, track after track |
| PointAccumulator.DatasetRows | scripts/create_dataset.py:30-35 | every file in discovery order, one row per point of the file |
| PointAccumulator.TrackRunningSums | scripts/create_dataset.py:38-65 | each track's first row has distance 0 and D+ 0; the cumulative columns never decrease; each row adds less than 200 m; the last row carries the track's total distance and D+ |
| PointAccumulator.DatasetEcho | scripts/create_dataset.py:30-97 | exactly one row per point, file by file, track by track, segment by segment; each row carries its point's file, activity type, position, altitude and time, empty exactly when they are missing |

## Left out

- Reading and writing files, `glob` discovery of GPX files, the GPX parser itself, progress bars and printing. The model takes parsed files in discovery order and returns rows.
- `distance_3d` is a function parameter. Its geodesy is not modelled, only its three outcomes: a distance, `None`, or an exception.
- Rounding to 2 decimals when writing (`round(..., 2)`), ISO formatting of times and the CSV text format. The model works with exact reals and integer nanoseconds.
- IEEE floating point: NaN and infinity from `float(child.text)` or from the data, and the binary value of 0.8, are not modelled. Reals are exact.
- pandas' type coercion on reading (`to_datetime`/`to_numeric` with `errors="coerce"`). Unparsable cells are assumed to arrive as `None`.
- ActivityLabels.ReadLabel: does not model `read_csv`'s type inference for the `activity_type` column. A column whose every present cell looks like a number is read as numbers, so a type "1" comes back as 1.0 and is written "1.0"; the model reads it back as the text "1".
- ActivityLabels.WrittenKindReadBack: inherits that gap. A numeric-looking type is promised its own short name, which the source gives only when the column stays textual.
- A missing `file_name` (pandas drops it from `ngroup`) is not modelled. File names are always present strings.
- The timezone conversion and the `date` column (scripts/enrich_dataset.py:99-102) are left out. They depend on a timezone database.
- A `TypeError` from subtracting timestamps with mismatched timezones in the speed computation is not modelled. Timestamps share one clock.
- Point extensions: the nested loop over extension elements and their children is one sequence of children in document order. A child whose text does not parse as a number has no value.
- MedianFilter.SmoothedValue: states the half-count property and the min/max bounds of each smoothed value. It does not restate the value itself (the middle value, or the mean of the two middle values), which `MedianFilter.Median` defines.
- PointAccumulator.ExtensionSpeed: its contract states only which child a nonzero speed comes from. That the last numeric child decides is stated separately by `PointAccumulator.LastVelocityDecides`.
