# datakube core in Dafny

This project models the reshaping core of datakube. datakube turns long Prometheus-style rows of
`(timestamp, group, value, labels)` into dense, per-run, offset-indexed tables for plotting. The
model covers five parts:

- **`DataKubeRelation`** (`datakube/data_utils.py`, module `DataKube` with `Fill`, `Normalize`,
  `Pivot` and `Rows`). A class whose methods replace the relation it holds.
  - `fill_missing_data`: a dense one-second grid per group, filled from a trailing window of rows.
  - `partition_and_normalize`: the first inclusive split a row falls in, and its offset from the
    earliest row of that split.
  - `to_pivot_table`: a pivot onto the offset index `0 .. max_time - 1`.
  - The conjunctive filters `with_label`, `with_namespace` and `with_value`.
  - Each SQL query is given its meaning directly, as a function over rows.
  - The schema records whether `timestamp` holds epoch milliseconds or a `TIMESTAMPTZ`, so the
    call order the queries need is enforced: `fill_missing_data` once, on milliseconds, before
    `partition_and_normalize`, before `to_pivot_table`.
- **Counter helpers** (`datakube/data_utils.py`, `datakube/df_utils.py`, module `Histogram`).
  - `counter_diff`: first differences with counter resets clamped to 0.
  - Both `delta_histogram` variants: pooling, sorting, the greatest delta, and the bin edges.
- **DataFrame utilities** (`datakube/df_utils.py`, modules `DfUtils` and `Aggregate`).
  - `sanitize`: floors epoch milliseconds to whole seconds, in place.
  - `partition_and_normalize`: one partition per split, indexed from the split's start.
  - `extract_labels_to_columns`: a `key=value,` parser that adds columns to the caller's frame.
  - `aggregate_timeseries`: group by index, align the series, fill only inside each series, sort.
- **Owner resolution and S3 paths** (`datakube/prom_utils.py`, module `Prom`).
  - `compute_pod_owners_map`: dedup keeping the first row, two left joins on (name, namespace),
    then a coalesce. The dedup key is the name alone, so of two pods with one name in different
    namespaces only the first is kept.
  - The `s3://bucket/prefix` split and the cache layout of `metric_to_df`.
- **Pod intervals** (`datakube/k8s_utils.py`, module `K8s`).
  - `fetch_pod_intervals`: two nested loops fold the container statuses of each pod into a
    `(start, end)` interval, then the intervals are sorted.

Modelling choices:

- Timestamps and values are integers, and a NULL / NaN value, label string, partition or
  timestamp bound is `Option.None`. Key columns (the grouper, pod, namespace) are plain strings
  and are never NULL (see Left out). The histogram edges are exact `real`s.
- Every exception or failed `assert` the source can raise on a modelled path is an `Err` value,
  with one deliberate exception: the two methods that carry loops, `Aggregate.AggregateTimeseries`
  and `K8s.FetchPodIntervals`, are proved against the intended behaviour of the two defects listed
  under Findings. The behaviour as written is kept beside them, in the function
  `Aggregate.AggregateAsWritten` and in the rule `K8s.EndRule.AsWritten` of the interval functions,
  where the `AttributeError` of the end comparison is an `Err`.
- `Seqs` and `Text` hold the generic sequence and string helpers: filter, deduplication keeping
  the first occurrence, insertion sort, substring search and `str(n)`.

Where datakube's design description and its code disagree, the model follows the code (for the
aggregation order, the code as written is the function `Aggregate.AggregateAsWritten`, and the
method follows the description):

- **Pivot index.** `to_pivot_table` builds its index with `range(0, int(max_time))`, so the
  index stops one short of `max_time`. By default, therefore, the rows at the greatest offset
  are dropped, although the description promises the full `[0, max_offset]` (`Pivot.PivotDropsLastOffset`).
- **Rows outside every split.** A row no split contains keeps a NULL partition and stays in the
  relation; it is not excluded.
- **Samples that round to the same second.** They are all kept: the LEFT JOIN has no
  deduplication, so a second can hold several rows.
- **The fill window.** It counts rows (`ROWS BETWEEN w PRECEDING`), not seconds.
- **The aggregation order.** The description has `aggregate_timeseries` fill along increasing
  offsets, but the code fills before it sorts (see Findings).

## Model

| member | source | states |
|---|---|---|
| Text.NatToString | datakube/df_utils.py:45 | `str(i)` of a natural number is non-empty, one character exactly for `i < 10` |
| Text.NatToStringInjective | datakube/df_utils.py:45 | distinct indices render to distinct strings |
| Text.DottedInjective | datakube/data_utils.py:82 | the names `prefix.i` are pairwise distinct, so partitions and series never share a name |
| Text.FindFrom | datakube/df_utils.py:37 | the leftmost occurrence of a pattern at or after a position, or proof that there is none |
| Text.Find | datakube/df_utils.py:37 | the leftmost occurrence of a pattern, absent exactly when the text does not contain it |
| Rows.Like | datakube/data_utils.py:121 | definition of SQL `LIKE` without escapes; specified by LikeLiteralThenAny, LikeContains |
| Rows.LikeLiteralThenAny | datakube/data_utils.py:121 | `u LIKE 't%'` holds exactly when `t` is a prefix of `u`, for `t` free of wildcards |
| Rows.LikeContains | datakube/data_utils.py:121 | `s LIKE '%t%'` is substring containment when `t` has no wildcards |
| Rows.HasLabel | datakube/data_utils.py:120-122 | definition of the `with_label` condition; specified by HasLabelIsSubstring, HasLabelUnanchored |
| Rows.HasLabelIsSubstring | datakube/data_utils.py:121 | `with_label(k, v)` keeps exactly the rows whose labels contain `k=v` |
| Rows.HasLabelUnanchored | datakube/data_utils.py:121 | the match is not anchored: `app=foo` matches inside `xapp=foobar` |
| Fill.RoundToSecond | datakube/data_utils.py:33 | rounding is floor: `s*1000 <= ms < s*1000 + 1000` |
| Fill.MinTs | datakube/data_utils.py:51 | the group's least rounded second, attained by a sample |
| Fill.MaxTs | datakube/data_utils.py:51 | the group's greatest rounded second, attained by a sample |
| Fill.Cell | datakube/data_utils.py:57-60 | the LEFT JOIN yields at least one row at every grid second |
| Fill.CellRows | datakube/data_utils.py:57-60 | each joined row is at its second and is a sample or an all-NULL filler |
| Fill.Grid | datakube/data_utils.py:53-61 | definition of `joined_timestamps` for one group; specified by GridAt, GridFromSamples |
| Fill.GridAt | datakube/data_utils.py:53-60 | the grid rows at second `t` are that second's join cell inside `[min, max]` and nothing outside |
| Fill.GridFromSamples | datakube/data_utils.py:57-60 | every grid row is a sample of the group or an all-NULL filler |
| Fill.GroupValuesMember | datakube/data_utils.py:50-52 | a group is listed exactly when some row carries it |
| Fill.DistinctMember | datakube/data_utils.py:50-52 | each group once, and no others |
| Fill.Carry | datakube/data_utils.py:63-71 | the window keeps one output row per grid row |
| Fill.FillGroup | datakube/data_utils.py:63-66 | output rows carry only timestamp, the grouper column, value and labels |
| Fill.FillMissing | datakube/data_utils.py:31-74 | every output row has exactly the grouper column as key and no normalization |
| Fill.FillGroups | datakube/data_utils.py:63-71 | definition: the filled groups one after another; specified by FillMissingIsolated, FillMissingGrid |
| Fill.FillMissingIsolated | datakube/data_utils.py:67-71 | nothing leaks across groups: a group's output rows are exactly its own fill |
| Fill.FillMissingGrid | datakube/data_utils.py:50-60 | every second from a group's min to max has one row, or one per sample rounded to it; none outside |
| Fill.GroupGridAt | datakube/data_utils.py:50-60 | the same count on a group's grid before windowing |
| Fill.CarryValueAt | datakube/data_utils.py:64-70 | `last_value(value IGNORE NULLS)`: own value kept; else the last non-null of the `w` preceding rows; NULL iff the frame is all NULL |
| Fill.CarryLabelsAt | datakube/data_utils.py:65-70 | the same for labels, independently of the value |
| Fill.GroupGridOrigin | datakube/data_utils.py:57-60 | a non-null grid value or label comes from an input row of that group |
| Fill.FillGroupCarry | datakube/data_utils.py:63-71 | each filled row: its second, own observation kept, window carry, NULL iff the frame is NULL, carried values come from the group |
| Normalize.PartOf | datakube/data_utils.py:81-85 | definition of the `CASE` partition column; specified by DisjointSplitsPart, Normalize |
| Normalize.FirstSplit | datakube/data_utils.py:81-85 | the first split (in order) whose inclusive bounds contain the timestamp, none iff no split does |
| Normalize.PartMin | datakube/data_utils.py:86 | the least timestamp of a partition, NULL partitions grouped together |
| Normalize.Normalize | datakube/data_utils.py:84-87 | fails iff there are no splits; otherwise every row kept, in order, with its first-match partition |
| Normalize.NormalizeOffsets | datakube/data_utils.py:86 | offsets are non-negative and each partition has a row at offset 0 |
| Normalize.NormalizeAt | datakube/data_utils.py:86 | a row's offset is its timestamp minus its partition's least timestamp |
| Normalize.DisjointSplitsPart | datakube/data_utils.py:81-85 | for disjoint splits, `prefix.i` iff split `i` contains the row, NULL iff none does |
| Normalize.ExampleParts | datakube/data_utils.py:81-85 | rows at 10..19 with splits [11,13], [15,18]: labels `sim.0` at 11..13, `sim.1` at 15..18, NULL elsewhere |
| Normalize.ExampleMins | datakube/data_utils.py:86 | in that example the partitions start at 11, 15 and 10 |
| Normalize.ExampleRow | datakube/data_utils.py:84-87 | one row of that example with its partition and offset |
| Normalize.NormalizeExample | datakube/data_utils.py:84-87 | three `sim.0` rows at offsets 0..2 and four `sim.1` rows at offsets 0..3 |
| Pivot.Aggregate | datakube/data_utils.py:108 | SQL aggregate: NULL iff all inputs NULL; min/max are an input and bound the inputs |
| Pivot.AggregateSum | datakube/data_utils.py:108 | `sum` adds exactly the non-NULL values |
| Pivot.SumPresentNone | datakube/data_utils.py:108 | the sum of only NULLs is 0 before SQL makes it NULL |
| Pivot.PartsOf | datakube/data_utils.py:108 | one partition per row |
| Pivot.MaxOffset | datakube/data_utils.py:98 | the greatest offset, NULL iff the relation is empty |
| Pivot.IndexLength | datakube/data_utils.py:97-102 | fails iff no `max_time` is given and the relation is empty |
| Pivot.FillNull | datakube/data_utils.py:115-116 | `fillna` leaves values alone, fills NULLs, and is a no-op without `fill_value` |
| Pivot.PivotOf | datakube/data_utils.py:97-118 | fails iff no `max_time` is given and the relation is empty |
| Pivot.Columns | datakube/data_utils.py:106-110 | definition of the pivot columns; specified by PivotShape |
| Pivot.PivotShape | datakube/data_utils.py:101-113 | index exactly `0..n-1`; one column per distinct partition and no other; full rows |
| Pivot.CellValues | datakube/data_utils.py:106-110 | definition of the values one pivot cell aggregates; specified by PivotCell |
| Pivot.PivotCell | datakube/data_utils.py:106-116 | a cell is the aggregate at its (offset, partition), or `fill_value` when NULL; NULL iff no value there |
| Pivot.PivotFilled | datakube/data_utils.py:115-116 | with `fill_value` no cell is NULL |
| Pivot.PivotDropsLastOffset | datakube/data_utils.py:101-103 | with the default `max_time` the greatest offset is missing from the index |
| DataKube.Relation.constructor | datakube/data_utils.py:24-26 | the relation holds the given rows, key columns and timestamp type, not normalized |
| DataKube.Relation.FillMissingData | datakube/data_utils.py:31-74 | fails unchanged on timestamps that are already `TIMESTAMPTZ` (`timestamp / 1000`), then on a missing grouper; otherwise rows become the fill, the grouper is the only key and the timestamps are `TIMESTAMPTZ` |
| DataKube.Relation.PartitionAndNormalize | datakube/data_utils.py:76-88 | fails unchanged with no splits, then on epoch-millisecond timestamps (compared with timestamp strings); otherwise rows become the normalized rows |
| DataKube.Relation.ToPivotTable | datakube/data_utils.py:90-118 | fails without the offset column or with no `max_time` on an empty relation; else the pivot |
| DataKube.Relation.WithLabel | datakube/data_utils.py:120-122 | rows become those matching `%key=value%` |
| DataKube.Relation.WithNamespace | datakube/data_utils.py:124-126 | fails without a namespace column; else keeps that namespace's rows |
| DataKube.Relation.WithValue | datakube/data_utils.py:128-130 | rows become those whose value compares as asked |
| Rows.InNamespace | datakube/data_utils.py:124-126 | definition of the `with_namespace` condition `namespace = ns`; used by Relation.WithNamespace and ChainedFilters |
| Rows.HasValue | datakube/data_utils.py:128-130 | definition of the `with_value` condition `value <cmp> val`, never true on NULL; used by Relation.WithValue and ChainedFilters |
| DataKube.Relation.KeptValid | datakube/data_utils.py:120-130 | filtering only removes rows |
| DataKube.ChainedFilters | datakube/data_utils.py:120-130 | chained filters remove rows only and equal the single conjunctive filter |
| Histogram.Diff | datakube/data_utils.py:138 | `diff()`: NaN first, NaN next to a NaN, else the difference |
| Histogram.Clamp | datakube/data_utils.py:139 | the mask keeps the column's length |
| Histogram.CounterDiffOf | datakube/data_utils.py:133-140 | one delta per row |
| Histogram.CounterDiffAt | datakube/data_utils.py:133-140 | first row NaN; later cells `max(0, x[i] - x[i-1])` or NaN next to NaN; never negative |
| Histogram.CounterDiffExample | tests/test_data_utils.py:23-25 | `[-11,14,11,...,20]` gives `[nan,25,0,1,1,3,0,1,2,2]` |
| Histogram.CounterDiff | datakube/data_utils.py:133-140 | every column becomes its clamped differences |
| Histogram.ClampNegatives | datakube/data_utils.py:139 | the buffer is overwritten with its clamped cells |
| Histogram.Above | datakube/data_utils.py:154 | definition of one column's selection above the baseline; specified by AboveMember |
| Histogram.AboveMember | datakube/data_utils.py:154 | a column contributes exactly its non-NaN cells above the baseline |
| Histogram.Pool | datakube/data_utils.py:151-157 | definition of the concatenated selections; specified by PoolMember |
| Histogram.PoolMember | datakube/data_utils.py:151-157 | the pool holds exactly the deltas above the baseline in some column |
| Histogram.BinEdges | datakube/data_utils.py:162 | `nbins + 1` edges |
| Histogram.BinEdgesShape | datakube/data_utils.py:162 | edges start at 0, end exactly at `dmax`, equally spaced |
| Histogram.HistogramOf | datakube/data_utils.py:151-164 | definition: pool, sort, `dmax`, edges; specified by HistogramSpec, HistogramErrors, HistogramOk |
| Histogram.HistogramSpec | datakube/data_utils.py:150-164 | fails iff the pool is empty (or all negative with bins); else the sorted pool, max last, edges to it |
| Histogram.HistogramErrors | datakube/data_utils.py:150-164 | the two failures: empty pool exactly, and negative greatest delta with bins exactly |
| Histogram.HistogramOk | datakube/data_utils.py:150-164 | a success carries the sorted pool, its greatest delta last, and the edges up to it |
| Histogram.SortedLastIsMax | datakube/data_utils.py:160-161 | the last of the sorted pool is its greatest element |
| Histogram.DeltaHistogram | datakube/data_utils.py:143-164 | definition of data_utils `delta_histogram` on the clamped deltas; specified by DeltaHistogramNeverBackwards |
| Histogram.DeltaHistogramNeverBackwards | datakube/data_utils.py:150-164 | clamped deltas never produce decreasing edges |
| Histogram.RawDeltaHistogram | datakube/df_utils.py:50-71 | definition of df_utils `delta_histogram` on the raw deltas; specified by RawDeltaHistogramBackwards |
| Histogram.RawDeltaHistogramBackwards | datakube/df_utils.py:50-71 | the unclamped variant fails on `5, 3` with baseline -5 where the clamped one succeeds |
| DfUtils.FloorToSecond | datakube/df_utils.py:11-12 | a whole second, the greatest not after the timestamp |
| DfUtils.FloorToSecondIdempotent | datakube/df_utils.py:10-13 | flooring is idempotent and fixes whole seconds |
| DfUtils.FloorAll | datakube/df_utils.py:11-12 | one timestamp per row |
| DfUtils.SanitizeIdempotent | datakube/df_utils.py:10-13 | sanitizing sanitized timestamps changes nothing |
| DfUtils.Sanitize | datakube/df_utils.py:10-13 | the timestamp column is overwritten with its floors |
| DfUtils.PartitionOf | datakube/df_utils.py:22-24 | definition of one partition and its index; specified by PartitionMember, PartitionWindow |
| DfUtils.PartitionMember | datakube/df_utils.py:21-23 | a partition holds exactly the rows in `[start, end]`, indexed by whole seconds since `start` within `[0, (end-start)/1000]` |
| DfUtils.PartitionAndNormalize | datakube/df_utils.py:16-27 | one partition per split, in split order |
| DfUtils.Indices | datakube/df_utils.py:23 | one index per partition row |
| DfUtils.PartitionExample | tests/test_df_utils.py:39-60 | splits [11 s,13 s] and [15 s,18 s] give indices 0..2 and 0..3 |
| DfUtils.PartitionWindow | datakube/df_utils.py:21-24 | a split over `n` consecutive seconds keeps them, indexed `0..n-1` |
| DfUtils.UpToComma | datakube/df_utils.py:37 | the non-greedy match up to a comma or the end: the comma-free prefix ending at the first comma or the end |
| DfUtils.ExtractLabel | datakube/df_utils.py:37 | NaN iff the cell is NaN or lacks `label=`; else the text after its first occurrence up to a comma |
| DfUtils.ExtractUnanchored | datakube/df_utils.py:37 | `name` is found inside `owner_name=web,name=api` and yields `web` |
| DfUtils.FindNameInOwnerName | datakube/df_utils.py:37 | the first `name=` in that text is at position 6 |
| DfUtils.ExtractColumn | datakube/df_utils.py:37 | the extraction applied cell by cell |
| DfUtils.LabelList | datakube/df_utils.py:32-34 | a single label is a one-element list |
| DfUtils.Extracted | datakube/df_utils.py:36-38 | the frame gains exactly one column per label |
| DfUtils.ExtractedSpec | datakube/df_utils.py:36-38 | each label column is the extraction of the original labels; other columns unchanged |
| DfUtils.LabelFrame.constructor | datakube/df_utils.py:31 | the frame holds the given columns |
| DfUtils.LabelFrame.ExtractLabelsToColumns | datakube/df_utils.py:30-38 | fails unchanged exactly when some label is asked for and there is no labels column; else the frame gains the extracted columns (none for an empty list) |
| Aggregate.GroupAggregate | datakube/df_utils.py:44 | pandas reductions skip NaN; `sum` of nothing is 0, `min`/`max` of nothing NaN |
| Aggregate.Indexes | datakube/df_utils.py:44 | the index of a series |
| Aggregate.InsertUnique | datakube/df_utils.py:44 | inserting into a strictly increasing index keeps it strictly increasing with the new member |
| Aggregate.SortedDistinct | datakube/df_utils.py:44 | the `groupby` index: distinct and increasing, the same members |
| Aggregate.Lookup | datakube/df_utils.py:47 | alignment by label gives NaN off the index |
| Aggregate.LookupAt | datakube/df_utils.py:47 | alignment by label reads the entry at that index |
| Aggregate.Grouped | datakube/df_utils.py:44 | definition of `groupby(level=0).aggregate(f)`; specified by LookupGrouped, GroupedIncreasing |
| Aggregate.LookupGrouped | datakube/df_utils.py:44-47 | a grouped series read at `x` is its aggregate at `x`, NaN off its index |
| Aggregate.AllIndexes | datakube/df_utils.py:47 | every index of every input |
| Aggregate.SortedUnion | datakube/df_utils.py:47 | the union of the indices, strictly increasing |
| Aggregate.LineIndexes | datakube/df_utils.py:47 | the row labels of a frame |
| Aggregate.Aligned | datakube/df_utils.py:47 | one row per union index, one cell per series |
| Aggregate.ColumnOf | datakube/df_utils.py:47 | one cell per row |
| Aggregate.FillInside | datakube/df_utils.py:47 | the fill keeps the length |
| Aggregate.FillInsideAt | datakube/df_utils.py:47 | `ffill(limit_area="inside")`: values kept, leading and trailing NaN kept, interior NaN take the nearest earlier value |
| Aggregate.FillColumns | datakube/df_utils.py:47 | filling keeps the rows and their labels |
| Aggregate.Groups | datakube/df_utils.py:43-44 | one grouped series per input |
| Aggregate.Keys | datakube/df_utils.py:45 | one name per input |
| Aggregate.LineLeTotal | datakube/df_utils.py:47 | `sort_index` orders rows by a total preorder |
| Aggregate.AggregateTimeseries | datakube/df_utils.py:41-47 | fails exactly on an empty list of frames (`pd.concat` of nothing); otherwise the loop collects the grouped series and names and yields the intended frame |
| Aggregate.AggregateTimeseriesOf | datakube/df_utils.py:41-47 | definition of the intended frame: inside fill along the sorted union; specified by AggregateShape, AggregateCell |
| Aggregate.AggregateShape | datakube/df_utils.py:41-47 | distinct column names `prefix.i`, one per input; rows strictly increasing; indices exactly the inputs' union |
| Aggregate.RawColumnIs | datakube/df_utils.py:44-47 | a column before filling is its series' aggregates along the sorted union |
| Aggregate.AggregateCell | datakube/df_utils.py:44-47 | each cell: the aggregate there, else NaN before the first / after the last value, else the latest earlier value |
| Aggregate.InsertUniqueLast | datakube/df_utils.py:44 | inserting a new greatest index appends it |
| Aggregate.SortedDistinctIncreasing | datakube/df_utils.py:44 | an increasing index is its own `groupby` index |
| Aggregate.GroupedIncreasing | datakube/df_utils.py:44 | a series with one value per increasing index is unchanged by `groupby` |
| Aggregate.IncreasingUnique | datakube/df_utils.py:47 | two strictly increasing sequences with the same members are equal |
| Aggregate.InsertAfterAll | datakube/df_utils.py:47 | a row after all others is inserted last |
| Aggregate.SortIncreasing | datakube/df_utils.py:47 | sorting rows already in index order leaves them unchanged |
| Aggregate.UnionInOrder | datakube/df_utils.py:47 | definition of the `concat(axis=1)` index in order of first appearance; specified by UnionInOrderMembers, GapExampleUnions |
| Aggregate.UnionInOrderMembers | datakube/df_utils.py:47 | the first-appearance union and the sorted union have the same members |
| Aggregate.AggregateAsWritten | datakube/df_utils.py:47 | definition of the code as written: inside fill on the first-appearance union, then sort; see AsWrittenWhenOrdered, FillBeforeSortLeavesGap |
| Aggregate.AsWrittenWhenOrdered | datakube/df_utils.py:47 | when the first-appearance union is already increasing, the code as written gives the intended frame |
| Aggregate.GapExampleGroups | datakube/df_utils.py:44 | the example's series are unchanged by `groupby` |
| Aggregate.GapExampleAll | datakube/df_utils.py:47 | the example's indices are `0, 2, 0, 1, 2` |
| Aggregate.GapExampleDedup | datakube/df_utils.py:47 | indices seen in the order `a, b, a, c, b` have the first-appearance union `a, b, c` |
| Aggregate.GapExampleSorted | datakube/df_utils.py:47 | their sorted union is `0, 1, 2` |
| Aggregate.GapExampleUnions | datakube/df_utils.py:47 | both unions of the example |
| Aggregate.GapExampleFills | datakube/df_utils.py:47 | the first column filled in either order |
| Aggregate.GapExampleAligned | datakube/df_utils.py:47 | the example aligned on any three indices |
| Aggregate.GapExampleLookups | datakube/df_utils.py:47 | the example's values read by label |
| Aggregate.FillTwoColumns | datakube/df_utils.py:47 | filling a two-column frame fills each column |
| Aggregate.GapExampleAlignedAt | datakube/df_utils.py:47 | the example aligned on `a, b, c` |
| Aggregate.GapExampleAlignedInOrder | datakube/df_utils.py:47 | the example aligned on the first-appearance union |
| Aggregate.GapExampleFilledInOrder | datakube/df_utils.py:47 | the fill on that order changes nothing: the gap trails |
| Aggregate.GapExampleAsWritten | datakube/df_utils.py:47 | as written the example keeps NaN at index 1 |
| Aggregate.SortExample | datakube/df_utils.py:47 | sorting rows labelled `0, 2, 1` |
| Aggregate.GapExampleAlignedSorted | datakube/df_utils.py:47 | the example aligned on the sorted union |
| Aggregate.GapExampleFilledSorted | datakube/df_utils.py:47 | filled along time, index 1 takes the value at 0 |
| Aggregate.GapExampleIntended | datakube/df_utils.py:47 | as intended the example has 1 at index 1 |
| Aggregate.FillBeforeSortLeavesGap | datakube/df_utils.py:47 | filling before sorting leaves an interior gap unfilled that the intended frame fills |
| Prom.BucketRun | datakube/prom_utils.py:19 | the maximal run of `[a-zA-Z_-]` at the start |
| Prom.UpToNewline | datakube/prom_utils.py:19 | `.*` stops at the first line break |
| Prom.ParseS3 | datakube/prom_utils.py:19-22 | a match gives a non-empty bucket of bucket characters and a one-line prefix that spell the path's start |
| Prom.BucketRunAll | datakube/prom_utils.py:19 | a bucket followed by a non-bucket character is the whole run |
| Prom.UpToNewlineAll | datakube/prom_utils.py:19 | a one-line prefix is taken whole |
| Prom.ParseS3RoundTrip | datakube/prom_utils.py:19-22 | a well-formed `s3://bucket/prefix` splits back into its bucket and prefix |
| Prom.BucketRunStops | datakube/prom_utils.py:19 | the run stops at the first non-bucket character |
| Prom.ParseS3RejectsBucket | datakube/prom_utils.py:19-20 | a bucket with a digit or `.` does not match |
| Prom.FirstNonBucket | datakube/prom_utils.py:19 | a non-bucket character has a first such position |
| Prom.CachePath | datakube/prom_utils.py:23-28 | definition of the local copy `cache_root/bucket/key`; specified by ReadLocationSpec |
| Prom.ReadLocation | datakube/prom_utils.py:17-39 | definition of the path `read_parquet` gets; specified by ReadLocationSpec, ReadLocationS3 |
| Prom.ReadLocationSpec | datakube/prom_utils.py:17-39 | the cache is read iff the path splits and caching is on; every object under the prefix is cached under that location, one path per key |
| Prom.ReadLocationS3 | datakube/prom_utils.py:17-39 | `s3://bucket/dir` reads `cache_root/bucket/dir/metric`, or the S3 path when the bucket has another character |
| Prom.ReadLocationCached | datakube/prom_utils.py:17-39 | with a bucket of letters, `-` and `_` only, the cache path `cache_root/bucket/dir/metric` is read |
| Prom.ReadLocationDirect | datakube/prom_utils.py:17-39 | with a bucket holding any other character, the S3 path itself is read |
| Prom.PodRows | datakube/prom_utils.py:42-43 | one pod-owner row per sample, with its pod and namespace |
| Prom.OwnerRows | datakube/prom_utils.py:46-51 | one owner row per sample |
| Prom.MatchesOf | datakube/prom_utils.py:54-68 | a key has at most as many matches as the right table has rows |
| Prom.MatchesUnique | datakube/prom_utils.py:54-68 | with unique right keys a key has no match iff no row has it, else exactly that row |
| Prom.FirstOf | datakube/prom_utils.py:54-68 | the match of a left row, absent iff there is none |
| Prom.LeftJoin | datakube/prom_utils.py:54-68 | definition of `merge(how="left")`; specified by LeftJoinUnique |
| Prom.LeftJoinUnique | datakube/prom_utils.py:54-68 | a left join on unique right keys keeps the left rows one for one, each with its match |
| Prom.DedupOwners | datakube/prom_utils.py:46-52 | definition of the deduplicated replicaset and job owner tables; specified by DedupOwnersUnique |
| Prom.DedupOwnersUnique | datakube/prom_utils.py:48-52 | dedup on the name makes (name, namespace) join keys unique |
| Prom.ComputePodOwnersMap | datakube/prom_utils.py:41-78 | computes the owner map: columns `pod`, `namespace`, `root_owner` |
| Prom.UniqueKeySame | datakube/prom_utils.py:54-68 | two rows of a unique-key table with the same key are one row |
| Prom.OwnersOfRows | datakube/prom_utils.py:54-78 | definition of both joins and the coalesce; specified by OwnersOfRowsAt, OwnerKindIgnored |
| Prom.OwnersOfRowsAt | datakube/prom_utils.py:54-76 | both joins keep the pods one for one; each row resolves its pod from its two matches |
| Prom.RootOwner | datakube/prom_utils.py:74-76 | definition of the `fillna` chain; specified by RootOwnerSpec |
| Prom.RootOwnerSpec | datakube/prom_utils.py:74-76 | root owner: the matching replicaset's owner, else the matching job's owner, else the pod's `owner_name` |
| Prom.DedupPods | datakube/prom_utils.py:42-44 | definition of the deduplicated pod owners; specified by DedupPodsCover, DedupPodsFirst, DedupPodsShape |
| Prom.DedupPodsCover | datakube/prom_utils.py:44 | every pod name survives the dedup |
| Prom.DedupRowsFirst | datakube/prom_utils.py:44 | each kept row is the first row of its pod name |
| Prom.DedupPodsFirst | datakube/prom_utils.py:44 | each pod once, with the namespace of its first sample |
| Prom.PodOwnersMapAligned | datakube/prom_utils.py:54-68 | the result follows the deduplicated pods one for one |
| Prom.DedupPodsShape | datakube/prom_utils.py:42-44 | the deduplicated pod rows hold every sampled pod name exactly once, and are no more than the samples |
| Prom.PodOwnersMapOf | datakube/prom_utils.py:41-78 | definition of `compute_pod_owners_map`; specified by PodOwnersMapRows, PodOwnersMapRoot |
| Prom.PodOwnersMapRows | datakube/prom_utils.py:41-78 | exactly one row per distinct pod name, every sampled pod present |
| Prom.PodOwnersMapRoot | datakube/prom_utils.py:54-76 | row `i` resolves the `i`-th distinct pod through its replicaset and job matches |
| Prom.OwnerKindIgnored | datakube/prom_utils.py:43 | `owner_kind` is never consulted |
| K8s.ScanContainers | datakube/k8s_utils.py:22-31 | definition of the inner loop from unset bounds, stopping at the first error; specified by CompleteBounds, ScanErrStays |
| K8s.ContainerStep | datakube/k8s_utils.py:25-31 | a container without a terminated state fails the assert; complete containers take min start and max end |
| K8s.PodIntervalOf | datakube/k8s_utils.py:19-20 | a pod without status or container statuses fails the assert |
| K8s.IntervalLeTotal | datakube/k8s_utils.py:38 | tuple order on `(start, end)` is a total preorder |
| K8s.FetchPodIntervals | datakube/k8s_utils.py:16-38 | the nested loops compute the intended intervals, sorted, or the first error |
| K8s.IntervalsErrStays | datakube/k8s_utils.py:18 | once a pod fails, the whole call fails with its error |
| K8s.ScanErrStays | datakube/k8s_utils.py:24 | once a container fails, its pod fails with that error |
| K8s.PodFails | datakube/k8s_utils.py:18-31 | a failing container after successful pods is the call's error |
| K8s.IntervalsOf | datakube/k8s_utils.py:17-36 | definition of the outer loop; specified by IntervalsOfSpec |
| K8s.IntervalsOfSpec | datakube/k8s_utils.py:17-36 | succeeds iff every pod does, then one interval per pod in order; else the first failing pod's error |
| K8s.FetchPodIntervalsOf | datakube/k8s_utils.py:16-38 | definition of `fetch_pod_intervals` under either end rule; specified by FetchPodIntervalsSpec |
| K8s.FetchPodIntervalsSpec | datakube/k8s_utils.py:16-38 | the result is one interval per pod, as a sorted permutation, or the first pod's error |
| K8s.CompleteBounds | datakube/k8s_utils.py:24-31 | over complete containers: the earliest start and the latest finish |
| K8s.PodIntervalSpans | datakube/k8s_utils.py:22-36 | a pod's interval covers all its containers, with attained bounds, ordered when each container is |
| K8s.UnterminatedFails | datakube/k8s_utils.py:25-26 | a container without a terminated state fails its pod |
| K8s.AsWrittenSecondFinishedFails | datakube/k8s_utils.py:30-31 | as written, any second complete container raises the missing-attribute error |
| K8s.SingleContainerAgrees | datakube/k8s_utils.py:28-31 | with one container as written and intended agree |
| K8s.TwoContainerPodAsWritten | datakube/k8s_utils.py:30-31 | the two-container pod fails as written |
| K8s.TwoContainerPodIntended | datakube/k8s_utils.py:28-31 | the two-container pod spans 0 to 7 as intended |
| K8s.OnePod | datakube/k8s_utils.py:17-36 | a one-pod list yields that pod's interval or error |
| K8s.TwoContainerPodExample | datakube/k8s_utils.py:30-31 | a pod with containers 0–5 and 1–7 fails where `[(0, 7)]` was meant |

## Left out

- The S3 listing and download, the file existence checks, directory creation and `read_parquet`
  in `metric_to_df` are I/O. Only the path split and the cache layout are modelled.
- `os.path.expanduser` of the cache root is not modelled; the cache root is a parameter.
- `read_obj_from_json` is file I/O plus a private kubernetes deserializer. datakube/plot_utils.py
  (rendering) and the constants module are not part of this model.
- The DuckDB connection, `create_view` and `df()` materialisation are not modelled: `Df` returns
  the rows themselves.
- The order of SQL result rows is unspecified. The model fixes one: groups in order of first
  appearance, each in increasing time.
- Floating-point values, timezones and `Arrow`/`Timestamp`/`timedelta` conversions are not
  modelled: values and timestamps are integers, and histogram edges are exact reals.
- `np.histogram`'s bin counts are not modelled: the histogram yields its sorted sample and its
  edges.
- The `lower` parameter of both `delta_histogram`s is unused by the source.
- `to_pivot_table` pivots on the partition column only, so its `column` parameter is not
  modelled. Only `sum`, `min` and `max` are modelled as aggregation functions.
- Label names and values containing regular-expression or `LIKE` metacharacters, and labels
  spanning several lines, are not modelled. The lemmas about `with_label` and label extraction
  assume plain text.
- DataKube.Relation.FillMissingData: `window_size` is a natural number. A negative
  `window_size`, which the source would interpolate into `ROWS BETWEEN ... PRECEDING`, is not
  modelled.
- NULL key columns are not modelled: a row's key columns (`Rows.Row.attrs`) and the pod and
  namespace of `Prom.PodSample` are plain strings. `fill_missing_data` gives a NULL grouper its own
  min-to-max grid whose rows all come out with NULL value and labels (the join condition
  `a.grouper = r.grouper` is never true for NULL), and pandas `merge` matches NaN namespaces with
  each other; neither behaviour is captured.
- Pivot.Columns: the pivot's columns are listed in order of first appearance of the partitions;
  DuckDB lists the distinct `ON` values in sorted order. No contract depends on the column order.
- The SQL and regular expressions are built by string interpolation. That is an injection
  concern, not modelled behaviour.

## Findings

| source | as written | input that shows it | evidently intended | confidence | as-written member | corrected member |
|---|---|---|---|---|---|---|
| datakube/df_utils.py:47 | `ffill(limit_area="inside")` runs before `sort_index()`, on the union index in order of first appearance | frames with values `{0: 1, 2: 3}` and `{0: 5, 1: 5, 2: 5}`: index 1 of the first column stays NaN | fill along increasing offsets, so index 1 becomes 1 | medium (depends on the pandas union order), not executed | Aggregate.FillBeforeSortLeavesGap | Aggregate.AggregateCell |
| datakube/k8s_utils.py:30-31 | the end comparison reads `cstat.state.finished_at`, which a container state does not have | a pod whose two containers terminated at 0–5 and 1–7 raises `AttributeError` | compare `cstat.state.terminated.finished_at`, giving the interval 0–7 | high, not executed | K8s.AsWrittenSecondFinishedFails | K8s.PodIntervalSpans |
