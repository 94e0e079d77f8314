# Optical telemetry toolkit — a verified model of the rule core

This project models the rule logic of an optical-network telemetry toolkit in
Dafny and proves properties of it. The toolkit reads per-span KPI samples
(OSNR, pre-FEC BER, Q-factor, chromatic dispersion) from CSV exports and
cleans and resamples them onto a regular time grid. It computes per-span
baselines, flags samples that deviate from those baselines or from fixed
thresholds, and exports metrics as Prometheus text.

A table is a `Frame`: its column names in order, and its rows as maps from
column name to `Cell`. A cell is a number, a string, an instant (integer
seconds, timezone-naive) or missing (NaN/NA/NaT). Timestamps are integers and
the resampling frequency is a positive cadence in seconds. Code outside the
toolkit enters the model only as a parameter:

- `parse`: the string grammar of `pd.to_numeric`.
- `std`: the sample standard deviation.
- `show`: Python's `str` of a cell.
- `fmt`: the text of `float(val)`.

Modules, one per source file plus shared pieces:

- `Telemetry` (telemetry.dfy): cells, rows and frames, numeric coercion, `groupby` keys and groups, deduplication, first-present lookup, and flattened `<col>_<stat>` names.
- `Stats` (stats.dfy): sum, mean, min, max and median of a sequence of reals.
- `Ingest` (ingest.dfy): the vendor "no sample" tokens, the header trim and the CSV-name filter and sort (`ingest.py`).
- `Clean` (clean.dfy): numeric casting, per-group resampling onto the grid (reindex, carry fill, bounded interpolation) and the centred moving average (`clean.py`).
- `Aggregate` (aggregate.dfy): `groupby(span).agg({col: [stats]})` with flattened column names, shared by the baseline and summary code.
- `Anomaly` (anomaly.dfy): the baseline table and the three baseline rules (`anomaly.py`).
- `Thresholds` (thresholds.dfy): the min/max breach logic shared by `analyze.detect_anomalies_simple` and `alerts.evaluate_thresholds`.
- `Alerts` (alerts.dfy): the default threshold table and the evaluator (`alerts.py`).
- `Analyze` (analyze.dfy): KPI inference, time range, gap counting, the simple detector and per-span summaries (`analyze.py`).
- `Export` (export.dfy): the Prometheus text exporter (`export.py`).

Where the source loops, the model is a `method` with the same loops, proved
equal to a specification function. The properties are proved as lemmas about
that function.

## Model

| member | source | states |
|---|---|---|
| Telemetry.CoerceCell | clean.py:24 | `to_numeric(errors="coerce")` yields a number or missing, never anything else: numbers are unchanged, a missing cell stays missing (the model has no column dtypes, so a datetime64 NaT is not told apart), a string becomes the number `parse` reads or missing when it rejects it, an instant becomes its datetime64 integer in nanoseconds; coercing twice changes nothing |
| Telemetry.CoerceColumnsAt | clean.py:22-24 | after coercing a list of columns, each named column that exists holds its coerced cell; every other cell is unchanged |
| Telemetry.Dedup | analyze.py:53 | `unique()`: no value twice, exactly the values of the input, never longer than the input |
| Telemetry.FirstPresent | alerts.py:42-46 | the column picked is the first variant in order that is a column; none is picked only when no variant is a column |
| Telemetry.MinInt | analyze.py:39 | the minimum is one of the values and no value is smaller |
| Telemetry.MaxInt | analyze.py:39 | the maximum is one of the values and no value is larger |
| Telemetry.Instants | analyze.py:36 | `dropna()` keeps exactly the values of the present timestamps, and never more than there are rows |
| Telemetry.InstantsCount | analyze.py:36-39 | `dropna()` keeps each present timestamp as often as it occurs, so its length is the number of timestamps less the missing ones |
| Telemetry.GroupKeys | clean.py:39 | the groupby keys are distinct; a key is listed iff some row carries it and none of its parts is missing |
| Telemetry.GroupRows | clean.py:39 | a group holds only rows of the table that carry the group's key |
| Telemetry.GroupRowsComplete | clean.py:39 | a row of the table is in a group exactly when it carries the group's key, so no row with the key is lost |
| Telemetry.FirstMissing | clean.py:39 | groupby fails with the first key column the table lacks, and only when one is missing |
| Telemetry.FlatNameInjective | anomaly.py:44 | flattening `<col>_<stat>` is injective when statistic names have no underscore |
| Stats.MeanBetween | analyze.py:107 | the mean of a non-empty sample lies between its minimum and maximum |
| Stats.MedianBetween | anomaly.py:37 | the median of a non-empty sample lies between its minimum and maximum |
| Stats.Sort | anomaly.py:37 | the median's ordering is sorted and a permutation of the sample |
| Ingest.CleanNaValuesAt | ingest.py:18-21 | a cell becomes missing iff it was missing or is exactly one of "NS", "-99.95", "-99.9", "-40.0", ""; every other cell is unchanged |
| Ingest.CleanNaValuesIdempotent | ingest.py:18-21 | cleaning twice gives the same table as cleaning once |
| Ingest.StripShape | ingest.py:39 | `strip()` removes only whitespace at either end and keeps a contiguous piece that neither starts nor ends with whitespace |
| Ingest.StripIdempotent | ingest.py:39 | stripping a stripped name changes nothing |
| Ingest.TimeFoundAfterTrim | ingest.py:39-41 | "Time" is found among the trimmed headers iff some raw header strips to "Time" |
| Ingest.PaddedTimeHeader | ingest.py:39-41 | the headers " Time " and "TP\t" trim to "Time" and "TP" |
| Ingest.CsvPaths | ingest.py:62-64 | a path is collected iff it joins the directory with a listed entry whose lower-cased name ends in ".csv" |
| Ingest.CsvNameExamples | ingest.py:63 | "RUN1.CSV" and "a.csv" pass the filter; "notes.txt", "a.csv.bak" and "csv" do not |
| Ingest.SortPaths | ingest.py:65 | `sorted` returns an ascending permutation of its input |
| Ingest.FindCsvsInDir | ingest.py:56-65 | the result is sorted ascending and is a permutation of the filtered paths |
| Thresholds.Variants | alerts.py:43 | `mapping.get(k, [])`: empty for a KPI the mapping lacks, otherwise the variants of k's entry |
| Thresholds.FindColumn | alerts.py:42-48 | the search loop with `break` returns the first variant present |
| Thresholds.HitsExact | alerts.py:49-57 | a row is reported for one bound iff its coerced value is present and strictly beyond the bound; the record carries the row's index and coerced value |
| Thresholds.HitsOrdered | alerts.py:51-57 | one mask's reports are in row order |
| Thresholds.KpiBreachesOrdered | alerts.py:50-57 | within one KPI, every "min" report precedes every "max" report, each group in row order |
| Thresholds.TableBreachesExact | alerts.py:40-57 | a report exists iff its KPI has a threshold entry, its column is the first present variant, the entry holds the bound its kind names, and the row's coerced value is strictly beyond it |
| Thresholds.AppendKpiBreaches | alerts.py:49-57 | the two mask loops of one KPI append exactly that KPI's reports, "min" then "max" |
| Thresholds.AppendHits | alerts.py:51-53 | the loop over one mask appends exactly the rows beyond the bound |
| Alerts.EvaluateThresholds | alerts.py:26-58 | the nested loops return exactly the table's reports, in threshold-key order, then min before max, then row order |
| Alerts.DefaultBounds | alerts.py:18-23 | in the default table only the osnr entry has a "min" bound (15.0) and only the pre_fec_ber entry a "max" bound (1e-3) |
| Alerts.DefaultAlerts | alerts.py:18-23 | under the default table only OSNR strictly below 15.0 and pre-FEC BER strictly above 1e-3 can alert; the qfactor and cd entries never do |
| Alerts.AlertsUseMappedColumns | alerts.py:33-48 | every alert is for a KPI the mapping knows, on one of its variants that is a column |
| Aggregate.Values | anomaly.py:42 | the aggregates see only the numbers of a column in a group, each taken from one of the group's rows |
| Aggregate.StatColumnInjective | anomaly.py:44 | two different (column, statistic) pairs never flatten to the same name |
| Aggregate.StatsRowKeys | anomaly.py:36-44 | an aggregate row holds exactly the flattened `<col>_<stat>` names of the requested columns and statistics |
| Aggregate.GroupAggAt | anomaly.py:42-44 | row i belongs to the i-th distinct span, which a row of the input carries, and holds each requested statistic of each column over that span's numbers |
| Aggregate.StatsOrdered | analyze.py:107 | where a span has numbers, min <= mean <= max and min <= median <= max |
| Anomaly.FindPresentKpis | anomaly.py:21-22 | a candidate is kept iff it is a column; never more than the candidates |
| Anomaly.FindPresentKpisOrder | anomaly.py:21-22 | the result lists the candidates at increasing positions, and every candidate that is a column has its position there: the candidates that are columns, in candidate order |
| Anomaly.FindPresentKpisSingle | anomaly.py:21-22 | a single candidate is kept exactly when it is a column |
| Anomaly.NothingPresent | anomaly.py:32-34 | with no candidate among the columns, nothing is present |
| Anomaly.ComputeBaselines | anomaly.py:25-45 | the loops building the aggregation dict and coercing the KPI columns produce the baseline table |
| Anomaly.CoercedGroupValues | anomaly.py:39-42 | a span's aggregated values are the numbers `parse` accepts among the span's raw cells; unparseable cells are dropped, never counted as zero |
| Anomaly.CoercedSpans | anomaly.py:39-42 | coercing the KPI columns does not change which spans exist or their order |
| Anomaly.BaselineCells | anomaly.py:35-44 | one row per span, holding the span and `<KPI>_median/_mean/_std/_count` of that span's parsed values; the count is the number of values that parse |
| Anomaly.StringifyColumn | anomaly.py:73 | `astype(str)` keeps the columns and the number of rows |
| Anomaly.DetectAnomaliesBaseline | anomaly.py:48-136 | the lookup loop and the row loop produce exactly the records of the rule specification, or the empty result |
| Anomaly.BuildLookup | anomaly.py:84-86 | the loop over the baseline rows builds exactly the span-string lookup, later rows overwriting earlier ones |
| Anomaly.ApplyRules | anomaly.py:88-131 | the row loop appends every row's records, in row order |
| Anomaly.PreparedAt | anomaly.py:72-80 | in the working copy the span cell is its string, each rule column the frame has is coerced, and every other cell is unchanged |
| Anomaly.LookupAt | anomaly.py:84-86 | a span string is in the lookup iff some baseline row stringifies to it; its entry is the last such row without its span |
| Anomaly.AllRecordsExact | anomaly.py:88-131 | a record is produced iff one row produces it |
| Anomaly.RowRecordsShape | anomaly.py:88-131 | a row yields at most 3 records, in q, cd, osnr order, each naming the row's span, which the lookup holds |
| Anomaly.QDropOnRow | anomaly.py:95-106 | q_drop fires iff the Q column exists, its value and the span's median are present, and value < median - q_drop_db strictly; the record carries the value, the median and the margin |
| Anomaly.CdDriftOnRow | anomaly.py:108-119 | cd_drift fires iff the CD value and median are present and the value is strictly more than cd_drift from the median; the record carries both |
| Anomaly.OsnrFloorOnRow | anomaly.py:121-131 | the OSNR rule fires iff osnr_min is given and the value is present and strictly below it; its baseline is the median or missing |
| Anomaly.UnknownSpanSkipped | anomaly.py:89-92 | a row whose span string has no baseline entry yields no record from any rule, the OSNR rule included |
| Anomaly.DetectRecordsFromRows | anomaly.py:84-92 | every record names the span of an input row that also has a baseline row |
| Anomaly.QDropThreshold | anomaly.py:97 | with median 10 and margin 1, q_drop fires iff the value is below 9 (8.5 fires; 9.0 and 9.5 do not) |
| Anomaly.NoKpisNoAnomalies | anomaly.py:32-34 | with no candidate column the baseline table is empty, and detection against it returns the empty result |
| Clean.DefaultCastColumns | clean.py:19-20 | by default every column except Time, timestamp, NE and TP is cast |
| Clean.CastNumeric | clean.py:14-25 | the casting loop coerces exactly the requested columns that exist |
| Clean.CastNumericAt | clean.py:17-24 | a cast cell becomes its parsed number or missing, never zero; uncast and absent columns are unchanged |
| Clean.LastKnownBefore | clean.py:45 | the nearest known slot before k, with only missing slots in between; none when every earlier slot is missing |
| Clean.NextKnownAfter | clean.py:45 | the nearest known slot after k, with only missing slots in between; none when every later slot is missing |
| Clean.CarryAt | clean.py:45 | carry fill keeps known slots; a missing slot takes the nearest known value before it when that is at most 2 slots back, otherwise the nearest known value after it when that is at most 2 slots ahead, otherwise stays missing, at the ends of the series as well as inside it |
| Clean.CarryFillsShortGap | clean.py:45 | an interior gap of at most 4 slots is filled entirely by carry: 2 slots forward, then the rest backward |
| Clean.LerpBetween | clean.py:46 | a linear interpolant lies between its two bracketing values |
| Clean.InterpAt | clean.py:46 | interpolation keeps known slots, fills only slots at most `limit` after a known one, and never fills before the first known slot |
| Clean.InterpInGap | clean.py:46 | inside a gap, a slot within the limit gets the linear value between the bracketing samples, without overshoot; beyond the limit it stays missing |
| Clean.FillAt | clean.py:45-46 | the whole fill (carry, then interpolation) never overwrites a known value |
| Clean.FillShortGap | clean.py:45-46 | a gap of at most 4 slots is filled by carry before interpolation runs |
| Clean.Smooth | clean.py:61-63 | smoothing preserves length |
| Clean.SmoothAt | clean.py:61-63 | a smoothed slot is missing iff its centred 3-window is all missing; otherwise it lies between the window's smallest and largest values |
| Clean.GridAt | clean.py:42 | grid slot k is min + k*cadence, never outside [min, max], and the last slot is within one cadence of max |
| Clean.RowAt | clean.py:43 | reindex finds the row stamped t, or none when no row carries t |
| Clean.RowAtUnique | clean.py:43 | with distinct timestamps, reindex picks the row stamped t |
| Clean.ReindexedAt | clean.py:43 | a grid slot is empty or holds a raw row stamped exactly at that grid point; off-grid samples are dropped |
| Clean.InterpolatedKeeps | clean.py:46 | interpolation does not change a known cell |
| Clean.FilledKeeps | clean.py:45-46 | neither fill step overwrites a known cell |
| Clean.SampleKept | clean.py:43-46 | a raw sample at a grid point keeps its value through reindex and both fills |
| Clean.ResampleKeepsKnown | clean.py:40-46 | in a group's output, the slot at a raw on-grid timestamp keeps that sample's known value |
| Clean.ResampleOneGrid | clean.py:40-52 | a group's output has floor((max-min)/cadence)+1 rows; row k is stamped min + k*cadence inside [min, max] and carries the group key |
| Clean.AttachAt | clean.py:48-52 | re-attaching the key sets each key column to its part of the key and leaves other columns alone |
| Clean.WithKeysAt | clean.py:48-52 | row k of a keyed grid is stamped with grid point k and carries every key column's key |
| Clean.WithKeysKeeps | clean.py:48-52 | attaching the keys leaves every non-key, non-timestamp column of a row unchanged |
| Clean.GroupKeyConsistent | clean.py:39 | a group key has one part per key column |
| Clean.ResampleGroupOne | clean.py:40-53 | the per-group steps compute the group's resampled rows or its failure |
| Clean.ResampleGroup | clean.py:28-58 | the group loop computes the resampled table or the first failure |
| Clean.FailureSticks | clean.py:39-53 | once one group fails, the whole resample fails with that failure |
| Clean.ResampleAllRows | clean.py:39-56 | every output row comes from one group's successful resample |
| Clean.GroupRowOnGrid | clean.py:39-53 | every row from a group lies on that group's grid and carries its key |
| Clean.ResampleRows | clean.py:34-58 | no timestamp column is an error; no groups gives an empty table; every output row lies on the grid of an existing group |
| Analyze.KpiColumnMapKeys | analyze.py:12-20 | the KPI map has no key twice |
| Analyze.VariantsAt | analyze.py:103 | `KPI_COLUMN_MAP[k]` is the variant list of k's entry |
| Analyze.PresentKpisExact | analyze.py:23-31 | a KPI is listed iff one of its variants is a column |
| Analyze.PresentKpisOnce | analyze.py:23-31 | each KPI is listed at most once |
| Analyze.PresentKpisOrder | analyze.py:23-31 | the result lists map entries at increasing positions, and every entry with a variant among the columns has its position there: the present KPIs in map order |
| Analyze.InferKpisPresent | analyze.py:23-31 | the nested loop with `break` lists the present KPIs in map order |
| Analyze.TimeRangeCount | analyze.py:34-39 | count is the number of rows less those whose timestamp is missing, repeated timestamps counted each time; start/end are None and count is 0 exactly when there is none |
| Analyze.TimeRangeBounds | analyze.py:34-39 | start <= end; both are timestamps of the table, and every valid timestamp lies between them |
| Analyze.DetectMissingTimestamps | analyze.py:42-61 | the group loop returns one row per group with a valid timestamp, or the groupby or column failure |
| Analyze.GapsExact | analyze.py:48-60 | a row is reported exactly for the groups with at least one valid timestamp |
| Analyze.GapSingleInstant | analyze.py:50-59 | a one-timestamp group is reported with expected 1, observed 1, missing 0 |
| Analyze.GapCountsUnobserved | analyze.py:52-53 | with on-grid timestamps, missing_count is the number of grid slots never observed, so it is not negative |
| Analyze.GapEvenlySpaced | analyze.py:52-53 | N timestamps one cadence apart give expected N, observed N, missing 0 |
| Analyze.GapOffGrid | analyze.py:53 | timestamps 0 s and 1 s at a 900 s cadence give expected 1, observed 2, so missing_count is -1 |
| Analyze.ColMapAt | analyze.py:72-77 | the column dict holds a KPI iff one of its variants is a column, and maps it to the first such variant |
| Analyze.DetectAnomaliesSimple | analyze.py:64-91 | both loops produce exactly the threshold reports over the KPI map: strict min then max per KPI; missing values never breach; KPIs without a column are skipped |
| Analyze.SimpleUsesMappedColumns | analyze.py:72-81 | every report is for a KPI of the map, on a present variant of it |
| Analyze.SummarizeBySpan | analyze.py:94-114 | the KPI loop fills the aggregation dict, then the result is empty, an error for a missing span column, or the per-span aggregate |
| Analyze.SummaryColumnsExact | analyze.py:99-108 | the summarised columns are exactly the first present variants of the KPIs, each once |
| Analyze.SummaryEmptyWithoutKpis | analyze.py:109-110 | with no KPI variant among the columns the summary is empty |
| Analyze.GroupAggOrdered | analyze.py:111-113 | in an aggregate holding min, mean and max, a column with numbers in a span has min <= mean <= max |
| Analyze.SummaryOrdered | analyze.py:111-114 | each span's summary row has `<col>_min` <= `<col>_mean` <= `<col>_max` for every KPI column with numbers in that span |
| Export.JoinSeparators | export.py:42 | when no line contains a newline, the joined text holds exactly one newline fewer than there are lines; no lines give "" |
| Export.NumericColumns | export.py:30 | a column is exported iff it is a column whose cells are all numbers or missing |
| Export.LabelBlockShape | export.py:32-37 | the label block is `{tp="…",ne="…"}`, one label alone when only one column exists, and nothing when neither does |
| Export.Filled | export.py:38-40 | a row's exported columns are exactly the numeric columns whose cell is not missing |
| Export.RowLinesAt | export.py:30-41 | a row gives one line per non-missing numeric cell, in column order: metric, label block, a space, the formatted value |
| Export.RowLineExact | export.py:30-41 | a line belongs to a row iff it is the line of one of the row's numeric columns holding a number |
| Export.LinesCount | export.py:27-41 | the number of lines equals the number of non-missing numeric cells |
| Export.LinesExact | export.py:27-41 | a line is emitted iff some row has a number in a numeric column, and it is `prefix_col{labels} value` for that cell |
| Export.NoNumbersNoText | export.py:26-42 | a table with no numeric cell gives "" |
| Export.AppendRowLines | export.py:30-41 | the inner loop appends exactly the row's lines, rebuilding the labels for each column |
| Export.DfToPrometheusLines | export.py:21-42 | the nested loops and the join produce the exposition text: lines in row order, then numeric-column order, joined by newlines; the prefix defaults to "opt_telemetry" |

## Left out

- File and directory I/O: `pd.read_csv`, `os.listdir`, `os.path.exists`, `write_json_summary`, `write_csv`. The directory listing is an input sequence.
- `load_csv_files` apart from the header trim: vendor date parsing, timezone conversion and concatenation.
- main.py, viz.py and predict.py: orchestration, plotting and `np.polyfit` forecasting.
- `normalize_zscore`: floating-point division by a standard deviation.
- Standard deviation values are the parameter `std`. Only where it is used (count >= 2) is modelled.
- The grammar of `pd.to_numeric`, Python's `str` of a cell and `float()` formatting are the parameters `parse`, `show` and `fmt`. `isoformat()` of the time range is left out: start and end are instants.
- Floating point is modelled as exact reals.
- pandas sorts groupby keys; the model keeps keys in order of first appearance. Group contents and per-group results are the same; only the order of groups in the output differs.
- Row labels are positions (a fresh RangeIndex). The reported row index is the row's position.
- pandas dtypes: a column counts as numeric when all its cells are numbers or missing. Boolean columns and object columns that happen to hold only numbers are not distinguished.
- Text timestamps in the timestamp column are not re-parsed. A timestamp cell is read as an instant, and anything else counts as missing.
- Analyze.DetectMissingTimestamps: `detect_missing_timestamps` calls `pd.to_datetime` without `errors="coerce"`. There, an unparseable text timestamp raises ValueError and a plain number is read as epoch nanoseconds. The model treats both as missing, so it skips a group that pandas would reject or report. Analyze.MissingTimestamps and Analyze.GapsExact share this reading.
- Telemetry.CoerceCell: an instant becomes its datetime64 integer in nanoseconds, as a present value in a datetime64 column does. A missing instant (NaT) in a datetime64 column becomes the int64 minimum, -9223372036854775808, under `to_numeric`; the model keeps it missing. A pandas Timestamp held in a text (object) column becomes NaN; the model gives its nanoseconds. Both differences need a per-column dtype, which the frame does not carry. They reach Clean.CastNumericAt, Thresholds.HitsExact and the anomaly coercions only when a timestamp column is cast or used as a KPI column, which the default cast list and the KPI mappings never do.
- The frequency string (default "15T") is an integer cadence in seconds.
- Interpolation applies only to numeric columns; object columns are carried but not interpolated. Interpolation at the grid's ends follows pandas' forward-only `limit`: leading gaps stay missing, and trailing gaps take the last value within the limit.
- `moving_average_smooth` is modelled for its default window of 3 only.
- `summarize_by_span` on a text column raises TypeError in pandas. The model aggregates only the numbers of a column.
- The baseline table keeps the span as its index in pandas. The model stores it as the span column, and the lookup removes it from each row, as `row.to_dict()` would.
- Anomaly.PreparedAt: stated only when the span column is not one of the three rule columns (QFACTOR-AVG, CDR, ESNR-AVG). If it were, stringifying would be undone by the numeric cast.
- Anomaly.QDropOnRow: stated only when the span column is not a rule column, for the same reason.
- Anomaly.CdDriftOnRow: stated only when the span column is not a rule column, for the same reason.
- Anomaly.OsnrFloorOnRow: stated only when the span column is not a rule column, for the same reason.
- Anomaly.UnknownSpanSkipped: stated only when the span column is not a rule column, for the same reason.
- Anomaly.DetectRecordsFromRows: stated only when the span column is not a rule column, for the same reason.
- Anomaly.BaselineCells: stated only when no flattened `<KPI>_<stat>` name equals the span column's name, and the span column is not a KPI. Otherwise pandas' column collision is not modelled.
- Analyze.GroupAggOrdered: stated only when the flattened names of the column do not equal the span column's name.
- Analyze.SummaryOrdered: stated only when the flattened names of the column do not equal the span column's name.
- Analyze.GapEvenlySpaced: stated for timestamps listed in increasing order, each one cadence after the previous. Shuffled rows give the same counts, but that case is not proved.
- Clean.CarryFillsShortGap: stated for interior gaps between two known slots. Edge gaps are described by Clean.CarryAt.
- Clean.InterpInGap: interior gaps only. The ends are described by Clean.InterpAt.

Where the code and the design description differ, the model follows the code:

- Single-timestamp groups: the design excludes groups with at most one distinct timestamp from the gap report. The code reports them with expected 1, observed 1, missing 0 (Analyze.GapSingleInstant).
- All-missing groups in the resampler: the design says a group with no timestamps gives an empty grid. The code's `date_range` over a group whose timestamps are all missing raises, and the model returns the `NoValidTimestamp` failure. Repeated timestamps in a group make `reindex` raise, which the model returns as `DuplicateTimestamps`.
- `missing_count` is not clamped, so it can be negative when timestamps are off the grid (Analyze.GapOffGrid).
