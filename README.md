# Gauge discharge statistics — a Dafny model

The program reads one CSV file of discharge observations per river gauge. Each file has a
timestamp index and usually one discharge column. For each station it writes one summary
row holding:

- the five-number summary and the mean of the discharge;
- the observation count, and the count for each calendar month;
- the number of gaps longer than a month;
- the latest observation, and the first and last years;
- the average number of observations per year.

The rows of all stations are concatenated and sorted by gauge id, which is the file name
without `.csv`.

The model covers:

- the per-station pipeline `calculate_stats`: cleaning, timestamp parsing, the statistics
  and the gauge id;
- the batch driver, which skips empty files, concatenates, drops the stations that
  produced no row and sorts;
- two pieces of arithmetic from the plotting code: the subplot grid size and the 1.5 × IQR
  outlier filter.

Modules, from the bottom up:

- `Wrappers`: `Option` and `Result`.
- `Calendar`: proleptic Gregorian timestamps, their validity (the dates `pd.to_datetime`
  accepts, every surviving row being taken to have one), seconds since the epoch and
  whole-day differences.
- `OrderStatistics`: sum, mean, min, max, sorting, and quantiles with linear interpolation
  (pandas' default), plus the median.
- `StationTable`: the raw table and the three cleaning stages.
- `GaugeIds`: the POSIX basename and the `.replace('.csv', '')` string replacement.
- `StationStats`: the summary of one station. It exists both as specification functions
  and as the step-by-step methods the source runs: a loop over the statistics, a loop over
  the months and the index scans.
- `StringOrder`: Python's string ordering, which is lexicographic by code point.
- `Batch`: the loop over the files, the sort by gauge id and the properties of the written
  table. It is stated for any per-file procedure and instantiated with `calculate_stats`.
- `Plotting`: the grid shape and the outlier filter.

Where the code does something other than its docstring or a first reading suggests, the
model follows the code:

- **Two or more data columns after cleaning.** The docstring at functions.py:14-16 promises
  a frame with statistics for each column of the file. With two or more data columns the
  statistics frame does have one row per column, but assigning the one-element gauge-id
  index to it raises (functions.py:73-75), so such a station aborts the run
  (`IndexLengthMismatch`).
- **Gaps.** functions.py:58 takes the differences between consecutive rows in file order
  (`index.to_series().diff()`) and never sorts the index, so a step backwards in time is
  never a gap.
- **Negative values and gaps.** Rows with a negative value are removed before gaps are
  counted. Rows dated 2020-01-01, 2020-01-15 and 2020-03-20 holding 1.0, 2.0 and -5.0
  leave n = 2 and n_gaps = 0: the March row is gone before its 65-day step from
  January 15 could count as a gap.
- **Stations with no values.** A station whose columns all hold no value has an empty
  frame (zero columns). Its file may still have rows, and none of them is dropped, so
  every date is parsed: when all of them parse the station gives no row, and a single
  bad date makes it raise instead.

## Model

| member | source | states |
|---|---|---|
| StationTable.CleanKeepsExactlySurvivors | functions.py:23-30 | cleaning drops exactly the columns with no value at all, then keeps, in file order, exactly the rows that are present and not negative in every remaining column |
| StationTable.Clean | functions.py:23-30 | the cleaned table has one column per column holding data, no more rows than the raw table, and only complete, non-negative rows |
| StationTable.CleanedRowsAreValid | functions.py:26-30 | every cleaned cell is present and not negative |
| StationStats.ParseFailsOnlyOnSurvivingRows | functions.py:32 | the index is parsed after cleaning: the station raises on an unparseable date exactly when some surviving row carries one |
| StationStats.NoRowWhenNothingSurvives | functions.py:33-35 | a station whose rows all fail cleaning yields no row |
| StationStats.NoRowWhenNoColumnHoldsData | functions.py:23-35 | a station whose every column is entirely missing yields no row (the frame has no columns) |
| StationStats.SummaryDescribesSurvivors | functions.py:32-77 | a summary row exists only when exactly one column holds data; it carries the path's gauge id, and its count is the number of surviving raw rows (at least one) |
| StationStats.RowWhenOneColumnSurvives | functions.py:32-77 | conversely, one column holding data, some surviving row and parseable dates on the surviving rows give a summary row, with the path's gauge id and one observation per surviving row |
| StationStats.MismatchWhenSeveralColumnsSurvive | functions.py:32-75 | two or more columns holding data, some surviving row and parseable dates on the surviving rows make the station raise the index-length ValueError, naming the column count |
| StationStats.Summarize | functions.py:37-50 | the summary row carries the given gauge id, and its count n is both the number of rows and the number of present values (`df.count()`) |
| StationStats.SummaryStatisticsOrdered | functions.py:39-47 | min ≤ q1 ≤ median ≤ q3 ≤ max and min ≤ mean ≤ max in every summary |
| StationStats.SummaryCounts | functions.py:50-58 | twelve month counts, each at most n, summing to n; fewer gaps than rows |
| StationStats.SummaryLatest | functions.py:60-61 | last_obs is an index label no earlier than any other |
| StationStats.SummaryYears | functions.py:63-70 | first_year ≤ last_year = the year of last_obs; yearly_avg is n spread over the distinct years, of which there is at least one |
| StationStats.MonthCountsCoverAllRows | functions.py:52-55 | every valid timestamp falls in exactly one month, so the month counts add up to the number of rows |
| StationStats.GapCountCountsGapPositions | functions.py:57-58 | n_gaps is the number of positions whose whole-day step from the previous row exceeds 31 days |
| StationStats.GapCount | functions.py:58 | a sequence of n instants has at most n - 1 gaps |
| StationStats.GapMeansThirtyTwoDays | functions.py:58 | a gap is a forward step of at least 32 full days; 31 days and some hours is not one |
| StationStats.StepBackIsNoGap | functions.py:58 | a step back in time is never counted as a gap |
| StationStats.Latest | functions.py:61 | the latest observation is an index label, and no label is later |
| StationStats.FirstYear | functions.py:64 | the first year occurs in the index, and no label has an earlier year |
| StationStats.LastYear | functions.py:67 | the last year occurs in the index, and no label has a later year |
| StationStats.LastYearIsYearOfLatest | functions.py:61-67 | last_year is the year of last_obs |
| StationStats.YearsOfOperation | functions.py:64-70 | there is at least one and at most n distinct years, and no more than the span first_year..last_year holds |
| StationStats.YearlyAverage | functions.py:70 | the yearly average times the number of distinct years is n |
| StationStats.MonthCounts | functions.py:53-55 | twelve counts, entry m - 1 counting the rows in calendar month m |
| StationStats.FillStatistics | functions.py:39-47 | the statistics loop fills every statistic with its value for each column |
| StationStats.CountByMonth | functions.py:53-55 | the month loop yields exactly the twelve month counts |
| StationStats.IndexStatistics | functions.py:50-70 | the scans of the index yield n, the month counts, the gap count, last_obs, the first and last years and the yearly average as specified |
| StationStats.CountPerColumn | functions.py:50-70 | one present-value count per column, and for each the yearly average of that count |
| StationStats.ScanIndex | functions.py:52-67 | the scans of the index give the month counts, the gap count, last_obs and the first and last years as specified |
| StationStats.AssembledSummary | functions.py:72-76 | the record built from the filled statistics and the index scans is the summary row |
| StationStats.StationStats | functions.py:7-77 | the outcome of one station: a summary row has a positive observation count, and the index-length failure only arises for two or more columns |
| StationStats.SummarizeStepwise | functions.py:37-76 | for one column the steps give the summary row; for more columns they fail with the index-length mismatch |
| StationStats.CalculateStats | functions.py:7-77 | the step-by-step pipeline returns exactly the specified outcome for the station |
| StationStats.SurvivorsAreTheCleanedRows | functions.py:26-30 | the cleaned rows are the surviving raw rows, one for one, with their labels |
| Calendar.WholeDays | functions.py:58 | whole days between two instants, rounded down as `Timedelta.days` does |
| Calendar.YearOrderIsTimeOrder | functions.py:61-67 | a label in an earlier year is an earlier instant |
| Calendar.WithinItsYear | functions.py:32 | a valid timestamp's instant lies within its calendar year |
| Calendar.YearLength | functions.py:32 | consecutive years start 365 or 366 days apart, by the Gregorian leap rule |
| OrderStatistics.Sort | functions.py:45 | sorting yields an ascending permutation of the values |
| OrderStatistics.FiveNumberOrder | functions.py:39-47 | min ≤ q1 ≤ median ≤ q3 ≤ max for any non-empty column |
| OrderStatistics.Quantile | functions.py:45 | every quantile lies between the smallest and the largest value |
| OrderStatistics.Median | functions.py:47 | the median lies between the two middle sorted values |
| OrderStatistics.QuantileMonotone | functions.py:45 | a quantile at a higher fraction is never smaller |
| OrderStatistics.MedianIsMiddleQuantile | functions.py:47 | the median is the quantile at one half |
| OrderStatistics.MeanBetweenMinAndMax | functions.py:47 | the mean lies between the minimum and the maximum |
| OrderStatistics.Mean | functions.py:47 | the mean times the count is the sum |
| OrderStatistics.Min | functions.py:47 | the minimum is a value no greater than any other |
| OrderStatistics.Max | functions.py:47 | the maximum is a value no smaller than any other |
| GaugeIds.Basename | functions.py:75 | the basename holds no '/' and is the tail of the path after its last '/' |
| GaugeIds.GaugeId | functions.py:75 | a gauge id never holds '/' |
| GaugeIds.RemoveCsv | functions.py:75 | removing ".csv" never lengthens a string and adds no '/' |
| GaugeIds.GaugeIdOfStationFile | functions.py:75 | the file `dir/<stem>.csv` has gauge id `<stem>` when the stem holds neither '/' nor ".csv" |
| GaugeIds.RemoveCsvOfExtension | functions.py:75 | removing ".csv" from `<stem>.csv` leaves `<stem>` when the stem has no ".csv" |
| GaugeIds.BasenameOfFileInDirectory | functions.py:75 | the basename of `dir/name` is `name` |
| Batch.Step | main.py:11-12 | one iteration: an abort or an empty file leaves the outcome unchanged, and a successful step adds at most one row |
| Batch.StepExtends | main.py:12 | a successful step keeps the rows so far as a prefix of its result |
| Batch.Accumulate | main.py:9-12 | a completed loop holds at most one row per file |
| Batch.SummaryTable | main.py:9-15 | a written table holds between one row and one row per file; a station failure means the loop aborted |
| Batch.BuildSummaryTable | main.py:8-15 | the loop over the files gives exactly the specified table: rows sorted by gauge id, or the failure that ends the run |
| Batch.AccumulateSucceeds | main.py:9-12 | the loop completes exactly when no non-empty file raises |
| Batch.AccumulateHoldsContributions | main.py:11-12 | a completed loop holds the rows of the contributing files in file order; stations that yield no row add nothing |
| Batch.AccumulateFailsAtFirst | main.py:11-12 | an aborted run carries the exception of the first non-empty file that raises |
| Batch.AbortIsFinal | main.py:9-12 | once a station has raised, later files change nothing |
| Batch.EmptyFileIgnored | main.py:11 | an empty file can be added anywhere without changing the outcome |
| Batch.ContributionsMatchFiles | main.py:12 | row k of the concatenation is the summary of the k-th contributing file |
| Batch.ContributionIds | main.py:12 | row k of the concatenation carries the gauge id of the k-th contributing file |
| Batch.NoRowsMeansNoGaugeIdColumn | main.py:15 | the sort raises for lack of a gauge_id column exactly when no station raised and none produced a row |
| Batch.SortByGaugeId | main.py:15 | the sorted rows are ascending by gauge id and are a permutation of the input rows |
| Batch.SummaryTableRows | main.py:9-15 | the written table is sorted by gauge id and holds exactly the rows of the contributing files, one per file, with the gauge ids of those files |
| Batch.SortedStringsUnique | main.py:15 | two ascending sequences of strings with the same elements are equal |
| Batch.SameFilesSameContributors | main.py:9-12 | listing the same files in another order gives the same contributing files, counted with multiplicity |
| Batch.SameFilesSameSuccess | main.py:9-15 | listing the same files in another order cannot make a run that wrote a table fail |
| Batch.FileIdsOfRearrangement | functions.py:75 | the gauge ids of a rearrangement of files are a rearrangement of their gauge ids |
| Batch.SameIdsSameColumn | main.py:15 | two written tables whose contributing files carry the same gauge ids, counted with multiplicity, have the same gauge-id column |
| Batch.GaugeIdColumnIndependentOfOrder | main.py:9-15 | the same files listed in any other order also give a table, and its gauge-id column is the same, row for row |
| StringOrder.AtMostReflexive | main.py:15 | every gauge id is at most itself |
| StringOrder.AtMostTotal | main.py:15 | any two gauge ids are comparable |
| StringOrder.AtMostTransitive | main.py:15 | the string order is transitive |
| StringOrder.AtMostAntisymmetric | main.py:15 | strings ordered both ways are equal |
| Plotting.IntSqrt | functions.py:105 | the integer square root r satisfies r² ≤ n < (r+1)² |
| Plotting.GridFitsAllPanels | functions.py:104-108 | the grid has a subplot for every column, and fewer than one full column of subplots stays empty |
| Plotting.GridShape | functions.py:104-108 | the grid has at least one row and as many columns as rows, or one fewer |
| Plotting.PerfectSquareLeavesEmptyRow | functions.py:105-108 | r² panels (r ≥ 1) get r + 1 rows of r columns, so a whole row stays empty |
| Plotting.IntSqrtOfSquare | functions.py:105 | the integer square root of r² is r |
| Plotting.DropOutliersAsWritten | functions.py:159-163 | the filter as written keeps only values drawn from the column |
| Plotting.DropOutliers | functions.py:159-163 | the corrected filter keeps only values drawn from the column |
| Plotting.StrictlyBetweenKeepsExactly | functions.py:161-163 | the filter as written keeps a value exactly when it lies strictly inside the bounds |
| Plotting.ConstantColumnLosesEveryValue | functions.py:159-163 | as written, a column of equal values loses every value, while the corrected filter keeps them all |
| Plotting.DropOutliersKeepsTheMiddleHalf | functions.py:159-163 | the corrected filter keeps every value from the first to the third quartile |
| Plotting.DropOutliersKeepsExactly | functions.py:159-163 | the corrected filter keeps a value exactly when it is in the column and between the fences, the fences included |
| Plotting.DropOutliersKeepsWhatAsWrittenKeeps | functions.py:159-163 | the corrected filter drops no value that the filter as written keeps |
| Plotting.QuartilesWithinFences | functions.py:160-163 | the quartiles lie between the two fences |
| Plotting.QuantileOfConstant | functions.py:160 | every quartile of a column of equal values is that value |

## Left out

- Reading the files: `read_csv` and the directory scan (`glob`, `getsize`). Each station
  file is handed to the model already parsed, as a table with its size and path. A
  malformed CSV, and a column that is not numeric, are not modelled.
- Writing `stats_updated.csv`. The model does not capture that `index=False` leaves the
  gauge id (which is the index) out of the written file.
- The `skew` and `std` statistics. They need square roots and floating-point behaviour;
  the summary record does not carry them.
- Floating point in general: values are exact reals. The mean is an exact sum divided by
  n, and NaN appears only as a missing cell.
- Timestamps are whole seconds in the proleptic Gregorian calendar. `pd.to_datetime` is
  modelled as a calendar-validity check.
- Not modelled: time zones, sub-second precision, string formats that pandas infers, and
  the limited range of `datetime64[ns]`.
- The `ValueError` a station with two or more data columns raises is modelled as a failure
  value. Its exact message is not.
- The `KeyError` of an empty run is modelled as `NoGaugeIdColumn`.
- `Batch.SortByGaugeId`: the pandas sort is not stable, so rows with equal gauge ids may
  come out in any order. The model fixes one order, and the contract promises only
  "sorted and a permutation".
- Rendering the plots: `create_plots`, `create_histogram` and `create_boxplot`,
  matplotlib state, folder creation, and the unit labels and column MultiIndex. Only the
  two pieces of arithmetic are modelled. The calls at functions.py:135-140 do not supply
  the axis argument.
- A surviving row with an empty date cell. `read_csv(index_col=0)` reads it as NaN and
  `pd.to_datetime` turns it into NaT without raising. The model has no such date: it
  takes every surviving row to have one. Such a row would count in n but in no month,
  would make neither of its gap steps a gap, and would be skipped by last_obs, the years
  and the year count. So `StationStats.MonthCountsCoverAllRows` and
  `StationStats.SummaryCounts` hold only for files whose surviving rows all have a date.
- `Plotting.IntSqrt`: `np.sqrt` is a float square root. It is modelled as the exact
  integer square root, which it equals for any number of columns this program can have.
- The commented-out repair script for one station file at the end of main.py.

## Findings

| source | as written | input that shows it | evidently intended | confidence | as-written member | corrected member |
|---|---|---|---|---|---|---|
| functions.py:159-163 | keeps a value only when it is strictly below q3 + 1.5·IQR and strictly above q1 − 1.5·IQR | a column whose values are all equal, e.g. n_gaps = 0 at every station: IQR = 0, both fences equal that value, and every value is removed | Tukey's rule: a value is an outlier only when it lies beyond a fence, so the fences themselves are kept | medium, not executed; no call in the program reaches the filter, since functions.py:136 and :139 omit the axis argument (the first raises TypeError, the second passes `False` as the units and leaves outliers included) | Plotting.ConstantColumnLosesEveryValue | Plotting.DropOutliersKeepsTheMiddleHalf |
