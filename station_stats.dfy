/**
 * The per-station statistics pipeline: clean the raw table, parse its index, and summarise
 * the one remaining discharge column and its timestamps in a single row keyed by gauge id.
 */
module StationStats {
  import opened Wrappers
  import opened Calendar
  import opened StationTable
  import OrderStatistics
  import GaugeIds

  /** The exceptions the pipeline raises for one station. */
  datatype Failure =
    | UnparseableTimestamp          // an index label of a surviving row is not a date
    | IndexLengthMismatch(rows: nat) // the summary frame has one row per column, not one

  /** The summary row of one station (std and skew are not part of this model). */
  datatype StationSummary = StationSummary(
    gaugeId: string,
    mean: real, median: real, min: real, q1: real, q3: real, max: real,
    n: nat,
    monthCounts: seq<nat>,   // n_january .. n_december
    nGaps: nat,
    lastObs: Timestamp,
    firstYear: int,
    lastYear: int,
    yearlyAvg: real)

  predicate AllValid(ts: seq<Timestamp>) {
    forall i :: 0 <= i < |ts| ==> IsValid(ts[i])
  }

  // ---------------------------------------------------------------------------
  // Counts over the index

  /** Rows whose timestamp falls in calendar month `month`, in any year. */
  function MonthCount(ts: seq<Timestamp>, month: int): (n: nat)
    ensures n <= |ts|
  {
    if ts == [] then 0
    else (if ts[0].month == month then 1 else 0) + MonthCount(ts[1..], month)
  }

  /** The twelve monthly counts, January first. */
  function MonthCounts(ts: seq<Timestamp>): (counts: seq<nat>)
    ensures |counts| == 12
    ensures forall m :: 1 <= m <= 12 ==> counts[m - 1] == MonthCount(ts, m)
  {
    seq(12, i requires 0 <= i < 12 => MonthCount(ts, i + 1))
  }

  function SumOf(xs: seq<nat>): nat {
    if xs == [] then 0 else xs[0] + SumOf(xs[1..])
  }

  /** Rows in months 1 .. upTo. */
  function CountUpToMonth(ts: seq<Timestamp>, upTo: nat): nat {
    if upTo == 0 then 0 else CountUpToMonth(ts, upTo - 1) + MonthCount(ts, upTo)
  }

  lemma {:induction false} CountUpToMonthSplits(ts: seq<Timestamp>, upTo: nat)
    requires ts != []
    ensures CountUpToMonth(ts, upTo) ==
      CountUpToMonth(ts[1..], upTo) + (if 1 <= ts[0].month <= upTo then 1 else 0)
  {
    if upTo > 0 {
      CountUpToMonthSplits(ts, upTo - 1);
    }
  }

  lemma {:induction false} CountUpToTwelve(ts: seq<Timestamp>)
    requires AllValid(ts)
    ensures CountUpToMonth(ts, 12) == |ts|
  {
    if ts == [] {
      CountEmpty(12);
    } else {
      CountUpToMonthSplits(ts, 12);
      CountUpToTwelve(ts[1..]);
    }
  }

  lemma {:induction false} CountEmpty(upTo: nat)
    ensures CountUpToMonth([], upTo) == 0
  {
    if upTo > 0 {
      CountEmpty(upTo - 1);
    }
  }

  lemma {:induction false} SumOfMonthCounts(counts: seq<nat>, ts: seq<Timestamp>, k: nat)
    requires |counts| == 12 && k <= 12
    requires forall m :: 1 <= m <= 12 ==> counts[m - 1] == MonthCount(ts, m)
    ensures SumOf(counts[12 - k..]) + CountUpToMonth(ts, 12 - k) == CountUpToMonth(ts, 12)
  {
    if k > 0 {
      SumOfMonthCounts(counts, ts, k - 1);
      assert counts[12 - k..][1..] == counts[12 - k + 1..];
    }
  }

  /** Every row falls in exactly one calendar month: the twelve monthly counts add up to the row count. */
  lemma MonthCountsCoverAllRows(ts: seq<Timestamp>)
    requires AllValid(ts)
    ensures SumOf(MonthCounts(ts)) == |ts|
  {
    SumOfMonthCounts(MonthCounts(ts), ts, 12);
    assert MonthCounts(ts)[0..] == MonthCounts(ts);
    CountUpToTwelve(ts);
  }

  /** The parsed index as instants: seconds since the epoch, in row order. */
  function Instants(ts: seq<Timestamp>): (xs: seq<int>)
    requires AllValid(ts)
    ensures |xs| == |ts|
    ensures forall i :: 0 <= i < |ts| ==> xs[i] == EpochSeconds(ts[i])
  {
    seq(|ts|, i requires 0 <= i < |ts| => EpochSeconds(ts[i]))
  }

  /** A gap: the next instant is more than 31 whole (floored) days after the previous one. */
  predicate IsGap(from: int, to: int) {
    WholeDays(to - from) > 31
  }

  /** A gap is a step forward of at least 32 full days; 31 days and 23 hours is not one. */
  lemma GapMeansThirtyTwoDays(from: int, to: int)
    ensures IsGap(from, to) <==> to - from >= 32 * SecondsPerDay
  {
  }

  /** A step back in time is never a gap, so an unsorted index does not inflate the count. */
  lemma StepBackIsNoGap(from: int, to: int)
    requires to <= from
    ensures !IsGap(from, to)
  {
  }

  /** The number of gaps between consecutive instants, taken in file order. */
  function GapCount(xs: seq<int>): (g: nat)
    ensures g <= if |xs| == 0 then 0 else |xs| - 1
  {
    if |xs| <= 1 then 0
    else GapCount(xs[..|xs| - 1]) + (if IsGap(xs[|xs| - 2], xs[|xs| - 1]) then 1 else 0)
  }

  /** The step into position `i` is a gap. */
  predicate GapAt(xs: seq<int>, i: nat) {
    1 <= i < |xs| && IsGap(xs[i - 1], xs[i])
  }

  /** The positions i >= 1 whose step from position i - 1 is a gap. */
  ghost function GapPositions(xs: seq<int>): set<nat> {
    set i: nat | i < |xs| && GapAt(xs, i)
  }

  /** The gap count is the number of positions whose step from the previous one is a gap. */
  lemma {:induction false} GapCountCountsGapPositions(xs: seq<int>)
    ensures GapCount(xs) == |GapPositions(xs)|
  {
    if |xs| <= 1 {
      assert GapPositions(xs) == {};
    } else {
      GapCountCountsGapPositions(xs[..|xs| - 1]);
      GapPositionsOfLonger(xs);
    }
  }

  /** One more instant adds its own position to the gap positions when its step is a gap. */
  lemma GapPositionsOfLonger(xs: seq<int>)
    requires |xs| >= 2
    ensures var init, last := xs[..|xs| - 1], |xs| - 1;
      last !in GapPositions(init) &&
      GapPositions(xs) == GapPositions(init) + if GapAt(xs, last) then {last} else {}
  {
    var init, last := xs[..|xs| - 1], |xs| - 1;
    var before, after := GapPositions(init), GapPositions(xs);
    forall i: nat | i < last
      ensures i in after <==> i in before
    {
      assert GapAt(xs, i) == GapAt(init, i);
    }
  }

  // ---------------------------------------------------------------------------
  // Dates covered

  /** The latest timestamp of the index. */
  function Latest(ts: seq<Timestamp>): (t: Timestamp)
    requires |ts| > 0 && AllValid(ts)
    ensures t in ts
    ensures forall i :: 0 <= i < |ts| ==> EpochSeconds(ts[i]) <= EpochSeconds(t)
  {
    if |ts| == 1 then ts[0]
    else
      var rest := Latest(ts[1..]);
      assert forall i :: 1 <= i < |ts| ==> ts[i] == ts[1..][i - 1];
      if EpochSeconds(ts[0]) >= EpochSeconds(rest) then ts[0] else rest
  }

  /** The calendar years present in the index. */
  function Years(ts: seq<Timestamp>): set<int> {
    set i | 0 <= i < |ts| :: ts[i].year
  }

  function FirstYear(ts: seq<Timestamp>): (y: int)
    requires |ts| > 0
    ensures y in Years(ts)
    ensures forall i :: 0 <= i < |ts| ==> y <= ts[i].year
  {
    if |ts| == 1 then ts[0].year
    else
      var rest := FirstYear(ts[1..]);
      assert forall i :: 1 <= i < |ts| ==> ts[i] == ts[1..][i - 1];
      if ts[0].year <= rest then ts[0].year else rest
  }

  function LastYear(ts: seq<Timestamp>): (y: int)
    requires |ts| > 0
    ensures y in Years(ts)
    ensures forall i :: 0 <= i < |ts| ==> ts[i].year <= y
  {
    if |ts| == 1 then ts[0].year
    else
      var rest := LastYear(ts[1..]);
      assert forall i :: 1 <= i < |ts| ==> ts[i] == ts[1..][i - 1];
      if ts[0].year >= rest then ts[0].year else rest
  }

  /** The last year is the year of the latest observation. */
  lemma LastYearIsYearOfLatest(ts: seq<Timestamp>)
    requires |ts| > 0 && AllValid(ts)
    ensures LastYear(ts) == Latest(ts).year
  {
    var t := Latest(ts);
    var i :| 0 <= i < |ts| && ts[i].year == LastYear(ts);
    if t.year < ts[i].year {
      YearOrderIsTimeOrder(t, ts[i]);
    }
  }

  lemma {:induction false} YearsAtMostRows(ts: seq<Timestamp>)
    ensures |Years(ts)| <= |ts|
  {
    if ts != [] {
      YearsAtMostRows(ts[1..]);
      assert Years(ts) == {ts[0].year} + Years(ts[1..]) by {
        forall y | y in Years(ts) ensures y in {ts[0].year} + Years(ts[1..]) {
          var i :| 0 <= i < |ts| && ts[i].year == y;
          if i > 0 {
            assert ts[1..][i - 1].year == y;
          }
        }
      }
    }
  }

  /** The years lo .. hi. */
  function YearRange(lo: int, hi: int): (r: set<int>)
    ensures forall y :: y in r <==> lo <= y <= hi
    ensures |r| == if lo <= hi then hi - lo + 1 else 0
    decreases hi - lo
  {
    if lo > hi then {} else {lo} + YearRange(lo + 1, hi)
  }

  lemma SubsetSize(a: set<int>, b: set<int>)
    requires a <= b
    ensures |a| <= |b|
  {
    assert b == a + (b - a);
  }

  lemma YearsWithinSpan(ts: seq<Timestamp>)
    requires |ts| > 0
    ensures |Years(ts)| <= LastYear(ts) - FirstYear(ts) + 1
  {
    var span := YearRange(FirstYear(ts), LastYear(ts));
    assert Years(ts) <= span;
    SubsetSize(Years(ts), span);
  }

  /**
   * The years of operation: at least one, at most one per row, and no more than the
   * span from the first to the last year.
   */
  lemma YearsOfOperation(ts: seq<Timestamp>)
    requires |ts| > 0
    ensures 1 <= |Years(ts)| <= |ts|
    ensures FirstYear(ts) <= LastYear(ts)
    ensures |Years(ts)| <= LastYear(ts) - FirstYear(ts) + 1
  {
    YearsAtMostRows(ts);
    YearsWithinSpan(ts);
  }

  // ---------------------------------------------------------------------------
  // Per-column values

  /** Rows with a value in column `c`. */
  function CountPresent(rows: seq<Row>, c: nat): (n: nat)
    requires forall i :: 0 <= i < |rows| ==> c < |rows[i].cells|
    ensures n <= |rows|
  {
    if rows == [] then 0
    else (if rows[0].cells[c].Some? then 1 else 0) + CountPresent(rows[1..], c)
  }

  /** Values present in column `c`: what a column count reports. */
  function PresentCount(t: Table, c: nat): (n: nat)
    requires t.Rectangular() && c < t.width
    ensures n <= |t.rows|
  {
    CountPresent(t.rows, c)
  }

  predicate ColumnPresent(t: Table, c: nat)
    requires t.Rectangular() && c < t.width
  {
    forall i :: 0 <= i < |t.rows| ==> t.rows[i].cells[c].Some?
  }

  lemma {:induction false} CountOfPresentCells(rows: seq<Row>, c: nat)
    requires forall i :: 0 <= i < |rows| ==> c < |rows[i].cells| && rows[i].cells[c].Some?
    ensures CountPresent(rows, c) == |rows|
  {
    if rows != [] {
      CountOfPresentCells(rows[1..], c);
    }
  }

  /** In a column with no missing value, the count is the number of rows. */
  lemma CountOfPresentColumn(t: Table, c: nat)
    requires t.Rectangular() && c < t.width && ColumnPresent(t, c)
    ensures PresentCount(t, c) == |t.rows|
  {
    CountOfPresentCells(t.rows, c);
  }

  /** The values of a column with no missing value, in row order. */
  function ColumnValues(t: Table, c: nat): (xs: seq<real>)
    requires t.Rectangular() && c < t.width && ColumnPresent(t, c)
    ensures |xs| == |t.rows|
    ensures forall i :: 0 <= i < |t.rows| ==> Some(xs[i]) == t.rows[i].cells[c]
  {
    seq(|t.rows|, i requires 0 <= i < |t.rows| => t.rows[i].cells[c].value)
  }

  /** The statistics computed column by column, in the order they are filled in. */
  datatype Statistic = Mean | Median | Min | Q1 | Q3 | Max

  const Statistics: seq<Statistic> := [Mean, Median, Min, Q1, Q3, Max]

  function StatisticOf(stat: Statistic, xs: seq<real>): real
    requires |xs| > 0
  {
    match stat
    case Mean => OrderStatistics.Mean(xs)
    case Median => OrderStatistics.Median(xs)
    case Min => OrderStatistics.Min(xs)
    case Q1 => OrderStatistics.Quantile(xs, 1)
    case Q3 => OrderStatistics.Quantile(xs, 3)
    case Max => OrderStatistics.Max(xs)
  }

  /** Each statistic by name, unfolded: an aid for the lemmas below, not a property. */
  lemma StatisticsOfColumn(xs: seq<real>)
    requires |xs| > 0
    ensures StatisticOf(Mean, xs) == OrderStatistics.Mean(xs)
    ensures StatisticOf(Median, xs) == OrderStatistics.Median(xs)
    ensures StatisticOf(Min, xs) == OrderStatistics.Min(xs)
    ensures StatisticOf(Q1, xs) == OrderStatistics.Quantile(xs, 1)
    ensures StatisticOf(Q3, xs) == OrderStatistics.Quantile(xs, 3)
    ensures StatisticOf(Max, xs) == OrderStatistics.Max(xs)
  {
  }

  /** A cleaned table that can be summarised: at least one row, no missing value, dates in the index. */
  predicate Summarisable(df: Table) {
    df.Rectangular() && |df.rows| > 0 && AllValid(Labels(df)) &&
    forall c :: 0 <= c < df.width ==> ColumnPresent(df, c)
  }

  /** One statistic for each column. */
  function PerColumn(stat: Statistic, df: Table): (vs: seq<real>)
    requires Summarisable(df)
    ensures |vs| == df.width
  {
    seq(df.width, c requires 0 <= c < df.width => StatisticOf(stat, ColumnValues(df, c)))
  }

  /** The summary row of a cleaned single-column table. */
  function Summarize(gaugeId: string, df: Table): (s: StationSummary)
    requires Summarisable(df) && df.width == 1
    ensures s.gaugeId == gaugeId
    ensures s.n == |df.rows| && s.n == PresentCount(df, 0)
  {
    var xs, ts := ColumnValues(df, 0), Labels(df);
    CountOfPresentColumn(df, 0);
    YearsOfOperation(ts);
    StationSummary(
      gaugeId,
      StatisticOf(Mean, xs), StatisticOf(Median, xs), StatisticOf(Min, xs),
      StatisticOf(Q1, xs), StatisticOf(Q3, xs), StatisticOf(Max, xs),
      PresentCount(df, 0), MonthCounts(ts), GapCount(Instants(ts)), Latest(ts),
      FirstYear(ts), LastYear(ts), YearlyAverage(PresentCount(df, 0), |Years(ts)|))
  }

  /** The summary's statistics are ordered: min <= q1 <= median <= q3 <= max, and the mean within range. */
  lemma SummaryStatisticsOrdered(gaugeId: string, df: Table)
    requires Summarisable(df) && df.width == 1
    ensures var s := Summarize(gaugeId, df);
      s.min <= s.q1 <= s.median <= s.q3 <= s.max && s.min <= s.mean <= s.max
  {
    var xs := ColumnValues(df, 0);
    SummaryFields(gaugeId, df);
    StatisticsOfColumn(xs);
    OrderStatistics.FiveNumberOrder(xs);
    OrderStatistics.MeanBetweenMinAndMax(xs);
  }

  /** The summary's counts over the index: twelve month counts adding up to n, fewer gaps than rows. */
  lemma SummaryCounts(gaugeId: string, df: Table)
    requires Summarisable(df) && df.width == 1
    ensures var s := Summarize(gaugeId, df);
      |s.monthCounts| == 12 && SumOf(s.monthCounts) == s.n &&
      (forall m :: 0 <= m < 12 ==> s.monthCounts[m] <= s.n) &&
      s.nGaps <= s.n - 1
  {
    SummaryFields(gaugeId, df);
    MonthCountsCoverAllRows(Labels(df));
  }

  /** The summary's latest observation is an index label no earlier than any other. */
  lemma SummaryLatest(gaugeId: string, df: Table)
    requires Summarisable(df) && df.width == 1
    ensures var s, ts := Summarize(gaugeId, df), Labels(df);
      s.lastObs in ts && forall i :: 0 <= i < |ts| ==> EpochSeconds(ts[i]) <= EpochSeconds(s.lastObs)
  {
    SummaryFields(gaugeId, df);
  }

  /**
   * The year of the summary's latest observation closes the span of years, and the yearly
   * average spreads n over the years seen.
   */
  lemma SummaryYears(gaugeId: string, df: Table)
    requires Summarisable(df) && df.width == 1
    ensures var s, ts := Summarize(gaugeId, df), Labels(df);
      |Years(ts)| > 0 &&
      s.firstYear <= s.lastYear == s.lastObs.year &&
      s.yearlyAvg == YearlyAverage(s.n, |Years(ts)|)
  {
    var ts := Labels(df);
    SummaryFields(gaugeId, df);
    LastYearIsYearOfLatest(ts);
    YearsOfOperation(ts);
  }

  /** Observations per year of operation: n rows spread evenly over `years` years. */
  function YearlyAverage(n: nat, years: nat): (avg: real)
    requires years > 0
    ensures avg * years as real == n as real
  {
    n as real / years as real
  }

  /**
   * The result for the station read from `path`: an exception, no row (nothing left
   * after cleaning), or its summary row.
   */
  function StationStats(path: string, raw: Table): (r: Result<Option<StationSummary>, Failure>)
    requires raw.Rectangular()
    ensures r.Success? && r.value.Some? ==> r.value.value.n > 0
    ensures r.Failure? && r.error.IndexLengthMismatch? ==> r.error.rows >= 2
  {
    var df := Clean(raw);
    CleanedRowsAreValid(raw);
    if !AllValid(Labels(df)) then Failure(UnparseableTimestamp)
    else if |df.rows| == 0 || df.width == 0 then Success(None)
    else if df.width != 1 then Failure(IndexLengthMismatch(df.width))
    else
      CleanedTableSummarisable(raw);
      Success(Some(Summarize(GaugeIds.GaugeId(path), df)))
  }

  /** A cleaned table with rows and parseable dates can be summarised. */
  lemma CleanedTableSummarisable(raw: Table)
    requires raw.Rectangular()
    requires Clean(raw).Rectangular() && |Clean(raw).rows| > 0 && AllValid(Labels(Clean(raw)))
    ensures Summarisable(Clean(raw))
  {
    CleanedRowsAreValid(raw);
  }

  /** The summary row, field by field: an unfolding aid for the lemmas below, not a property. */
  lemma SummaryFields(gaugeId: string, df: Table)
    requires Summarisable(df) && df.width == 1
    ensures var xs, ts := ColumnValues(df, 0), Labels(df);
      |Years(ts)| > 0 &&
      Summarize(gaugeId, df) == StationSummary(
        gaugeId,
        StatisticOf(Mean, xs), StatisticOf(Median, xs), StatisticOf(Min, xs),
        StatisticOf(Q1, xs), StatisticOf(Q3, xs), StatisticOf(Max, xs),
        PresentCount(df, 0), MonthCounts(ts), GapCount(Instants(ts)), Latest(ts),
        FirstYear(ts), LastYear(ts), YearlyAverage(PresentCount(df, 0), |Years(ts)|))
  {
    YearsOfOperation(Labels(df));
  }

  lemma PerColumnOfSingleColumn(stat: Statistic, df: Table)
    requires Summarisable(df) && df.width == 1
    ensures PerColumn(stat, df) == [StatisticOf(stat, ColumnValues(df, 0))]
  {
  }

  // ---------------------------------------------------------------------------
  // Outcomes in terms of the raw table

  /** The raw rows that survive cleaning, in file order (not yet reduced to the retained columns). */
  function Survivors(raw: Table): seq<Row>
    requires raw.Rectangular()
  {
    Keep(raw.rows, r => Survives(raw, r))
  }

  lemma SurvivorsAreTheCleanedRows(raw: Table)
    requires raw.Rectangular()
    ensures |Clean(raw).rows| == |Survivors(raw)|
    ensures forall i :: 0 <= i < |Survivors(raw)| ==> Clean(raw).rows[i].time == Survivors(raw)[i].time
  {
    CleanKeepsExactlySurvivors(raw);
  }

  /** A station none of whose rows survives cleaning yields no row, and no exception. */
  lemma NoRowWhenNothingSurvives(path: string, raw: Table)
    requires raw.Rectangular() && Survivors(raw) == []
    ensures StationStats(path, raw) == Success(None)
  {
    SurvivorsAreTheCleanedRows(raw);
  }

  /**
   * A station whose value columns are all entirely missing yields no row, provided its
   * dates parse: the table is then empty though rows remain.
   */
  lemma NoRowWhenNoColumnHoldsData(path: string, raw: Table)
    requires raw.Rectangular() && RetainedColumns(raw) == []
    requires forall i :: 0 <= i < |raw.rows| ==> IsValid(raw.rows[i].time)
    ensures StationStats(path, raw) == Success(None)
  {
    var df := Clean(raw);
    CleanKeepsExactlySurvivors(raw);
    assert df.width == 0;
    forall i | 0 <= i < |df.rows| ensures IsValid(df.rows[i].time) {
      SurvivorsAreTheCleanedRows(raw);
      assert Survivors(raw)[i] in raw.rows;
    }
  }

  /** Timestamps are parsed after cleaning: only a surviving row with a non-date index raises. */
  lemma ParseFailsOnlyOnSurvivingRows(path: string, raw: Table)
    requires raw.Rectangular()
    ensures StationStats(path, raw) == Failure(UnparseableTimestamp) <==>
      exists i :: 0 <= i < |Survivors(raw)| && !IsValid(Survivors(raw)[i].time)
  {
    SurvivorsAreTheCleanedRows(raw);
    var df, sv := Clean(raw), Survivors(raw);
    assert AllValid(Labels(df)) <==> forall i :: 0 <= i < |sv| ==> IsValid(sv[i].time);
  }

  /**
   * A summary row exists only for a station with exactly one column holding data; it carries
   * the gauge id of the path, and its count is the number of surviving raw rows.
   */
  lemma SummaryDescribesSurvivors(path: string, raw: Table)
    requires raw.Rectangular()
    requires StationStats(path, raw).Success? && StationStats(path, raw).value.Some?
    ensures var s := StationStats(path, raw).value.value;
      |RetainedColumns(raw)| == 1 && s.gaugeId == GaugeIds.GaugeId(path) &&
      s.n == |Survivors(raw)| > 0
  {
    SurvivorsAreTheCleanedRows(raw);
    CleanKeepsExactlySurvivors(raw);
  }

  /**
   * Conversely, a station with exactly one column holding data, some surviving row and
   * parseable dates on the surviving rows yields a row, with the path's gauge id and one
   * observation per surviving row.
   */
  lemma RowWhenOneColumnSurvives(path: string, raw: Table)
    requires raw.Rectangular() && |RetainedColumns(raw)| == 1 && |Survivors(raw)| > 0
    requires forall i :: 0 <= i < |Survivors(raw)| ==> IsValid(Survivors(raw)[i].time)
    ensures StationStats(path, raw).Success? && StationStats(path, raw).value.Some?
    ensures var s := StationStats(path, raw).value.value;
      s.gaugeId == GaugeIds.GaugeId(path) && s.n == |Survivors(raw)|
  {
    SurvivingDatesParse(raw);
    SummaryDescribesSurvivors(path, raw);
  }

  /**
   * A station with two or more columns holding data, some surviving row and parseable
   * dates on the surviving rows raises the index-length ValueError.
   */
  lemma MismatchWhenSeveralColumnsSurvive(path: string, raw: Table)
    requires raw.Rectangular() && |RetainedColumns(raw)| >= 2 && |Survivors(raw)| > 0
    requires forall i :: 0 <= i < |Survivors(raw)| ==> IsValid(Survivors(raw)[i].time)
    ensures StationStats(path, raw) == Failure(IndexLengthMismatch(|RetainedColumns(raw)|))
  {
    SurvivingDatesParse(raw);
  }

  /** Parseable dates on the surviving rows are parseable dates on the cleaned table, which has rows. */
  lemma SurvivingDatesParse(raw: Table)
    requires raw.Rectangular() && |Survivors(raw)| > 0
    requires forall i :: 0 <= i < |Survivors(raw)| ==> IsValid(Survivors(raw)[i].time)
    ensures |Clean(raw).rows| > 0 && AllValid(Labels(Clean(raw)))
  {
    SurvivorsAreTheCleanedRows(raw);
  }

  /** The statistics loop: each statistic in turn, one value per column. */
  method FillStatistics(df: Table) returns (calculated: map<Statistic, seq<real>>)
    requires Summarisable(df)
    ensures forall stat :: stat in calculated && calculated[stat] == PerColumn(stat, df)
  {
    calculated := map[];
    for k := 0 to |Statistics|
      invariant forall j :: 0 <= j < k ==>
        Statistics[j] in calculated && calculated[Statistics[j]] == PerColumn(Statistics[j], df)
    {
      var stat := Statistics[k];
      calculated := calculated[stat := PerColumn(stat, df)];
    }
    forall stat ensures stat in calculated && calculated[stat] == PerColumn(stat, df) {
      var j := match stat case Mean => 0 case Median => 1 case Min => 2 case Q1 => 3 case Q3 => 4 case Max => 5;
      assert Statistics[j] == stat;
    }
  }

  /** The month loop: the number of rows in each calendar month, January first. */
  method CountByMonth(ts: seq<Timestamp>) returns (monthCounts: seq<nat>)
    ensures monthCounts == MonthCounts(ts)
  {
    monthCounts := [];
    for month := 1 to 13
      invariant |monthCounts| == month - 1
      invariant forall m :: 1 <= m < month ==> monthCounts[m - 1] == MonthCount(ts, m)
    {
      monthCounts := monthCounts + [MonthCount(ts, month)];
    }
  }

  /** `df.count()` and the yearly averages derived from it, one per column. */
  method CountPerColumn(df: Table, years: nat) returns (n: seq<nat>, yearlyAvg: seq<real>)
    requires Summarisable(df) && years > 0
    ensures |n| == df.width && forall c :: 0 <= c < df.width ==> n[c] == PresentCount(df, c)
    ensures |yearlyAvg| == df.width && forall c :: 0 <= c < df.width ==> yearlyAvg[c] == YearlyAverage(n[c], years)
  {
    n := seq(df.width, c requires 0 <= c < df.width => PresentCount(df, c));
    yearlyAvg := seq(df.width, c requires 0 <= c < df.width => YearlyAverage(n[c], years));
  }

  /** The scans of the index: month counts, gaps, the latest observation and the year span. */
  method ScanIndex(ts: seq<Timestamp>)
    returns (monthCounts: seq<nat>, nGaps: nat, lastObs: Timestamp, firstYear: int, lastYear: int)
    requires |ts| > 0 && AllValid(ts)
    ensures monthCounts == MonthCounts(ts) && nGaps == GapCount(Instants(ts)) && lastObs == Latest(ts)
    ensures firstYear == FirstYear(ts) && lastYear == LastYear(ts)
  {
    monthCounts := CountByMonth(ts);
    nGaps := GapCount(Instants(ts));
    lastObs := Latest(ts);
    firstYear, lastYear := FirstYear(ts), LastYear(ts);
  }

  /** The columns read off the index, after the statistics: counts, months, gaps, dates, years. */
  method IndexStatistics(df: Table)
    returns (n: seq<nat>, monthCounts: seq<nat>, nGaps: nat, lastObs: Timestamp,
             firstYear: int, lastYear: int, yearlyAvg: seq<real>)
    requires Summarisable(df)
    ensures var ts := Labels(df);
      |n| == df.width && (forall c :: 0 <= c < df.width ==> n[c] == PresentCount(df, c)) &&
      monthCounts == MonthCounts(ts) && nGaps == GapCount(Instants(ts)) && lastObs == Latest(ts) &&
      firstYear == FirstYear(ts) && lastYear == LastYear(ts) && |Years(ts)| > 0 &&
      |yearlyAvg| == df.width &&
      (forall c :: 0 <= c < df.width ==> yearlyAvg[c] == YearlyAverage(n[c], |Years(ts)|))
  {
    var ts := Labels(df);
    monthCounts, nGaps, lastObs, firstYear, lastYear := ScanIndex(ts);
    YearsOfOperation(ts);
    n, yearlyAvg := CountPerColumn(df, |Years(ts)|);
  }

  /** The columns filled in by the methods below, read at row 0, form the summary row. */
  lemma AssembledSummary(gaugeId: string, df: Table, calculated: map<Statistic, seq<real>>,
                         n: seq<nat>, monthCounts: seq<nat>, yearlyAvg: seq<real>)
    requires Summarisable(df) && df.width == 1
    requires forall stat :: stat in calculated && calculated[stat] == PerColumn(stat, df)
    requires forall stat :: stat in calculated && |calculated[stat]| == 1
    requires |n| == 1 && n[0] == PresentCount(df, 0)
    requires monthCounts == MonthCounts(Labels(df))
    requires |Years(Labels(df))| > 0
    requires |yearlyAvg| == 1 && yearlyAvg[0] == YearlyAverage(n[0], |Years(Labels(df))|)
    ensures var ts := Labels(df);
      StationSummary(
        gaugeId,
        calculated[Mean][0], calculated[Median][0], calculated[Min][0],
        calculated[Q1][0], calculated[Q3][0], calculated[Max][0],
        n[0], monthCounts, GapCount(Instants(ts)), Latest(ts), FirstYear(ts), LastYear(ts), yearlyAvg[0])
      == Summarize(gaugeId, df)
  {
    SummaryFields(gaugeId, df);
    PerColumnOfSingleColumn(Mean, df);
    PerColumnOfSingleColumn(Median, df);
    PerColumnOfSingleColumn(Min, df);
    PerColumnOfSingleColumn(Q1, df);
    PerColumnOfSingleColumn(Q3, df);
    PerColumnOfSingleColumn(Max, df);
  }

  /**
   * Fills in the statistics of a cleaned table column by column and month by month, then
   * builds the one-row summary, which exists only when exactly one column is left.
   */
  method SummarizeStepwise(gaugeId: string, df: Table) returns (r: Result<StationSummary, Failure>)
    requires Summarisable(df) && df.width > 0
    ensures df.width == 1 ==> r == Success(Summarize(gaugeId, df))
    ensures df.width != 1 ==> r == Failure(IndexLengthMismatch(df.width))
  {
    var calculated := FillStatistics(df);
    var n, monthCounts, nGaps, lastObs, firstYear, lastYear, yearlyAvg := IndexStatistics(df);
    if df.width != 1 {
      return Failure(IndexLengthMismatch(df.width));
    }
    AssembledSummary(gaugeId, df, calculated, n, monthCounts, yearlyAvg);
    r := Success(StationSummary(
      gaugeId,
      calculated[Mean][0], calculated[Median][0], calculated[Min][0],
      calculated[Q1][0], calculated[Q3][0], calculated[Max][0],
      n[0], monthCounts, nGaps, lastObs, firstYear, lastYear, yearlyAvg[0]));
  }

  /** Computes the result for one station step by step, as the pipeline does. */
  method CalculateStats(path: string, raw: Table) returns (r: Result<Option<StationSummary>, Failure>)
    requires raw.Rectangular()
    ensures r == StationStats(path, raw)
  {
    var df := raw;
    df := DropAllMissingColumns(df);
    df := DropIncompleteRows(df);
    df := DropNegativeRows(df);
    assert df == Clean(raw);
    CleanedRowsAreValid(raw);
    if !AllValid(Labels(df)) {
      return Failure(UnparseableTimestamp);
    }
    if |df.rows| == 0 || df.width == 0 {
      return Success(None);
    }
    CleanedTableSummarisable(raw);
    var summary := SummarizeStepwise(GaugeIds.GaugeId(path), df);
    match summary
    case Failure(e) => r := Failure(e);
    case Success(s) => r := Success(Some(s));
  }
}
